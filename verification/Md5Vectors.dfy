// The test suite of RFC 1321, section A.5: two of its digests, computed step
// by step from the constants of this model.
module Md5Vectors {
  import opened Md5
  import opened Md5Block

  // The initial state after n steps on a block.
  function After(x: seq<Bits>, n: nat): State
    requires |x| == 16
  {
    Steps(INITIAL, x, n)
  }

  // Four steps of round 1 from the state t to u, on these words of the block
  // and these of the table.
  predicate FourF(t: State, u: State, x0: Bits, x1: Bits, x2: Bits, x3: Bits, k0: Bits, k1: Bits, k2: Bits, k3: Bits)
  {
    && u.a == Mixed(t.a, t.b, F(t.b, t.c, t.d), x0, 7, k0)
    && u.d == Mixed(t.d, u.a, F(u.a, t.b, t.c), x1, 12, k1)
    && u.c == Mixed(t.c, u.d, F(u.d, u.a, t.b), x2, 17, k2)
    && u.b == Mixed(t.b, u.c, F(u.c, u.d, u.a), x3, 22, k3)
  }

  lemma FSteps(x: seq<Bits>, n: nat, u: State, x0: Bits, x1: Bits, x2: Bits, x3: Bits)
    requires |x| == 16 && 0 <= n <= 12 && n % 4 == 0
    requires x0 == x[WordOf(n)] && x1 == x[WordOf(n + 1)] && x2 == x[WordOf(n + 2)] && x3 == x[WordOf(n + 3)]
    requires FourF(After(x, n), u, x0, x1, x2, x3, Table(n), Table(n + 1), Table(n + 2), Table(n + 3))
    ensures u == After(x, n + 4)
  {
    hide Mixed, F, Table, WordOf, Steps;
    FourSteps(INITIAL, x, n, After(x, n), u.a, u.b, u.c, u.d);
  }

  // Four steps of round 2 from the state t to u, on these words of the block
  // and these of the table.
  predicate FourG(t: State, u: State, x0: Bits, x1: Bits, x2: Bits, x3: Bits, k0: Bits, k1: Bits, k2: Bits, k3: Bits)
  {
    && u.a == Mixed(t.a, t.b, G(t.b, t.c, t.d), x0, 5, k0)
    && u.d == Mixed(t.d, u.a, G(u.a, t.b, t.c), x1, 9, k1)
    && u.c == Mixed(t.c, u.d, G(u.d, u.a, t.b), x2, 14, k2)
    && u.b == Mixed(t.b, u.c, G(u.c, u.d, u.a), x3, 20, k3)
  }

  lemma GSteps(x: seq<Bits>, n: nat, u: State, x0: Bits, x1: Bits, x2: Bits, x3: Bits)
    requires |x| == 16 && 16 <= n <= 28 && n % 4 == 0
    requires x0 == x[WordOf(n)] && x1 == x[WordOf(n + 1)] && x2 == x[WordOf(n + 2)] && x3 == x[WordOf(n + 3)]
    requires FourG(After(x, n), u, x0, x1, x2, x3, Table(n), Table(n + 1), Table(n + 2), Table(n + 3))
    ensures u == After(x, n + 4)
  {
    hide Mixed, G, Table, WordOf, Steps;
    FourSteps(INITIAL, x, n, After(x, n), u.a, u.b, u.c, u.d);
  }

  // Four steps of round 3 from the state t to u, on these words of the block
  // and these of the table.
  predicate FourH(t: State, u: State, x0: Bits, x1: Bits, x2: Bits, x3: Bits, k0: Bits, k1: Bits, k2: Bits, k3: Bits)
  {
    && u.a == Mixed(t.a, t.b, H(t.b, t.c, t.d), x0, 4, k0)
    && u.d == Mixed(t.d, u.a, H(u.a, t.b, t.c), x1, 11, k1)
    && u.c == Mixed(t.c, u.d, H(u.d, u.a, t.b), x2, 16, k2)
    && u.b == Mixed(t.b, u.c, H(u.c, u.d, u.a), x3, 23, k3)
  }

  lemma HSteps(x: seq<Bits>, n: nat, u: State, x0: Bits, x1: Bits, x2: Bits, x3: Bits)
    requires |x| == 16 && 32 <= n <= 44 && n % 4 == 0
    requires x0 == x[WordOf(n)] && x1 == x[WordOf(n + 1)] && x2 == x[WordOf(n + 2)] && x3 == x[WordOf(n + 3)]
    requires FourH(After(x, n), u, x0, x1, x2, x3, Table(n), Table(n + 1), Table(n + 2), Table(n + 3))
    ensures u == After(x, n + 4)
  {
    hide Mixed, H, Table, WordOf, Steps;
    FourSteps(INITIAL, x, n, After(x, n), u.a, u.b, u.c, u.d);
  }

  // Four steps of round 4 from the state t to u, on these words of the block
  // and these of the table.
  predicate FourI(t: State, u: State, x0: Bits, x1: Bits, x2: Bits, x3: Bits, k0: Bits, k1: Bits, k2: Bits, k3: Bits)
  {
    && u.a == Mixed(t.a, t.b, I(t.b, t.c, t.d), x0, 6, k0)
    && u.d == Mixed(t.d, u.a, I(u.a, t.b, t.c), x1, 10, k1)
    && u.c == Mixed(t.c, u.d, I(u.d, u.a, t.b), x2, 15, k2)
    && u.b == Mixed(t.b, u.c, I(u.c, u.d, u.a), x3, 21, k3)
  }

  lemma ISteps(x: seq<Bits>, n: nat, u: State, x0: Bits, x1: Bits, x2: Bits, x3: Bits)
    requires |x| == 16 && 48 <= n <= 60 && n % 4 == 0
    requires x0 == x[WordOf(n)] && x1 == x[WordOf(n + 1)] && x2 == x[WordOf(n + 2)] && x3 == x[WordOf(n + 3)]
    requires FourI(After(x, n), u, x0, x1, x2, x3, Table(n), Table(n + 1), Table(n + 2), Table(n + 3))
    ensures u == After(x, n + 4)
  {
    hide Mixed, I, Table, WordOf, Steps;
    FourSteps(INITIAL, x, n, After(x, n), u.a, u.b, u.c, u.d);
  }

  function EmptyBlock(): seq<Bits> {
    [0x80, 0, 0, 0, 0, 0, 0, 0, 0, 0, 0, 0, 0, 0, 0, 0]
  }

  lemma EmptyLines4()
    ensures FourF(State(0x67452301, 0xefcdab89, 0x98badcfe, 0x10325476),
                  State(0xa5202774, 0x1b163203, 0xe7f06b23, 0xf59592dd), 0x80, 0, 0, 0,
                  0xd76aa478, 0xe8c7b756, 0x242070db, 0xc1bdceee)
  {
  }

  lemma Empty4(x: seq<Bits>)
    requires x == EmptyBlock() && After(x, 0) == State(0x67452301, 0xefcdab89, 0x98badcfe, 0x10325476)
    ensures After(x, 4) == State(0xa5202774, 0x1b163203, 0xe7f06b23, 0xf59592dd)
  {
    hide After, Mixed, F, FourF;
    EmptyLines4();
    FSteps(x, 0, State(0xa5202774, 0x1b163203, 0xe7f06b23, 0xf59592dd), 0x80, 0, 0, 0);
  }

  lemma EmptyLines8()
    ensures FourF(State(0xa5202774, 0x1b163203, 0xe7f06b23, 0xf59592dd),
                  State(0x32033344, 0x9bc13ce9, 0xf5b158db, 0x2f35d494), 0, 0, 0, 0,
                  0xf57c0faf, 0x4787c62a, 0xa8304613, 0xfd469501)
  {
  }

  lemma Empty8(x: seq<Bits>)
    requires x == EmptyBlock() && After(x, 4) == State(0xa5202774, 0x1b163203, 0xe7f06b23, 0xf59592dd)
    ensures After(x, 8) == State(0x32033344, 0x9bc13ce9, 0xf5b158db, 0x2f35d494)
  {
    hide After, Mixed, F, FourF;
    EmptyLines8();
    FSteps(x, 4, State(0x32033344, 0x9bc13ce9, 0xf5b158db, 0x2f35d494), 0, 0, 0, 0);
  }

  lemma EmptyLines12()
    ensures FourF(State(0x32033344, 0x9bc13ce9, 0xf5b158db, 0x2f35d494),
                  State(0x3893b991, 0x70768a29, 0xe1ef0576, 0xfce4a312), 0, 0, 0, 0,
                  0x698098d8, 0x8b44f7af, 0xffff5bb1, 0x895cd7be)
  {
  }

  lemma Empty12(x: seq<Bits>)
    requires x == EmptyBlock() && After(x, 8) == State(0x32033344, 0x9bc13ce9, 0xf5b158db, 0x2f35d494)
    ensures After(x, 12) == State(0x3893b991, 0x70768a29, 0xe1ef0576, 0xfce4a312)
  {
    hide After, Mixed, F, FourF;
    EmptyLines12();
    FSteps(x, 8, State(0x3893b991, 0x70768a29, 0xe1ef0576, 0xfce4a312), 0, 0, 0, 0);
  }

  lemma EmptyLines16()
    ensures FourF(State(0x3893b991, 0x70768a29, 0xe1ef0576, 0xfce4a312),
                  State(0xf56c7cf1, 0xd6819c6a, 0x5aa53f75, 0x374943a7), 0, 0, 0, 0,
                  0x6b901122, 0xfd987193, 0xa679438e, 0x49b40821)
  {
  }

  lemma Empty16(x: seq<Bits>)
    requires x == EmptyBlock() && After(x, 12) == State(0x3893b991, 0x70768a29, 0xe1ef0576, 0xfce4a312)
    ensures After(x, 16) == State(0xf56c7cf1, 0xd6819c6a, 0x5aa53f75, 0x374943a7)
  {
    hide After, Mixed, F, FourF;
    EmptyLines16();
    FSteps(x, 12, State(0xf56c7cf1, 0xd6819c6a, 0x5aa53f75, 0x374943a7), 0, 0, 0, 0);
  }

  lemma Empty20(x: seq<Bits>)
    requires x == EmptyBlock() && After(x, 16) == State(0xf56c7cf1, 0xd6819c6a, 0x5aa53f75, 0x374943a7)
    ensures After(x, 20) == State(0x1c7d7513, 0xbd782e17, 0xc095f13a, 0x7bd57a3a)
  {
    hide After;
    assert FourG(State(0xf56c7cf1, 0xd6819c6a, 0x5aa53f75, 0x374943a7),
                 State(0x1c7d7513, 0xbd782e17, 0xc095f13a, 0x7bd57a3a), 0, 0, 0, 0x80,
                 0xf61e2562, 0xc040b340, 0x265e5a51, 0xe9b6c7aa) by { hide Table, WordOf; }
    hide Mixed, G, FourG;
    GSteps(x, 16, State(0x1c7d7513, 0xbd782e17, 0xc095f13a, 0x7bd57a3a), 0, 0, 0, 0x80);
  }

  lemma Empty24(x: seq<Bits>)
    requires x == EmptyBlock() && After(x, 20) == State(0x1c7d7513, 0xbd782e17, 0xc095f13a, 0x7bd57a3a)
    ensures After(x, 24) == State(0x3d1e3e6c, 0xe422531a, 0xeb41643e, 0x68b7b3e3)
  {
    hide After;
    assert FourG(State(0x1c7d7513, 0xbd782e17, 0xc095f13a, 0x7bd57a3a),
                 State(0x3d1e3e6c, 0xe422531a, 0xeb41643e, 0x68b7b3e3), 0, 0, 0, 0,
                 0xd62f105d, 0x02441453, 0xd8a1e681, 0xe7d3fbc8) by { hide Table, WordOf; }
    hide Mixed, G, FourG;
    GSteps(x, 20, State(0x3d1e3e6c, 0xe422531a, 0xeb41643e, 0x68b7b3e3), 0, 0, 0, 0);
  }

  lemma Empty28(x: seq<Bits>)
    requires x == EmptyBlock() && After(x, 24) == State(0x3d1e3e6c, 0xe422531a, 0xeb41643e, 0x68b7b3e3)
    ensures After(x, 28) == State(0x306ec122, 0xa0572807, 0xa3c663da, 0xd28c77c2)
  {
    hide After;
    assert FourG(State(0x3d1e3e6c, 0xe422531a, 0xeb41643e, 0x68b7b3e3),
                 State(0x306ec122, 0xa0572807, 0xa3c663da, 0xd28c77c2), 0, 0, 0, 0,
                 0x21e1cde6, 0xc33707d6, 0xf4d50d87, 0x455a14ed) by { hide Table, WordOf; }
    hide Mixed, G, FourG;
    GSteps(x, 24, State(0x306ec122, 0xa0572807, 0xa3c663da, 0xd28c77c2), 0, 0, 0, 0);
  }

  lemma Empty32(x: seq<Bits>)
    requires x == EmptyBlock() && After(x, 28) == State(0x306ec122, 0xa0572807, 0xa3c663da, 0xd28c77c2)
    ensures After(x, 32) == State(0x13707036, 0xa2205f1f, 0x1c31c384, 0xae7813db)
  {
    hide After;
    assert FourG(State(0x306ec122, 0xa0572807, 0xa3c663da, 0xd28c77c2),
                 State(0x13707036, 0xa2205f1f, 0x1c31c384, 0xae7813db), 0, 0, 0, 0,
                 0xa9e3e905, 0xfcefa3f8, 0x676f02d9, 0x8d2a4c8a) by { hide Table, WordOf; }
    hide Mixed, G, FourG;
    GSteps(x, 28, State(0x13707036, 0xa2205f1f, 0x1c31c384, 0xae7813db), 0, 0, 0, 0);
  }

  lemma Empty36(x: seq<Bits>)
    requires x == EmptyBlock() && After(x, 32) == State(0x13707036, 0xa2205f1f, 0x1c31c384, 0xae7813db)
    ensures After(x, 36) == State(0xdf63eaa1, 0x004b6669, 0x12f3e755, 0xc3689f5b)
  {
    hide After;
    assert FourH(State(0x13707036, 0xa2205f1f, 0x1c31c384, 0xae7813db),
                 State(0xdf63eaa1, 0x004b6669, 0x12f3e755, 0xc3689f5b), 0, 0, 0, 0,
                 0xfffa3942, 0x8771f681, 0x6d9d6122, 0xfde5380c) by { hide Table, WordOf; }
    hide Mixed, H, FourH;
    HSteps(x, 32, State(0xdf63eaa1, 0x004b6669, 0x12f3e755, 0xc3689f5b), 0, 0, 0, 0);
  }

  lemma Empty40(x: seq<Bits>)
    requires x == EmptyBlock() && After(x, 36) == State(0xdf63eaa1, 0x004b6669, 0x12f3e755, 0xc3689f5b)
    ensures After(x, 40) == State(0x5f7a9b2e, 0xc5dc8c15, 0x91ca4cb7, 0xabc34e16)
  {
    hide After;
    assert FourH(State(0xdf63eaa1, 0x004b6669, 0x12f3e755, 0xc3689f5b),
                 State(0x5f7a9b2e, 0xc5dc8c15, 0x91ca4cb7, 0xabc34e16), 0, 0, 0, 0,
                 0xa4beea44, 0x4bdecfa9, 0xf6bb4b60, 0xbebfbc70) by { hide Table, WordOf; }
    hide Mixed, H, FourH;
    HSteps(x, 36, State(0x5f7a9b2e, 0xc5dc8c15, 0x91ca4cb7, 0xabc34e16), 0, 0, 0, 0);
  }

  lemma Empty44(x: seq<Bits>)
    requires x == EmptyBlock() && After(x, 40) == State(0x5f7a9b2e, 0xc5dc8c15, 0x91ca4cb7, 0xabc34e16)
    ensures After(x, 44) == State(0x4497169d, 0x0fe32453, 0xfd95f243, 0x76fd93d4)
  {
    hide After;
    assert FourH(State(0x5f7a9b2e, 0xc5dc8c15, 0x91ca4cb7, 0xabc34e16),
                 State(0x4497169d, 0x0fe32453, 0xfd95f243, 0x76fd93d4), 0, 0x80, 0, 0,
                 0x289b7ec6, 0xeaa127fa, 0xd4ef3085, 0x04881d05) by { hide Table, WordOf; }
    hide Mixed, H, FourH;
    HSteps(x, 40, State(0x4497169d, 0x0fe32453, 0xfd95f243, 0x76fd93d4), 0, 0x80, 0, 0);
  }

  lemma Empty48(x: seq<Bits>)
    requires x == EmptyBlock() && After(x, 44) == State(0x4497169d, 0x0fe32453, 0xfd95f243, 0x76fd93d4)
    ensures After(x, 48) == State(0x3f55edfd, 0xca7d2dbd, 0x68d84ea2, 0x22a31f54)
  {
    hide After;
    assert FourH(State(0x4497169d, 0x0fe32453, 0xfd95f243, 0x76fd93d4),
                 State(0x3f55edfd, 0xca7d2dbd, 0x68d84ea2, 0x22a31f54), 0, 0, 0, 0,
                 0xd9d4d039, 0xe6db99e5, 0x1fa27cf8, 0xc4ac5665) by { hide Table, WordOf; }
    hide Mixed, H, FourH;
    HSteps(x, 44, State(0x3f55edfd, 0xca7d2dbd, 0x68d84ea2, 0x22a31f54), 0, 0, 0, 0);
  }

  lemma Empty52(x: seq<Bits>)
    requires x == EmptyBlock() && After(x, 48) == State(0x3f55edfd, 0xca7d2dbd, 0x68d84ea2, 0x22a31f54)
    ensures After(x, 52) == State(0x93aa2577, 0x561e0689, 0xcd85b8cb, 0x1688dc85)
  {
    hide After;
    assert FourI(State(0x3f55edfd, 0xca7d2dbd, 0x68d84ea2, 0x22a31f54),
                 State(0x93aa2577, 0x561e0689, 0xcd85b8cb, 0x1688dc85), 0x80, 0, 0, 0,
                 0xf4292244, 0x432aff97, 0xab9423a7, 0xfc93a039) by { hide Table, WordOf; }
    hide Mixed, I, FourI;
    ISteps(x, 48, State(0x93aa2577, 0x561e0689, 0xcd85b8cb, 0x1688dc85), 0x80, 0, 0, 0);
  }

  lemma Empty56(x: seq<Bits>)
    requires x == EmptyBlock() && After(x, 52) == State(0x93aa2577, 0x561e0689, 0xcd85b8cb, 0x1688dc85)
    ensures After(x, 56) == State(0x5625a114, 0x1e77fa61, 0x392ad0d0, 0x3450f42b)
  {
    hide After;
    assert FourI(State(0x93aa2577, 0x561e0689, 0xcd85b8cb, 0x1688dc85),
                 State(0x5625a114, 0x1e77fa61, 0x392ad0d0, 0x3450f42b), 0, 0, 0, 0,
                 0x655b59c3, 0x8f0ccc92, 0xffeff47d, 0x85845dd1) by { hide Table, WordOf; }
    hide Mixed, I, FourI;
    ISteps(x, 52, State(0x5625a114, 0x1e77fa61, 0x392ad0d0, 0x3450f42b), 0, 0, 0, 0);
  }

  lemma Empty60(x: seq<Bits>)
    requires x == EmptyBlock() && After(x, 56) == State(0x5625a114, 0x1e77fa61, 0x392ad0d0, 0x3450f42b)
    ensures After(x, 60) == State(0x474a9c8c, 0x30130182, 0x36594b14, 0xdfce00bc)
  {
    hide After;
    assert FourI(State(0x5625a114, 0x1e77fa61, 0x392ad0d0, 0x3450f42b),
                 State(0x474a9c8c, 0x30130182, 0x36594b14, 0xdfce00bc), 0, 0, 0, 0,
                 0x6fa87e4f, 0xfe2ce6e0, 0xa3014314, 0x4e0811a1) by { hide Table, WordOf; }
    hide Mixed, I, FourI;
    ISteps(x, 56, State(0x474a9c8c, 0x30130182, 0x36594b14, 0xdfce00bc), 0, 0, 0, 0);
  }

  lemma Empty64(x: seq<Bits>)
    requires x == EmptyBlock() && After(x, 60) == State(0x474a9c8c, 0x30130182, 0x36594b14, 0xdfce00bc)
    ensures After(x, 64) == State(0x7246fad3, 0x14e45506, 0xff4ea3eb, 0x6e10a476)
  {
    hide After;
    assert FourI(State(0x474a9c8c, 0x30130182, 0x36594b14, 0xdfce00bc),
                 State(0x7246fad3, 0x14e45506, 0xff4ea3eb, 0x6e10a476), 0, 0, 0, 0,
                 0xf7537e82, 0xbd3af235, 0x2ad7d2bb, 0xeb86d391) by { hide Table, WordOf; }
    hide Mixed, I, FourI;
    ISteps(x, 60, State(0x7246fad3, 0x14e45506, 0xff4ea3eb, 0x6e10a476), 0, 0, 0, 0);
  }

  function AbcBlock(): seq<Bits> {
    [0x80636261, 0, 0, 0, 0, 0, 0, 0, 0, 0, 0, 0, 0, 0, 0x18, 0]
  }

  lemma AbcLines4()
    ensures FourF(State(0x67452301, 0xefcdab89, 0x98badcfe, 0x10325476),
                  State(0xd6d117b4, 0x7ad956f2, 0x2f6fbd72, 0x344a8432), 0x80636261, 0, 0, 0,
                  0xd76aa478, 0xe8c7b756, 0x242070db, 0xc1bdceee)
  {
  }

  lemma Abc4(x: seq<Bits>)
    requires x == AbcBlock() && After(x, 0) == State(0x67452301, 0xefcdab89, 0x98badcfe, 0x10325476)
    ensures After(x, 4) == State(0xd6d117b4, 0x7ad956f2, 0x2f6fbd72, 0x344a8432)
  {
    hide After, Mixed, F, FourF;
    AbcLines4();
    FSteps(x, 0, State(0xd6d117b4, 0x7ad956f2, 0x2f6fbd72, 0x344a8432), 0x80636261, 0, 0, 0);
  }

  lemma AbcLines8()
    ensures FourF(State(0xd6d117b4, 0x7ad956f2, 0x2f6fbd72, 0x344a8432),
                  State(0xc73741ef, 0x928d99f6, 0x207dc67b, 0x8bac3051), 0, 0, 0, 0,
                  0xf57c0faf, 0x4787c62a, 0xa8304613, 0xfd469501)
  {
  }

  lemma Abc8(x: seq<Bits>)
    requires x == AbcBlock() && After(x, 4) == State(0xd6d117b4, 0x7ad956f2, 0x2f6fbd72, 0x344a8432)
    ensures After(x, 8) == State(0xc73741ef, 0x928d99f6, 0x207dc67b, 0x8bac3051)
  {
    hide After, Mixed, F, FourF;
    AbcLines8();
    FSteps(x, 4, State(0xc73741ef, 0x928d99f6, 0x207dc67b, 0x8bac3051), 0, 0, 0, 0);
  }

  lemma AbcLines12()
    ensures FourF(State(0xc73741ef, 0x928d99f6, 0x207dc67b, 0x8bac3051),
                  State(0x854b3712, 0x5ed49596, 0x3020401c, 0x74e2f284), 0, 0, 0, 0,
                  0x698098d8, 0x8b44f7af, 0xffff5bb1, 0x895cd7be)
  {
  }

  lemma Abc12(x: seq<Bits>)
    requires x == AbcBlock() && After(x, 8) == State(0xc73741ef, 0x928d99f6, 0x207dc67b, 0x8bac3051)
    ensures After(x, 12) == State(0x854b3712, 0x5ed49596, 0x3020401c, 0x74e2f284)
  {
    hide After, Mixed, F, FourF;
    AbcLines12();
    FSteps(x, 8, State(0x854b3712, 0x5ed49596, 0x3020401c, 0x74e2f284), 0, 0, 0, 0);
  }

  lemma AbcLines16()
    ensures FourF(State(0x854b3712, 0x5ed49596, 0x3020401c, 0x74e2f284),
                  State(0xdda9b9a6, 0x72aff2e0, 0xe396856b, 0xa1051895), 0, 0, 0x18, 0,
                  0x6b901122, 0xfd987193, 0xa679438e, 0x49b40821)
  {
  }

  lemma Abc16(x: seq<Bits>)
    requires x == AbcBlock() && After(x, 12) == State(0x854b3712, 0x5ed49596, 0x3020401c, 0x74e2f284)
    ensures After(x, 16) == State(0xdda9b9a6, 0x72aff2e0, 0xe396856b, 0xa1051895)
  {
    hide After, Mixed, F, FourF;
    AbcLines16();
    FSteps(x, 12, State(0xdda9b9a6, 0x72aff2e0, 0xe396856b, 0xa1051895), 0, 0, 0x18, 0);
  }

  lemma Abc20(x: seq<Bits>)
    requires x == AbcBlock() && After(x, 16) == State(0xdda9b9a6, 0x72aff2e0, 0xe396856b, 0xa1051895)
    ensures After(x, 20) == State(0x3e9e9126, 0xb5b204e4, 0xe25e1652, 0x4a1d804e)
  {
    hide After;
    assert FourG(State(0xdda9b9a6, 0x72aff2e0, 0xe396856b, 0xa1051895),
                 State(0x3e9e9126, 0xb5b204e4, 0xe25e1652, 0x4a1d804e), 0, 0, 0, 0x80636261,
                 0xf61e2562, 0xc040b340, 0x265e5a51, 0xe9b6c7aa) by { hide Table, WordOf; }
    hide Mixed, G, FourG;
    GSteps(x, 16, State(0x3e9e9126, 0xb5b204e4, 0xe25e1652, 0x4a1d804e), 0, 0, 0, 0x80636261);
  }

  lemma Abc24(x: seq<Bits>)
    requires x == AbcBlock() && After(x, 20) == State(0x3e9e9126, 0xb5b204e4, 0xe25e1652, 0x4a1d804e)
    ensures After(x, 24) == State(0x59a8ffda, 0x47092c07, 0xabfc7920, 0x6d002f1e)
  {
    hide After;
    assert FourG(State(0x3e9e9126, 0xb5b204e4, 0xe25e1652, 0x4a1d804e),
                 State(0x59a8ffda, 0x47092c07, 0xabfc7920, 0x6d002f1e), 0, 0, 0, 0,
                 0xd62f105d, 0x02441453, 0xd8a1e681, 0xe7d3fbc8) by { hide Table, WordOf; }
    hide Mixed, G, FourG;
    GSteps(x, 20, State(0x59a8ffda, 0x47092c07, 0xabfc7920, 0x6d002f1e), 0, 0, 0, 0);
  }

  lemma Abc28(x: seq<Bits>)
    requires x == AbcBlock() && After(x, 24) == State(0x59a8ffda, 0x47092c07, 0xabfc7920, 0x6d002f1e)
    ensures After(x, 28) == State(0xb7f268cf, 0x786acb8f, 0xfe1623b1, 0x09388eff)
  {
    hide After;
    assert FourG(State(0x59a8ffda, 0x47092c07, 0xabfc7920, 0x6d002f1e),
                 State(0xb7f268cf, 0x786acb8f, 0xfe1623b1, 0x09388eff), 0, 0x18, 0, 0,
                 0x21e1cde6, 0xc33707d6, 0xf4d50d87, 0x455a14ed) by { hide Table, WordOf; }
    hide Mixed, G, FourG;
    GSteps(x, 24, State(0xb7f268cf, 0x786acb8f, 0xfe1623b1, 0x09388eff), 0, 0x18, 0, 0);
  }

  lemma Abc32(x: seq<Bits>)
    requires x == AbcBlock() && After(x, 28) == State(0xb7f268cf, 0x786acb8f, 0xfe1623b1, 0x09388eff)
    ensures After(x, 32) == State(0x790a77fb, 0x726342d3, 0xa62884aa, 0x9f47e4f8)
  {
    hide After;
    assert FourG(State(0xb7f268cf, 0x786acb8f, 0xfe1623b1, 0x09388eff),
                 State(0x790a77fb, 0x726342d3, 0xa62884aa, 0x9f47e4f8), 0, 0, 0, 0,
                 0xa9e3e905, 0xfcefa3f8, 0x676f02d9, 0x8d2a4c8a) by { hide Table, WordOf; }
    hide Mixed, G, FourG;
    GSteps(x, 28, State(0x790a77fb, 0x726342d3, 0xa62884aa, 0x9f47e4f8), 0, 0, 0, 0);
  }

  lemma Abc36(x: seq<Bits>)
    requires x == AbcBlock() && After(x, 32) == State(0x790a77fb, 0x726342d3, 0xa62884aa, 0x9f47e4f8)
    ensures After(x, 36) == State(0xb3707ebf, 0x3b0875c7, 0x8d212ff5, 0x60127b2e)
  {
    hide After;
    assert FourH(State(0x790a77fb, 0x726342d3, 0xa62884aa, 0x9f47e4f8),
                 State(0xb3707ebf, 0x3b0875c7, 0x8d212ff5, 0x60127b2e), 0, 0, 0, 0x18,
                 0xfffa3942, 0x8771f681, 0x6d9d6122, 0xfde5380c) by { hide Table, WordOf; }
    hide Mixed, H, FourH;
    HSteps(x, 32, State(0xb3707ebf, 0x3b0875c7, 0x8d212ff5, 0x60127b2e), 0, 0, 0, 0x18);
  }

  lemma Abc40(x: seq<Bits>)
    requires x == AbcBlock() && After(x, 36) == State(0xb3707ebf, 0x3b0875c7, 0x8d212ff5, 0x60127b2e)
    ensures After(x, 40) == State(0x21b117b9, 0x5a2f5ea5, 0x3575227e, 0x6e7429d5)
  {
    hide After;
    assert FourH(State(0xb3707ebf, 0x3b0875c7, 0x8d212ff5, 0x60127b2e),
                 State(0x21b117b9, 0x5a2f5ea5, 0x3575227e, 0x6e7429d5), 0, 0, 0, 0,
                 0xa4beea44, 0x4bdecfa9, 0xf6bb4b60, 0xbebfbc70) by { hide Table, WordOf; }
    hide Mixed, H, FourH;
    HSteps(x, 36, State(0x21b117b9, 0x5a2f5ea5, 0x3575227e, 0x6e7429d5), 0, 0, 0, 0);
  }

  lemma Abc44(x: seq<Bits>)
    requires x == AbcBlock() && After(x, 40) == State(0x21b117b9, 0x5a2f5ea5, 0x3575227e, 0x6e7429d5)
    ensures After(x, 44) == State(0x11de1779, 0x4c6124f4, 0x31c465ca, 0xfadcaa38)
  {
    hide After;
    assert FourH(State(0x21b117b9, 0x5a2f5ea5, 0x3575227e, 0x6e7429d5),
                 State(0x11de1779, 0x4c6124f4, 0x31c465ca, 0xfadcaa38), 0, 0x80636261, 0, 0,
                 0x289b7ec6, 0xeaa127fa, 0xd4ef3085, 0x04881d05) by { hide Table, WordOf; }
    hide Mixed, H, FourH;
    HSteps(x, 40, State(0x11de1779, 0x4c6124f4, 0x31c465ca, 0xfadcaa38), 0, 0x80636261, 0, 0);
  }

  lemma Abc48(x: seq<Bits>)
    requires x == AbcBlock() && After(x, 44) == State(0x11de1779, 0x4c6124f4, 0x31c465ca, 0xfadcaa38)
    ensures After(x, 48) == State(0x7f2e507b, 0x7beb9700, 0x8fae6399, 0x99d9679d)
  {
    hide After;
    assert FourH(State(0x11de1779, 0x4c6124f4, 0x31c465ca, 0xfadcaa38),
                 State(0x7f2e507b, 0x7beb9700, 0x8fae6399, 0x99d9679d), 0, 0, 0, 0,
                 0xd9d4d039, 0xe6db99e5, 0x1fa27cf8, 0xc4ac5665) by { hide Table, WordOf; }
    hide Mixed, H, FourH;
    HSteps(x, 44, State(0x7f2e507b, 0x7beb9700, 0x8fae6399, 0x99d9679d), 0, 0, 0, 0);
  }

  lemma Abc52(x: seq<Bits>)
    requires x == AbcBlock() && After(x, 48) == State(0x7f2e507b, 0x7beb9700, 0x8fae6399, 0x99d9679d)
    ensures After(x, 52) == State(0x7b201df8, 0x8bf025c4, 0xb298cefd, 0xf4e8e96e)
  {
    hide After;
    assert FourI(State(0x7f2e507b, 0x7beb9700, 0x8fae6399, 0x99d9679d),
                 State(0x7b201df8, 0x8bf025c4, 0xb298cefd, 0xf4e8e96e), 0x80636261, 0, 0x18, 0,
                 0xf4292244, 0x432aff97, 0xab9423a7, 0xfc93a039) by { hide Table, WordOf; }
    hide Mixed, I, FourI;
    ISteps(x, 48, State(0x7b201df8, 0x8bf025c4, 0xb298cefd, 0xf4e8e96e), 0x80636261, 0, 0x18, 0);
  }

  lemma Abc56(x: seq<Bits>)
    requires x == AbcBlock() && After(x, 52) == State(0x7b201df8, 0x8bf025c4, 0xb298cefd, 0xf4e8e96e)
    ensures After(x, 56) == State(0x06cc5e8a, 0x3bfa2c27, 0x7d632dd0, 0x5b0d97aa)
  {
    hide After;
    assert FourI(State(0x7b201df8, 0x8bf025c4, 0xb298cefd, 0xf4e8e96e),
                 State(0x06cc5e8a, 0x3bfa2c27, 0x7d632dd0, 0x5b0d97aa), 0, 0, 0, 0,
                 0x655b59c3, 0x8f0ccc92, 0xffeff47d, 0x85845dd1) by { hide Table, WordOf; }
    hide Mixed, I, FourI;
    ISteps(x, 52, State(0x06cc5e8a, 0x3bfa2c27, 0x7d632dd0, 0x5b0d97aa), 0, 0, 0, 0);
  }

  lemma Abc60(x: seq<Bits>)
    requires x == AbcBlock() && After(x, 56) == State(0x06cc5e8a, 0x3bfa2c27, 0x7d632dd0, 0x5b0d97aa)
    ensures After(x, 60) == State(0x7f81cc35, 0x7327d604, 0x4f9dbe3f, 0x094454ab)
  {
    hide After;
    assert FourI(State(0x06cc5e8a, 0x3bfa2c27, 0x7d632dd0, 0x5b0d97aa),
                 State(0x7f81cc35, 0x7327d604, 0x4f9dbe3f, 0x094454ab), 0, 0, 0, 0,
                 0x6fa87e4f, 0xfe2ce6e0, 0xa3014314, 0x4e0811a1) by { hide Table, WordOf; }
    hide Mixed, I, FourI;
    ISteps(x, 56, State(0x7f81cc35, 0x7327d604, 0x4f9dbe3f, 0x094454ab), 0, 0, 0, 0);
  }

  lemma Abc64(x: seq<Bits>)
    requires x == AbcBlock() && After(x, 60) == State(0x7f81cc35, 0x7327d604, 0x4f9dbe3f, 0x094454ab)
    ensures After(x, 64) == State(0x310ade8f, 0xc08226b3, 0xe484b9d8, 0x624d8cb2)
  {
    hide After;
    assert FourI(State(0x7f81cc35, 0x7327d604, 0x4f9dbe3f, 0x094454ab),
                 State(0x310ade8f, 0xc08226b3, 0xe484b9d8, 0x624d8cb2), 0, 0, 0, 0,
                 0xf7537e82, 0xbd3af235, 0x2ad7d2bb, 0xeb86d391) by { hide Table, WordOf; }
    hide Mixed, I, FourI;
    ISteps(x, 60, State(0x310ade8f, 0xc08226b3, 0xe484b9d8, 0x624d8cb2), 0, 0, 0, 0);
  }

  // A state in bytes, given the values of its words.
  lemma StateBytes(s: State, a: Word, b: Word, c: Word, d: Word)
    requires ValueOf(s.a) == a && ValueOf(s.b) == b && ValueOf(s.c) == c && ValueOf(s.d) == d
    ensures DigestOf(s) == FourOf(a) + FourOf(b) + FourOf(c) + FourOf(d)
  {
    hide LowFirst, ValueOf;
    FourBytes(a);
    FourBytes(b);
    FourBytes(c);
    FourBytes(d);
  }

  function FourOf(w: Word): seq<Byte> {
    [w % 256, w / 0x100 % 256, w / 0x1_0000 % 256, w / 0x100_0000 % 256]
  }

  // Section 3.3: the initial words, low-order bytes first.
  lemma InitialBytes()
    ensures DigestOf(INITIAL) == [
              0x01, 0x23, 0x45, 0x67, 0x89, 0xab, 0xcd, 0xef, 0xfe, 0xdc, 0xba, 0x98, 0x76, 0x54, 0x32, 0x10]
  {
    hide DigestOf;
    InitialValues();
    hide ValueOf;
    StateBytes(INITIAL, 0x67452301, 0xefcdab89, 0x98badcfe, 0x10325476);
  }

  lemma InitialValues()
    ensures ValueOf(INITIAL.a) == 0x67452301 && ValueOf(INITIAL.b) == 0xefcdab89
    ensures ValueOf(INITIAL.c) == 0x98badcfe && ValueOf(INITIAL.d) == 0x10325476
  {
  }

  // A message short enough for one block.
  lemma OneBlockDigest(m: seq<Byte>)
    requires |Padded(m)| == BLOCK_SIZE
    ensures Digest(Compress, m) == DigestOf(Compress(INITIAL, Padded(m)))
  {
    hide Compress, DigestOf, Padded;
    var p := Padded(m);
    var s := Compress(INITIAL, p);
    assert p[..BLOCK_SIZE] == p && p[BLOCK_SIZE..] == [];
    assert Absorbed(Compress, s, []) == s;
    assert Absorbed(Compress, INITIAL, p) == s;
  }

  lemma {:induction false} LowFirstSmall(n: Byte, bytes: nat)
    ensures bytes > 0 ==> LowFirst(n, bytes) == [n] + seq(bytes - 1, _ => 0)
  {
    if bytes > 1 {
      LowFirstSmall(0, bytes - 1);
    }
  }

  // A short message padded: its bytes, 0x80, zeros, and its length in bits.
  lemma PaddedShort(m: seq<Byte>)
    requires |m| < 32
    ensures |Padded(m)| == BLOCK_SIZE
    ensures forall i | 0 <= i < BLOCK_SIZE ::
              Padded(m)[i] == if i < |m| then m[i] else if i == |m| then 0x80 else if i == 56 then 8 * |m| else 0
  {
    hide LowFirst;
    LowFirstSmall(8 * |m|, 8);
  }

  // The words of a block that is zero but for its first four bytes and the
  // low byte of its length.
  lemma ShortWords(p: seq<Byte>)
    requires |p| == BLOCK_SIZE && forall i | 4 <= i < BLOCK_SIZE && i != 56 :: p[i] == 0
    ensures WordsOf(p)[0] == BitsOf(Joined(p[0], p[1], p[2], p[3])) && WordsOf(p)[14] == BitsOf(p[56])
    ensures forall k | 0 < k < 16 && k != 14 :: WordsOf(p)[k] == BitsOf(0)
  {
    hide BitsOf;
    forall k | 0 < k < 16 && k != 14 ensures Decoded(p)[k] == 0 {
      assert p[4 * k] == p[4 * k + 1] == p[4 * k + 2] == p[4 * k + 3] == 0;
    }
    assert Decoded(p)[14] == p[56];
  }

  lemma EmptyPadded(m: seq<Byte>)
    requires m == []
    ensures |Padded(m)| == BLOCK_SIZE && WordsOf(Padded(m)) == EmptyBlock()
  {
    hide Padded, WordsOf;
    PaddedShort(m);
    ShortWords(Padded(m));
    assert BitsOf(0x80) == 0x80 && BitsOf(0) == 0 && BitsOf(0) == 0;
    hide BitsOf;
    assert WordsOf(Padded(m)) == EmptyBlock();
  }

  lemma EmptyCompressed(x: seq<Bits>)
    requires x == EmptyBlock()
    ensures After(x, 64) == State(0x7246fad3, 0x14e45506, 0xff4ea3eb, 0x6e10a476)
  {
    NoSteps(INITIAL, x);
    assert After(x, 0) == INITIAL;
    hide After, EmptyBlock;
    Empty4(x);
    Empty8(x);
    Empty12(x);
    Empty16(x);
    Empty20(x);
    Empty24(x);
    Empty28(x);
    Empty32(x);
    Empty36(x);
    Empty40(x);
    Empty44(x);
    Empty48(x);
    Empty52(x);
    Empty56(x);
    Empty60(x);
    Empty64(x);
  }

  lemma EmptySum(s: State)
    requires s == Sum(INITIAL, State(0x7246fad3, 0x14e45506, 0xff4ea3eb, 0x6e10a476))
    ensures ValueOf(s.a) == 0xd98c1dd4 && ValueOf(s.b) == 0x04b2008f
    ensures ValueOf(s.c) == 0x980980e9 && ValueOf(s.d) == 0x7e42f8ec
  {
    assert s == State(0xd98c1dd4, 0x04b2008f, 0x980980e9, 0x7e42f8ec);
  }

  // MD5 ("")
  lemma DigestOfEmpty(m: seq<Byte>)
    requires m == []
    ensures Digest(Compress, m) == [
              0xd4, 0x1d, 0x8c, 0xd9, 0x8f, 0x00, 0xb2, 0x04, 0xe9, 0x80, 0x09, 0x98, 0xec, 0xf8, 0x42, 0x7e]
  {
    hide Padded, WordsOf, Steps, Sum, EmptyBlock, DigestOf, ValueOf, Digest;
    EmptyPadded(m);
    OneBlockDigest(m);
    EmptyCompressed(EmptyBlock());
    var s := Compress(INITIAL, Padded(m));
    EmptySum(s);
    StateBytes(s, 0xd98c1dd4, 0x04b2008f, 0x980980e9, 0x7e42f8ec);
  }

  lemma AbcPadded(m: seq<Byte>)
    requires m == [0x61, 0x62, 0x63]
    ensures |Padded(m)| == BLOCK_SIZE && WordsOf(Padded(m)) == AbcBlock()
  {
    hide Padded, WordsOf;
    PaddedShort(m);
    ShortWords(Padded(m));
    assert BitsOf(0x80636261) == 0x80636261 && BitsOf(24) == 24 && BitsOf(0) == 0;
    hide BitsOf;
    assert WordsOf(Padded(m)) == AbcBlock();
  }

  lemma AbcCompressed(x: seq<Bits>)
    requires x == AbcBlock()
    ensures After(x, 64) == State(0x310ade8f, 0xc08226b3, 0xe484b9d8, 0x624d8cb2)
  {
    NoSteps(INITIAL, x);
    assert After(x, 0) == INITIAL;
    hide After, AbcBlock;
    Abc4(x);
    Abc8(x);
    Abc12(x);
    Abc16(x);
    Abc20(x);
    Abc24(x);
    Abc28(x);
    Abc32(x);
    Abc36(x);
    Abc40(x);
    Abc44(x);
    Abc48(x);
    Abc52(x);
    Abc56(x);
    Abc60(x);
    Abc64(x);
  }

  lemma AbcSum(s: State)
    requires s == Sum(INITIAL, State(0x310ade8f, 0xc08226b3, 0xe484b9d8, 0x624d8cb2))
    ensures ValueOf(s.a) == 0x98500190 && ValueOf(s.b) == 0xb04fd23c
    ensures ValueOf(s.c) == 0x7d3f96d6 && ValueOf(s.d) == 0x727fe128
  {
    assert s == State(0x98500190, 0xb04fd23c, 0x7d3f96d6, 0x727fe128);
  }

  // MD5 ("abc")
  lemma DigestOfAbc(m: seq<Byte>)
    requires m == [0x61, 0x62, 0x63]
    ensures Digest(Compress, m) == [
              0x90, 0x01, 0x50, 0x98, 0x3c, 0xd2, 0x4f, 0xb0, 0xd6, 0x96, 0x3f, 0x7d, 0x28, 0xe1, 0x7f, 0x72]
  {
    hide Padded, WordsOf, Steps, Sum, AbcBlock, DigestOf, ValueOf, Digest;
    AbcPadded(m);
    OneBlockDigest(m);
    AbcCompressed(AbcBlock());
    var s := Compress(INITIAL, Padded(m));
    AbcSum(s);
    StateBytes(s, 0x98500190, 0xb04fd23c, 0x7d3f96d6, 0x727fe128);
  }
}
