// One block of MD5: the unrolled transformation against the step-by-step
// definition of section 3.4 of RFC 1321.
module Md5Block {
  import opened Md5

  const S11: Bits := 7
  const S12: Bits := 12
  const S13: Bits := 17
  const S14: Bits := 22
  const S21: Bits := 5
  const S22: Bits := 9
  const S23: Bits := 14
  const S24: Bits := 20
  const S31: Bits := 4
  const S32: Bits := 11
  const S33: Bits := 16
  const S34: Bits := 23
  const S41: Bits := 6
  const S42: Bits := 10
  const S43: Bits := 15
  const S44: Bits := 21

  function RotateLeft(x: Bits, n: Bits): Bits
    requires 0 < n < 32
  {
    (x << n) | (x >> (32 - n))
  }

  function F(x: Bits, y: Bits, z: Bits): Bits { (x & y) | (!x & z) }
  function G(x: Bits, y: Bits, z: Bits): Bits { (x & z) | (y & !z) }
  function H(x: Bits, y: Bits, z: Bits): Bits { x ^ y ^ z }
  function I(x: Bits, y: Bits, z: Bits): Bits { y ^ (x | !z) }

  // a is added to and rotated, and b added.
  function Mixed(a: Bits, b: Bits, f: Bits, x: Bits, s: Bits, ac: Bits): Bits
    requires 0 < s < 32
  {
    RotateLeft(a + (f + x + ac), s) + b
  }

  // ------------------------------------------------------------- the standard

  // The table of the standard: the integer part of 2^32 times |sin(i + 1)|.
  function Table(i: nat): Bits {
    if i < 16 then Table1(i) else if i < 32 then Table2(i) else if i < 48 then Table3(i) else Table4(i)
  }

  function Table1(i: nat): Bits {
    match i
    case 0 => 0xd76aa478
    case 1 => 0xe8c7b756
    case 2 => 0x242070db
    case 3 => 0xc1bdceee
    case 4 => 0xf57c0faf
    case 5 => 0x4787c62a
    case 6 => 0xa8304613
    case 7 => 0xfd469501
    case 8 => 0x698098d8
    case 9 => 0x8b44f7af
    case 10 => 0xffff5bb1
    case 11 => 0x895cd7be
    case 12 => 0x6b901122
    case 13 => 0xfd987193
    case 14 => 0xa679438e
    case _ => 0x49b40821
  }

  function Table2(i: nat): Bits {
    match i
    case 16 => 0xf61e2562
    case 17 => 0xc040b340
    case 18 => 0x265e5a51
    case 19 => 0xe9b6c7aa
    case 20 => 0xd62f105d
    case 21 => 0x02441453
    case 22 => 0xd8a1e681
    case 23 => 0xe7d3fbc8
    case 24 => 0x21e1cde6
    case 25 => 0xc33707d6
    case 26 => 0xf4d50d87
    case 27 => 0x455a14ed
    case 28 => 0xa9e3e905
    case 29 => 0xfcefa3f8
    case 30 => 0x676f02d9
    case _ => 0x8d2a4c8a
  }

  function Table3(i: nat): Bits {
    match i
    case 32 => 0xfffa3942
    case 33 => 0x8771f681
    case 34 => 0x6d9d6122
    case 35 => 0xfde5380c
    case 36 => 0xa4beea44
    case 37 => 0x4bdecfa9
    case 38 => 0xf6bb4b60
    case 39 => 0xbebfbc70
    case 40 => 0x289b7ec6
    case 41 => 0xeaa127fa
    case 42 => 0xd4ef3085
    case 43 => 0x04881d05
    case 44 => 0xd9d4d039
    case 45 => 0xe6db99e5
    case 46 => 0x1fa27cf8
    case _ => 0xc4ac5665
  }

  function Table4(i: nat): Bits {
    match i
    case 48 => 0xf4292244
    case 49 => 0x432aff97
    case 50 => 0xab9423a7
    case 51 => 0xfc93a039
    case 52 => 0x655b59c3
    case 53 => 0x8f0ccc92
    case 54 => 0xffeff47d
    case 55 => 0x85845dd1
    case 56 => 0x6fa87e4f
    case 57 => 0xfe2ce6e0
    case 58 => 0xa3014314
    case 59 => 0x4e0811a1
    case 60 => 0xf7537e82
    case 61 => 0xbd3af235
    case 62 => 0x2ad7d2bb
    case _ => 0xeb86d391
  }

  // The word of the block each step uses, and how far it rotates.
  function WordOf(i: nat): (k: nat)
    ensures k < 16
  {
    if i < 16 then i
    else if i < 32 then (1 + 5 * i) % 16
    else if i < 48 then (5 + 3 * i) % 16
    else 7 * i % 16
  }

  function ShiftOf(i: nat): (s: Bits)
    ensures 0 < s < 32
  {
    if i < 16 then Cycle(i, 7, 12, 17, 22)
    else if i < 32 then Cycle(i, 5, 9, 14, 20)
    else if i < 48 then Cycle(i, 4, 11, 16, 23)
    else Cycle(i, 6, 10, 15, 21)
  }

  function Cycle(i: nat, s0: Bits, s1: Bits, s2: Bits, s3: Bits): (s: Bits)
    ensures s == s0 || s == s1 || s == s2 || s == s3
  {
    if i % 4 == 0 then s0 else if i % 4 == 1 then s1 else if i % 4 == 2 then s2 else s3
  }

  function FunctionOf(i: nat, x: Bits, y: Bits, z: Bits): Bits {
    if i < 16 then F(x, y, z) else if i < 32 then G(x, y, z) else if i < 48 then H(x, y, z) else I(x, y, z)
  }

  // The word a step makes.
  function NewWord(i: nat, a: Bits, b: Bits, c: Bits, d: Bits, x: seq<Bits>): Bits
    requires |x| == 16
  {
    Mixed(a, b, FunctionOf(i, b, c, d), x[WordOf(i)], ShiftOf(i), Table(i))
  }

  // One step: the new word takes the place of b, and the others move on.
  function Step(s: State, x: seq<Bits>, i: nat): State
    requires |x| == 16
  {
    State(s.d, NewWord(i, s.a, s.b, s.c, s.d, x), s.b, s.c)
  }

  function Steps(s: State, x: seq<Bits>, n: nat): State
    requires |x| == 16
  {
    if n == 0 then s else Step(Steps(s, x, n - 1), x, n - 1)
  }

  function Sum(s: State, t: State): State {
    State(s.a + t.a, s.b + t.b, s.c + t.c, s.d + t.d)
  }

  // The sixteen words of a block.
  function WordsOf(block: seq<Byte>): (x: seq<Bits>)
    requires |block| == BLOCK_SIZE
    ensures |x| == 16
  {
    seq(16, k requires 0 <= k < 16 => BitsOf(Decoded(block)[k]))
  }

  // A state transformed by a block; only blocks of 64 bytes matter.
  function Compress(s: State, block: seq<Byte>): State {
    if |block| != BLOCK_SIZE then s else Sum(s, Steps(s, WordsOf(block), 64))
  }

  // Four steps from the state t on, each with its new word.
  lemma FourSteps(s: State, x: seq<Bits>, n: nat, t: State, a: Bits, b: Bits, c: Bits, d: Bits)
    requires |x| == 16 && t == Steps(s, x, n)
    requires a == NewWord(n, t.a, t.b, t.c, t.d, x) && d == NewWord(n + 1, t.d, a, t.b, t.c, x)
    requires c == NewWord(n + 2, t.c, d, a, t.b, x) && b == NewWord(n + 3, t.b, c, d, a, x)
    ensures State(a, b, c, d) == Steps(s, x, n + 4)
  {
    hide NewWord;
    assert Steps(s, x, n + 1) == Step(Steps(s, x, n), x, n);
    assert Steps(s, x, n + 2) == Step(Steps(s, x, n + 1), x, n + 1);
    assert Steps(s, x, n + 3) == Step(Steps(s, x, n + 2), x, n + 2);
  }

  // ----------------------------------------------------------- the four rounds

  method FF(ghost i: nat, a: Bits, b: Bits, c: Bits, d: Bits, x: seq<Bits>, k: nat, s: Bits, ac: Bits)
    returns (r: Bits)
    requires |x| == 16 && 0 <= i < 16 && k == i && s == Cycle(i, 7, 12, 17, 22) && ac == Table1(i)
    ensures r == NewWord(i, a, b, c, d, x)
  {
    hide Mixed, F, Cycle, Table1, Table2, Table3, Table4;
    r := Mixed(a, b, F(b, c, d), x[k], s, ac);
  }

  method GG(ghost i: nat, a: Bits, b: Bits, c: Bits, d: Bits, x: seq<Bits>, k: nat, s: Bits, ac: Bits)
    returns (r: Bits)
    requires |x| == 16 && 16 <= i < 32 && k == (1 + 5 * i) % 16 && s == Cycle(i, 5, 9, 14, 20) && ac == Table2(i)
    ensures r == NewWord(i, a, b, c, d, x)
  {
    hide Mixed, G, Cycle, Table1, Table2, Table3, Table4;
    r := Mixed(a, b, G(b, c, d), x[k], s, ac);
  }

  method HH(ghost i: nat, a: Bits, b: Bits, c: Bits, d: Bits, x: seq<Bits>, k: nat, s: Bits, ac: Bits)
    returns (r: Bits)
    requires |x| == 16 && 32 <= i < 48 && k == (5 + 3 * i) % 16 && s == Cycle(i, 4, 11, 16, 23) && ac == Table3(i)
    ensures r == NewWord(i, a, b, c, d, x)
  {
    hide Mixed, H, Cycle, Table1, Table2, Table3, Table4;
    r := Mixed(a, b, H(b, c, d), x[k], s, ac);
  }

  method II(ghost i: nat, a: Bits, b: Bits, c: Bits, d: Bits, x: seq<Bits>, k: nat, s: Bits, ac: Bits)
    returns (r: Bits)
    requires |x| == 16 && 48 <= i < 64 && k == 7 * i % 16 && s == Cycle(i, 6, 10, 15, 21) && ac == Table4(i)
    ensures r == NewWord(i, a, b, c, d, x)
  {
    hide Mixed, I, Cycle, Table1, Table2, Table3, Table4;
    r := Mixed(a, b, I(b, c, d), x[k], s, ac);
  }

  method Round1(ghost s: State, x: seq<Bits>, from: State) returns (to: State)
    requires |x| == 16 && from == Steps(s, x, 0)
    ensures to == Steps(s, x, 16)
  {
    hide Steps, NewWord;
    var a, b, c, d := from.a, from.b, from.c, from.d;
    ghost var t := from;
    a := FF(0, a, b, c, d, x, 0, S11, 0xd76aa478);
    d := FF(1, d, a, b, c, x, 1, S12, 0xe8c7b756);
    c := FF(2, c, d, a, b, x, 2, S13, 0x242070db);
    b := FF(3, b, c, d, a, x, 3, S14, 0xc1bdceee);
    FourSteps(s, x, 0, t, a, b, c, d);
    t := State(a, b, c, d);
    a := FF(4, a, b, c, d, x, 4, S11, 0xf57c0faf);
    d := FF(5, d, a, b, c, x, 5, S12, 0x4787c62a);
    c := FF(6, c, d, a, b, x, 6, S13, 0xa8304613);
    b := FF(7, b, c, d, a, x, 7, S14, 0xfd469501);
    FourSteps(s, x, 4, t, a, b, c, d);
    t := State(a, b, c, d);
    a := FF(8, a, b, c, d, x, 8, S11, 0x698098d8);
    d := FF(9, d, a, b, c, x, 9, S12, 0x8b44f7af);
    c := FF(10, c, d, a, b, x, 10, S13, 0xffff5bb1);
    b := FF(11, b, c, d, a, x, 11, S14, 0x895cd7be);
    FourSteps(s, x, 8, t, a, b, c, d);
    t := State(a, b, c, d);
    a := FF(12, a, b, c, d, x, 12, S11, 0x6b901122);
    d := FF(13, d, a, b, c, x, 13, S12, 0xfd987193);
    c := FF(14, c, d, a, b, x, 14, S13, 0xa679438e);
    b := FF(15, b, c, d, a, x, 15, S14, 0x49b40821);
    FourSteps(s, x, 12, t, a, b, c, d);
    t := State(a, b, c, d);
    to := State(a, b, c, d);
  }

  method Round2(ghost s: State, x: seq<Bits>, from: State) returns (to: State)
    requires |x| == 16 && from == Steps(s, x, 16)
    ensures to == Steps(s, x, 32)
  {
    hide Steps, NewWord;
    var a, b, c, d := from.a, from.b, from.c, from.d;
    ghost var t := from;
    a := GG(16, a, b, c, d, x, 1, S21, 0xf61e2562);
    d := GG(17, d, a, b, c, x, 6, S22, 0xc040b340);
    c := GG(18, c, d, a, b, x, 11, S23, 0x265e5a51);
    b := GG(19, b, c, d, a, x, 0, S24, 0xe9b6c7aa);
    FourSteps(s, x, 16, t, a, b, c, d);
    t := State(a, b, c, d);
    a := GG(20, a, b, c, d, x, 5, S21, 0xd62f105d);
    d := GG(21, d, a, b, c, x, 10, S22, 0x02441453);
    c := GG(22, c, d, a, b, x, 15, S23, 0xd8a1e681);
    b := GG(23, b, c, d, a, x, 4, S24, 0xe7d3fbc8);
    FourSteps(s, x, 20, t, a, b, c, d);
    t := State(a, b, c, d);
    a := GG(24, a, b, c, d, x, 9, S21, 0x21e1cde6);
    d := GG(25, d, a, b, c, x, 14, S22, 0xc33707d6);
    c := GG(26, c, d, a, b, x, 3, S23, 0xf4d50d87);
    b := GG(27, b, c, d, a, x, 8, S24, 0x455a14ed);
    FourSteps(s, x, 24, t, a, b, c, d);
    t := State(a, b, c, d);
    a := GG(28, a, b, c, d, x, 13, S21, 0xa9e3e905);
    d := GG(29, d, a, b, c, x, 2, S22, 0xfcefa3f8);
    c := GG(30, c, d, a, b, x, 7, S23, 0x676f02d9);
    b := GG(31, b, c, d, a, x, 12, S24, 0x8d2a4c8a);
    FourSteps(s, x, 28, t, a, b, c, d);
    t := State(a, b, c, d);
    to := State(a, b, c, d);
  }

  method Round3(ghost s: State, x: seq<Bits>, from: State) returns (to: State)
    requires |x| == 16 && from == Steps(s, x, 32)
    ensures to == Steps(s, x, 48)
  {
    hide Steps, NewWord;
    var a, b, c, d := from.a, from.b, from.c, from.d;
    ghost var t := from;
    a := HH(32, a, b, c, d, x, 5, S31, 0xfffa3942);
    d := HH(33, d, a, b, c, x, 8, S32, 0x8771f681);
    c := HH(34, c, d, a, b, x, 11, S33, 0x6d9d6122);
    b := HH(35, b, c, d, a, x, 14, S34, 0xfde5380c);
    FourSteps(s, x, 32, t, a, b, c, d);
    t := State(a, b, c, d);
    a := HH(36, a, b, c, d, x, 1, S31, 0xa4beea44);
    d := HH(37, d, a, b, c, x, 4, S32, 0x4bdecfa9);
    c := HH(38, c, d, a, b, x, 7, S33, 0xf6bb4b60);
    b := HH(39, b, c, d, a, x, 10, S34, 0xbebfbc70);
    FourSteps(s, x, 36, t, a, b, c, d);
    t := State(a, b, c, d);
    a := HH(40, a, b, c, d, x, 13, S31, 0x289b7ec6);
    d := HH(41, d, a, b, c, x, 0, S32, 0xeaa127fa);
    c := HH(42, c, d, a, b, x, 3, S33, 0xd4ef3085);
    b := HH(43, b, c, d, a, x, 6, S34, 0x04881d05);
    FourSteps(s, x, 40, t, a, b, c, d);
    t := State(a, b, c, d);
    a := HH(44, a, b, c, d, x, 9, S31, 0xd9d4d039);
    d := HH(45, d, a, b, c, x, 12, S32, 0xe6db99e5);
    c := HH(46, c, d, a, b, x, 15, S33, 0x1fa27cf8);
    b := HH(47, b, c, d, a, x, 2, S34, 0xc4ac5665);
    FourSteps(s, x, 44, t, a, b, c, d);
    t := State(a, b, c, d);
    to := State(a, b, c, d);
  }

  method Round4(ghost s: State, x: seq<Bits>, from: State) returns (to: State)
    requires |x| == 16 && from == Steps(s, x, 48)
    ensures to == Steps(s, x, 64)
  {
    hide Steps, NewWord;
    var a, b, c, d := from.a, from.b, from.c, from.d;
    ghost var t := from;
    a := II(48, a, b, c, d, x, 0, S41, 0xf4292244);
    d := II(49, d, a, b, c, x, 7, S42, 0x432aff97);
    c := II(50, c, d, a, b, x, 14, S43, 0xab9423a7);
    b := II(51, b, c, d, a, x, 5, S44, 0xfc93a039);
    FourSteps(s, x, 48, t, a, b, c, d);
    t := State(a, b, c, d);
    a := II(52, a, b, c, d, x, 12, S41, 0x655b59c3);
    d := II(53, d, a, b, c, x, 3, S42, 0x8f0ccc92);
    c := II(54, c, d, a, b, x, 10, S43, 0xffeff47d);
    b := II(55, b, c, d, a, x, 1, S44, 0x85845dd1);
    FourSteps(s, x, 52, t, a, b, c, d);
    t := State(a, b, c, d);
    a := II(56, a, b, c, d, x, 8, S41, 0x6fa87e4f);
    d := II(57, d, a, b, c, x, 15, S42, 0xfe2ce6e0);
    c := II(58, c, d, a, b, x, 6, S43, 0xa3014314);
    b := II(59, b, c, d, a, x, 13, S44, 0x4e0811a1);
    FourSteps(s, x, 56, t, a, b, c, d);
    t := State(a, b, c, d);
    a := II(60, a, b, c, d, x, 4, S41, 0xf7537e82);
    d := II(61, d, a, b, c, x, 11, S42, 0xbd3af235);
    c := II(62, c, d, a, b, x, 2, S43, 0x2ad7d2bb);
    b := II(63, b, c, d, a, x, 9, S44, 0xeb86d391);
    FourSteps(s, x, 60, t, a, b, c, d);
    t := State(a, b, c, d);
    to := State(a, b, c, d);
  }

  method MD5Transform(state: State, block: seq<Byte>) returns (result: State)
    requires |block| == BLOCK_SIZE
    ensures result == Compress(state, block)
  {
    hide Steps;
    var words := Decode(block);
    var x := seq(16, k requires 0 <= k < 16 => BitsOf(words[k]));
    assert x == WordsOf(block);
    assert state == Steps(state, x, 0) by { NoSteps(state, x); }
    var t := Round1(state, x, state);
    t := Round2(state, x, t);
    t := Round3(state, x, t);
    t := Round4(state, x, t);
    result := Sum(state, t);
  }

  lemma NoSteps(s: State, x: seq<Bits>)
    requires |x| == 16
    ensures Steps(s, x, 0) == s
  {
  }
}
