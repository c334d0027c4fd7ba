/** Characters of an XML text: the UTF-8 codec, the XML character test and the
    reference decoder of libxmlet/src/parser.c.

    A C string is a `string` whose characters are bytes.  Positions play the part
    of the C pointers, and `At` yields the terminating NUL past the end.  Plain
    `char` is signed, so a byte from 0x80 on compares below zero. */
module XmlChars {

  /** A code point, or the -1 of the C decoders, with the bytes it took. */
  datatype Decoded = Bad | Code(c: nat, len: nat)

  function At(s: string, i: nat): char {
    if i < |s| then s[i] else '\0'
  }

  /** s continues with w at position i. */
  predicate Matches(s: string, i: nat, w: string) {
    i + |w| <= |s| && s[i..i + |w|] == w
  }

  lemma MatchesAppend(s: string, i: nat, a: string, b: string)
    ensures Matches(s, i, a + b) <==> Matches(s, i, a) && Matches(s, i + |a|, b)
  {
    if i + |a| + |b| <= |s| {
      assert s[i..i + |a| + |b|] == s[i..i + |a|] + s[i + |a|..i + |a| + |b|];
      if s[i..i + |a| + |b|] == a + b {
        assert s[i..i + |a|] == (a + b)[..|a|];
        assert s[i + |a|..i + |a| + |b|] == (a + b)[|a|..];
      }
    }
  }

  // ---- UTF-8 (parser.c 389-518) ----

  predicate IsContinuation(c: char) {
    0x80 <= c as int < 0xC0
  }

  /** The six data bits of a continuation byte. */
  function Low6(c: char): (v: nat)
    requires IsContinuation(c)
    ensures v < 64
  {
    c as int - 0x80
  }

  function Tail6(v: nat): (c: char)
    ensures IsContinuation(c) && Low6(c) == v % 64
  {
    (0x80 + v % 64) as char
  }

  /** c >> 6n, six bits at a time. */
  function Shift6(c: nat, n: nat): nat {
    if n == 0 then c else Shift6(c / 0x40, n - 1)
  }

  /** The n continuation bytes that end the encoding of c. */
  function TailBytes(c: nat, n: nat): (w: string)
    ensures |w| == n
  {
    if n == 0 then "" else TailBytes(c / 0x40, n - 1) + [Tail6(c)]
  }

  /** XMLParserIntToUTF8; the empty string stands for the result 0. */
  function IntToUtf8(c: int): string {
    if c < 0 then ""
    else if c <= 0x7F then [c as char]
    else if c <= 0x7FF then [(0xC0 + c / 0x40) as char] + TailBytes(c, 1)
    else if c <= 0xFFFF then [(0xE0 + c / 0x1000) as char] + TailBytes(c, 2)
    else if c <= 0x1FFFFF then [(0xF0 + c / 0x40000) as char] + TailBytes(c, 3)
    else if c <= 0x3FFFFFF then [(0xF8 + c / 0x1000000) as char] + TailBytes(c, 4)
    else if c <= 0x7FFFFFFF then [(0xFC + c / 0x40000000) as char] + TailBytes(c, 5)
    else ""
  }

  /** The bytes i+1 .. i+n are continuation bytes. */
  predicate Tails(s: string, i: nat, n: nat)
    ensures Tails(s, i, n) && i < |s| ==> i + n < |s|
  {
    n == 0 || (Tails(s, i, n - 1) && IsContinuation(At(s, i + n)))
  }

  /** Lead bits followed by the data bits of n continuation bytes. */
  function Gather(s: string, i: nat, n: nat, lead: nat): nat
    requires Tails(s, i, n)
  {
    if n == 0 then lead else Gather(s, i, n - 1, lead) * 0x40 + Low6(At(s, i + n))
  }

  /** Parser_UTF8ToInt. */
  function Utf8ToInt(s: string, i: nat): (d: Decoded)
    ensures d.Code? ==> 1 <= d.len <= 6
    ensures d.Code? && i < |s| ==> i + d.len <= |s|
  {
    var c := At(s, i) as int;
    if c <= 0x7F then Code(c, 1)
    else if 0xC0 <= c < 0xE0 && Tails(s, i, 1) then Code(Gather(s, i, 1, c - 0xC0), 2)
    else if 0xE0 <= c < 0xF0 && Tails(s, i, 2) then Code(Gather(s, i, 2, c - 0xE0), 3)
    else if 0xF0 <= c < 0xF8 && Tails(s, i, 3) then Code(Gather(s, i, 3, c - 0xF0), 4)
    else if 0xF8 <= c < 0xFC && Tails(s, i, 4) then Code(Gather(s, i, 4, c - 0xF8), 5)
    else if 0xFC <= c < 0xFE && Tails(s, i, 5) then Code(Gather(s, i, 5, c - 0xFC), 6)
    else Bad
  }

  /** The least code point that needs `len` bytes (RFC 2279, section 2). */
  function Shortest(len: nat): nat {
    if len <= 1 then 0
    else if len == 2 then 0x80
    else if len == 3 then 0x800
    else if len == 4 then 0x10000
    else if len == 5 then 0x200000
    else 0x4000000
  }

  lemma {:induction false} GatherTailBytes(s: string, i: nat, c: nat, n: nat)
    requires Matches(s, i + 1, TailBytes(c, n))
    ensures Tails(s, i, n) && Gather(s, i, n, Shift6(c, n)) == c
  {
    if n > 0 {
      MatchesAppend(s, i + 1, TailBytes(c / 0x40, n - 1), [Tail6(c)]);
      GatherTailBytes(s, i, c / 0x40, n - 1);
      assert s[i + n..i + n + 1][0] == At(s, i + n);
    }
  }

  lemma {:induction false} TailBytesGather(s: string, i: nat, n: nat, lead: nat)
    requires i < |s| && Tails(s, i, n)
    ensures TailBytes(Gather(s, i, n, lead), n) == s[i + 1..i + 1 + n]
    ensures Shift6(Gather(s, i, n, lead), n) == lead
  {
    if n > 0 {
      TailBytesGather(s, i, n - 1, lead);
      assert s[i + 1..i + 1 + n] == s[i + 1..i + n] + [At(s, i + n)];
    }
  }

  /** Shifting in steps is shifting at once, for the sizes of the codec. */
  lemma Shifts(c: nat)
    ensures Shift6(c, 1) == c / 0x40 && Shift6(c, 2) == c / 0x1000
    ensures Shift6(c, 3) == c / 0x40000 && Shift6(c, 4) == c / 0x1000000
    ensures Shift6(c, 5) == c / 0x40000000
  {
    assert Shift6(c, 1) == Shift6(c / 0x40, 0);
    assert Shift6(c, 2) == Shift6(c / 0x40 / 0x40, 0);
    assert Shift6(c, 3) == Shift6(c / 0x40 / 0x40 / 0x40, 0);
    assert Shift6(c, 4) == Shift6(c / 0x40 / 0x40 / 0x40 / 0x40, 0);
    assert Shift6(c, 5) == Shift6(c / 0x40 / 0x40 / 0x40 / 0x40 / 0x40, 0);
  }

  /** Decoding undoes encoding, wherever the encoded bytes stand. */
  lemma DecodeEncoded(s: string, i: nat, c: int)
    requires 0 <= c <= 0x7FFFFFFF
    requires Matches(s, i, IntToUtf8(c))
    ensures Utf8ToInt(s, i) == Code(c, |IntToUtf8(c)|)
  {
    var w := IntToUtf8(c);
    var n := |w| - 1;
    EncodedLead(c);
    assert w == [w[0]] + w[1..];
    MatchesAppend(s, i, [w[0]], w[1..]);
    assert At(s, i) == s[i..i + 1][0] == w[0];
    if n > 0 {
      hide IntToUtf8;
      GatherTailBytes(s, i, c, n);
      LeadDecoded(s, i, n, Shift6(c, n));
    }
  }

  /** The bits that mark a lead byte with n bytes to follow, and the room they leave. */
  function LeadMark(n: nat): nat {
    if n == 1 then 0xC0 else if n == 2 then 0xE0 else if n == 3 then 0xF0 else if n == 4 then 0xF8 else 0xFC
  }

  function LeadRange(n: nat): nat {
    if n == 1 then 0x20 else if n == 2 then 0x10 else if n == 3 then 8 else if n == 4 then 4 else 2
  }

  lemma EncodedLead(c: nat)
    requires c <= 0x7FFFFFFF
    ensures var w := IntToUtf8(c);
            && 1 <= |w| <= 6
            && (|w| == 1 ==> c <= 0x7F && w[0] as int == c)
            && (|w| > 1 ==> var n := |w| - 1;
                  w[1..] == TailBytes(c, n) && Shift6(c, n) < LeadRange(n) && w[0] as int == LeadMark(n) + Shift6(c, n))
  {
    Shifts(c);
    hide TailBytes, Shift6;
  }

  lemma LeadDecoded(s: string, i: nat, n: nat, lead: nat)
    requires 1 <= n <= 5 && lead < LeadRange(n) && At(s, i) as int == LeadMark(n) + lead && Tails(s, i, n)
    ensures Utf8ToInt(s, i) == Code(Gather(s, i, n, lead), n + 1)
  {
    hide Gather, Tails;
  }

  /** Encoding undoes decoding exactly on shortest forms. */
  lemma EncodeDecoded(s: string, i: nat)
    requires i < |s| && Utf8ToInt(s, i).Code?
    ensures var d := Utf8ToInt(s, i);
            d.c <= 0x7FFFFFFF &&
            (s[i..i + d.len] == IntToUtf8(d.c) <==> Shortest(d.len) <= d.c)
  {
    hide Utf8ToInt, IntToUtf8, Shortest, LeadMark, LeadRange, Gather, Tails, Shift6, TailBytes;
    var d := Utf8ToInt(s, i);
    var n := d.len - 1;
    DecodedLead(s, i);
    assert s[i..i + d.len] == [s[i]] + s[i + 1..i + 1 + n];
    if n == 0 {
      OneByte(d.c);
    } else {
      var lead := s[i] as int - LeadMark(n);
      TailBytesGather(s, i, n, lead);
      WithinRange(d.c, n);
      EncodedLead(d.c);
      EncodedLength(d.c, d.len);
      var w := IntToUtf8(d.c);
      assert w == [w[0]] + w[1..];
    }
  }

  lemma OneByte(c: nat)
    requires c <= 0x7F
    ensures IntToUtf8(c) == [c as char] && Shortest(1) == 0
  {
  }

  lemma DecodedLead(s: string, i: nat)
    requires i < |s| && Utf8ToInt(s, i).Code?
    ensures var d := Utf8ToInt(s, i);
            var n := d.len - 1;
            if n == 0 then d.c == s[i] as int <= 0x7F
            else
              && LeadMark(n) <= s[i] as int < LeadMark(n) + LeadRange(n) && Tails(s, i, n)
              && d.c == Gather(s, i, n, s[i] as int - LeadMark(n))
  {
    hide Gather, Tails;
  }

  lemma WithinRange(c: nat, n: nat)
    requires 1 <= n <= 5 && Shift6(c, n) < LeadRange(n)
    ensures c <= 0x7FFFFFFF && |IntToUtf8(c)| <= n + 1
  {
    Shifts(c);
    hide Shift6, TailBytes;
  }

  /** A code point needs fewer bytes exactly when it lies below the least that needs so many. */
  lemma EncodedLength(c: nat, len: nat)
    requires c <= 0x7FFFFFFF && 2 <= len <= 6
    ensures |IntToUtf8(c)| < len <==> c < Shortest(len)
  {
    hide TailBytes;
  }

  /** The forms of RFC 3629, section 3: each code point in as many bytes as its size asks for. */
  lemma Utf8Forms(c: nat)
    ensures c < 0x80 ==> IntToUtf8(c) == [c as char]
    ensures 0x80 <= c < 0x800 ==> IntToUtf8(c) == [(192 + c / 64) as char, (128 + c % 64) as char]
    ensures 0x800 <= c < 0x1_0000 ==>
              IntToUtf8(c) == [(224 + c / 4096) as char, (128 + c / 64 % 64) as char, (128 + c % 64) as char]
    ensures 0x1_0000 <= c < 0x20_0000 ==>
              IntToUtf8(c) == [(240 + c / 262144) as char, (128 + c / 4096 % 64) as char,
                               (128 + c / 64 % 64) as char, (128 + c % 64) as char]
  {
    var d := c / 64;
    assert TailBytes(c, 1) == TailBytes(d, 0) + [Tail6(c)] == [Tail6(c)];
    assert TailBytes(c, 2) == TailBytes(d, 1) + [Tail6(c)] && TailBytes(d, 1) == TailBytes(d / 64, 0) + [Tail6(d)];
    assert TailBytes(c, 3) == TailBytes(d, 2) + [Tail6(c)] && TailBytes(d, 2) == TailBytes(d / 64, 1) + [Tail6(d)];
    assert TailBytes(d / 64, 1) == TailBytes(d / 64 / 64, 0) + [Tail6(d / 64)];
    assert d / 64 == c / 4096;
  }

  // ---- XML characters and names (parser.c 62-182, 325-355) ----

  /** XMLParserIsXmlChar: XML 1.0 (Second Edition), section 2.2. */
  predicate IsXmlChar(c: int) {
    c == 0x9 || c == 0xA || c == 0xD || 0x20 <= c <= 0xD7FF || 0xE000 <= c <= 0xFFFD || 0x10000 <= c <= 0x10FFFF
  }

  /** The table Letter. */
  predicate IsLetter(c: int) {
    if c < 0x80 then c == 0x3A || 0x41 <= c <= 0x5A || c == 0x5F || 0x61 <= c <= 0x7A
    else IsHighLetter(c)
  }

  /** The table NameChar. */
  predicate IsDigitOrMark(c: int) {
    if c < 0x80 then c == 0x2D || c == 0x2E || 0x30 <= c <= 0x39
    else IsHighMark(c)
  }

  /** XMLParserIsNameChar; `inside` is false for the first character of a name. */
  predicate IsNameChar(d: Decoded, inside: bool) {
    d.Code? && (IsLetter(d.c) || (inside && IsDigitOrMark(d.c)))
  }

  predicate IsHighLetter(c: int) {
    || 0xC0 <= c <= 0xD6 || 0xD8 <= c <= 0xF6 || 0xF8 <= c <= 0xFF || 0x100 <= c <= 0x131 || 0x134 <= c <= 0x13E
    || 0x141 <= c <= 0x148 || 0x14A <= c <= 0x17E || 0x180 <= c <= 0x1C3 || 0x1CD <= c <= 0x1F0
    || 0x1F4 <= c <= 0x1F5 || 0x1FA <= c <= 0x217 || 0x250 <= c <= 0x2A8 || 0x2BB <= c <= 0x2C1 || c == 0x386
    || 0x388 <= c <= 0x38A || c == 0x38C || 0x38E <= c <= 0x3A1 || 0x3A3 <= c <= 0x3CE || 0x3D0 <= c <= 0x3D6
    || c == 0x3DA || c == 0x3DC || c == 0x3DE || c == 0x3E0 || 0x3E2 <= c <= 0x3F3 || 0x401 <= c <= 0x40C
    || 0x40E <= c <= 0x44F || 0x451 <= c <= 0x45C || 0x45E <= c <= 0x481 || 0x490 <= c <= 0x4C4
    || 0x4C7 <= c <= 0x4C8 || 0x4CB <= c <= 0x4CC || 0x4D0 <= c <= 0x4EB || 0x4EE <= c <= 0x4F5
    || 0x4F8 <= c <= 0x4F9 || 0x531 <= c <= 0x556 || c == 0x559 || 0x561 <= c <= 0x586 || 0x5D0 <= c <= 0x5EA
    || 0x5F0 <= c <= 0x5F2 || 0x621 <= c <= 0x63A || 0x641 <= c <= 0x64A || 0x671 <= c <= 0x6B7
    || 0x6BA <= c <= 0x6BE || 0x6C0 <= c <= 0x6CE || 0x6D0 <= c <= 0x6D3 || c == 0x6D5 || 0x6E5 <= c <= 0x6E6
    || 0x905 <= c <= 0x939 || c == 0x93D || 0x958 <= c <= 0x961 || 0x985 <= c <= 0x98C || 0x98F <= c <= 0x990
    || 0x993 <= c <= 0x9A8 || 0x9AA <= c <= 0x9B0 || c == 0x9B2 || 0x9B6 <= c <= 0x9B9 || 0x9DC <= c <= 0x9DD
    || 0x9DF <= c <= 0x9E1 || 0x9F0 <= c <= 0x9F1 || 0xA05 <= c <= 0xA0A || 0xA0F <= c <= 0xA10
    || 0xA13 <= c <= 0xA28 || 0xA2A <= c <= 0xA30 || 0xA32 <= c <= 0xA33 || 0xA35 <= c <= 0xA36
    || 0xA38 <= c <= 0xA39 || 0xA59 <= c <= 0xA5C || c == 0xA5E || 0xA72 <= c <= 0xA74 || 0xA85 <= c <= 0xA8B
    || c == 0xA8D || 0xA8F <= c <= 0xA91 || 0xA93 <= c <= 0xAA8 || 0xAAA <= c <= 0xAB0 || 0xAB2 <= c <= 0xAB3
    || 0xAB5 <= c <= 0xAB9 || c == 0xABD || c == 0xAE0 || 0xB05 <= c <= 0xB0C || 0xB0F <= c <= 0xB10
    || 0xB13 <= c <= 0xB28 || 0xB2A <= c <= 0xB30 || 0xB32 <= c <= 0xB33 || 0xB36 <= c <= 0xB39 || c == 0xB3D
    || 0xB5C <= c <= 0xB5D || 0xB5F <= c <= 0xB61 || 0xB85 <= c <= 0xB8A || 0xB8E <= c <= 0xB90
    || 0xB92 <= c <= 0xB95 || 0xB99 <= c <= 0xB9A || c == 0xB9C || 0xB9E <= c <= 0xB9F || 0xBA3 <= c <= 0xBA4
    || 0xBA8 <= c <= 0xBAA || 0xBAE <= c <= 0xBB5 || 0xBB7 <= c <= 0xBB9 || 0xC05 <= c <= 0xC0C
    || 0xC0E <= c <= 0xC10 || 0xC12 <= c <= 0xC28 || 0xC2A <= c <= 0xC33 || 0xC35 <= c <= 0xC39
    || 0xC60 <= c <= 0xC61 || 0xC85 <= c <= 0xC8C || 0xC8E <= c <= 0xC90 || 0xC92 <= c <= 0xCA8
    || 0xCAA <= c <= 0xCB3 || 0xCB5 <= c <= 0xCB9 || c == 0xCDE || 0xCE0 <= c <= 0xCE1 || 0xD05 <= c <= 0xD0C
    || 0xD0E <= c <= 0xD10 || 0xD12 <= c <= 0xD28 || 0xD2A <= c <= 0xD39 || 0xD60 <= c <= 0xD61
    || 0xE01 <= c <= 0xE2E || c == 0xE30 || 0xE32 <= c <= 0xE33 || 0xE40 <= c <= 0xE45 || 0xE81 <= c <= 0xE82
    || c == 0xE84 || 0xE87 <= c <= 0xE88 || c == 0xE8A || c == 0xE8D || 0xE94 <= c <= 0xE97 || 0xE99 <= c <= 0xE9F
    || 0xEA1 <= c <= 0xEA3 || c == 0xEA5 || c == 0xEA7 || 0xEAA <= c <= 0xEAB || 0xEAD <= c <= 0xEAE || c == 0xEB0
    || 0xEB2 <= c <= 0xEB3 || c == 0xEBD || 0xEC0 <= c <= 0xEC4 || 0xF40 <= c <= 0xF47 || 0xF49 <= c <= 0xF69
    || 0x10A0 <= c <= 0x10C5 || 0x10D0 <= c <= 0x10F6 || c == 0x1100 || 0x1102 <= c <= 0x1103
    || 0x1105 <= c <= 0x1107 || c == 0x1109 || 0x110B <= c <= 0x110C || 0x110E <= c <= 0x1112 || c == 0x113C
    || c == 0x113E || c == 0x1140 || c == 0x114C || c == 0x114E || c == 0x1150 || 0x1154 <= c <= 0x1155
    || c == 0x1159 || 0x115F <= c <= 0x1161 || c == 0x1163 || c == 0x1165 || c == 0x1167 || c == 0x1169
    || 0x116D <= c <= 0x116E || 0x1172 <= c <= 0x1173 || c == 0x1175 || c == 0x119E || c == 0x11A8 || c == 0x11AB
    || 0x11AE <= c <= 0x11AF || 0x11B7 <= c <= 0x11B8 || c == 0x11BA || 0x11BC <= c <= 0x11C2 || c == 0x11EB
    || c == 0x11F0 || c == 0x11F9 || 0x1E00 <= c <= 0x1E9B || 0x1EA0 <= c <= 0x1EF9 || 0x1F00 <= c <= 0x1F15
    || 0x1F18 <= c <= 0x1F1D || 0x1F20 <= c <= 0x1F45 || 0x1F48 <= c <= 0x1F4D || 0x1F50 <= c <= 0x1F57
    || c == 0x1F59 || c == 0x1F5B || c == 0x1F5D || 0x1F5F <= c <= 0x1F7D || 0x1F80 <= c <= 0x1FB4
    || 0x1FB6 <= c <= 0x1FBC || c == 0x1FBE || 0x1FC2 <= c <= 0x1FC4 || 0x1FC6 <= c <= 0x1FCC
    || 0x1FD0 <= c <= 0x1FD3 || 0x1FD6 <= c <= 0x1FDB || 0x1FE0 <= c <= 0x1FEC || 0x1FF2 <= c <= 0x1FF4
    || 0x1FF6 <= c <= 0x1FFC || c == 0x2126 || 0x212A <= c <= 0x212B || c == 0x212E || 0x2180 <= c <= 0x2182
    || c == 0x3007 || 0x3021 <= c <= 0x3029 || 0x3041 <= c <= 0x3094 || 0x30A1 <= c <= 0x30FA
    || 0x3105 <= c <= 0x312C || 0x4E00 <= c <= 0x9FA5 || 0xAC00 <= c <= 0xD7A3
  }

  predicate IsHighMark(c: int) {
    || c == 0xB7 || c == 0x2D0 || c == 0x2D1 || 0x300 <= c <= 0x345 || 0x360 <= c <= 0x361 || c == 0x387
    || 0x483 <= c <= 0x486 || 0x591 <= c <= 0x5A1 || 0x5A3 <= c <= 0x5B9 || 0x5BB <= c <= 0x5BD || c == 0x5BF
    || 0x5C1 <= c <= 0x5C2 || c == 0x5C4 || c == 0x640 || 0x64B <= c <= 0x652 || 0x660 <= c <= 0x669 || c == 0x670
    || 0x6D6 <= c <= 0x6DC || 0x6DD <= c <= 0x6DF || 0x6E0 <= c <= 0x6E4 || 0x6E7 <= c <= 0x6E8
    || 0x6EA <= c <= 0x6ED || 0x6F0 <= c <= 0x6F9 || 0x901 <= c <= 0x903 || c == 0x93C || 0x93E <= c <= 0x94C
    || c == 0x94D || 0x951 <= c <= 0x954 || 0x962 <= c <= 0x963 || 0x966 <= c <= 0x96F || 0x981 <= c <= 0x983
    || c == 0x9BC || c == 0x9BE || c == 0x9BF || 0x9C0 <= c <= 0x9C4 || 0x9C7 <= c <= 0x9C8 || 0x9CB <= c <= 0x9CD
    || c == 0x9D7 || 0x9E2 <= c <= 0x9E3 || 0x9E6 <= c <= 0x9EF || c == 0xA02 || c == 0xA3C || c == 0xA3E
    || c == 0xA3F || 0xA40 <= c <= 0xA42 || 0xA47 <= c <= 0xA48 || 0xA4B <= c <= 0xA4D || 0xA66 <= c <= 0xA6F
    || 0xA70 <= c <= 0xA71 || 0xA81 <= c <= 0xA83 || c == 0xABC || 0xABE <= c <= 0xAC5 || 0xAC7 <= c <= 0xAC9
    || 0xACB <= c <= 0xACD || 0xAE6 <= c <= 0xAEF || 0xB01 <= c <= 0xB03 || c == 0xB3C || 0xB3E <= c <= 0xB43
    || 0xB47 <= c <= 0xB48 || 0xB4B <= c <= 0xB4D || 0xB56 <= c <= 0xB57 || 0xB66 <= c <= 0xB6F
    || 0xB82 <= c <= 0xB83 || 0xBBE <= c <= 0xBC2 || 0xBC6 <= c <= 0xBC8 || 0xBCA <= c <= 0xBCD || c == 0xBD7
    || 0xBE7 <= c <= 0xBEF || 0xC01 <= c <= 0xC03 || 0xC3E <= c <= 0xC44 || 0xC46 <= c <= 0xC48
    || 0xC4A <= c <= 0xC4D || 0xC55 <= c <= 0xC56 || 0xC66 <= c <= 0xC6F || 0xC82 <= c <= 0xC83
    || 0xCBE <= c <= 0xCC4 || 0xCC6 <= c <= 0xCC8 || 0xCCA <= c <= 0xCCD || 0xCD5 <= c <= 0xCD6
    || 0xCE6 <= c <= 0xCEF || 0xD02 <= c <= 0xD03 || 0xD3E <= c <= 0xD43 || 0xD46 <= c <= 0xD48
    || 0xD4A <= c <= 0xD4D || c == 0xD57 || 0xD66 <= c <= 0xD6F || c == 0xE31 || 0xE34 <= c <= 0xE3A || c == 0xE46
    || 0xE47 <= c <= 0xE4E || 0xE50 <= c <= 0xE59 || c == 0xEB1 || 0xEB4 <= c <= 0xEB9 || 0xEBB <= c <= 0xEBC
    || c == 0xEC6 || 0xEC8 <= c <= 0xECD || 0xED0 <= c <= 0xED9 || 0xF18 <= c <= 0xF19 || 0xF20 <= c <= 0xF29
    || c == 0xF35 || c == 0xF37 || c == 0xF39 || c == 0xF3E || c == 0xF3F || 0xF71 <= c <= 0xF84
    || 0xF86 <= c <= 0xF8B || 0xF90 <= c <= 0xF95 || c == 0xF97 || 0xF99 <= c <= 0xFAD || 0xFB1 <= c <= 0xFB7
    || c == 0xFB9 || 0x20D0 <= c <= 0x20DC || c == 0x20E1 || c == 0x3005 || 0x302A <= c <= 0x302F
    || 0x3031 <= c <= 0x3035 || c == 0x3099 || c == 0x309A || 0x309D <= c <= 0x309E || 0x30FC <= c <= 0x30FE
  }

  lemma NameCharIsXmlChar(d: Decoded, inside: bool)
    requires IsNameChar(d, inside)
    ensures IsXmlChar(d.c)
  {
    hide IsHighLetter, IsHighMark;
    HighLetterRange(d.c);
    HighMarkRange(d.c);
  }

  lemma HighLetterRange(c: int)
    ensures IsHighLetter(c) ==> 0x80 <= c <= 0xD7FF
  {
  }

  lemma HighMarkRange(c: int)
    ensures IsHighMark(c) ==> 0x80 <= c <= 0xD7FF
  {
  }

  /** Names in ASCII: a letter, `_` or `:` first, and digits, `-` and `.` too inside. */
  lemma AsciiNames(c: char)
    requires c < 128 as char
    ensures IsNameChar(Code(c as int, 1), false) <==> 'a' <= c <= 'z' || 'A' <= c <= 'Z' || c == '_' || c == ':'
    ensures IsNameChar(Code(c as int, 1), true) <==>
              IsNameChar(Code(c as int, 1), false) || '0' <= c <= '9' || c == '-' || c == '.'
  {
    hide IsHighLetter, IsHighMark;
  }
}
