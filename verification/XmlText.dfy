/** Character data: the escaper of libxmlet/src/xmlet.c and the reference decoder
    of libxmlet/src/parser.c, which undoes it. */
module XmlText {
  import opened Wrappers
  import opened XmlChars
  import opened XmlBuffers

  // ---- Escaping (xmlet.c 40-110) ----

  function EscapeChar(c: char): string {
    match c
    case '<' => "&lt;"
    case '>' => "&gt;"
    case '&' => "&amp;"
    case '\'' => "&apos;"
    case '"' => "&quot;"
    case _ => [c]
  }

  function Escape(s: string): (r: string)
    ensures |r| >= |s|
  {
    if s == "" then "" else EscapeChar(s[0]) + Escape(s[1..])
  }

  lemma {:induction false} EscapeAppend(a: string, b: string)
    ensures Escape(a + b) == Escape(a) + Escape(b)
  {
    if a == "" {
      assert a + b == b;
    } else {
      assert (a + b)[1..] == a[1..] + b;
      EscapeAppend(a[1..], b);
      assert EscapeChar(a[0]) + (Escape(a[1..]) + Escape(b)) == Escape(a) + Escape(b);
    }
  }

  /** The switch of XmlCopyWithEscape. */
  method AppendEscaped(buf: XmlBuffer, c: char)
    requires buf.Valid()
    modifies buf.Repr
    ensures buf.Valid() && fresh(buf.Repr - old(buf.Repr))
    ensures buf.Text() == old(buf.Text()) + EscapeChar(c)
  {
    match c
    case '<' => buf.AppendString("&lt;");
    case '>' => buf.AppendString("&gt;");
    case '&' => buf.AppendString("&amp;");
    case '\'' => buf.AppendString("&apos;");
    case '"' => buf.AppendString("&quot;");
    case _ => buf.AppendString([c]);
  }

  /** XmlCopyWithEscape. */
  method CopyWithEscape(buf: XmlBuffer, p: string)
    requires buf.Valid()
    modifies buf.Repr
    ensures buf.Valid() && fresh(buf.Repr - old(buf.Repr))
    ensures buf.Text() == old(buf.Text()) + Escape(p)
  {
    hide EscapeChar;
    ghost var was := buf.Text();
    for i := 0 to |p|
      invariant buf.Valid() && fresh(buf.Repr - old(buf.Repr))
      invariant buf.Text() == was + Escape(p[..i])
    {
      AppendEscaped(buf, p[i]);
      assert p[..i + 1] == p[..i] + [p[i]];
      EscapeAppend(p[..i], [p[i]]);
      assert Escape([p[i]]) == EscapeChar(p[i]) + "";
      assert was + Escape(p[..i]) + EscapeChar(p[i]) == was + (Escape(p[..i]) + EscapeChar(p[i]));
    }
    assert p[..|p|] == p;
  }

  /** The names of the escaper's entities. */
  const ESCAPES: set<string> := {"&lt;", "&gt;", "&amp;", "&apos;", "&quot;"}

  /** No mark is left in an escaped text, and each `&` begins an entity. */
  predicate Escaped(e: string) {
    && (forall k | 0 <= k < |e| :: e[k] !in {'<', '>', '\'', '"'})
    && forall k | 0 <= k < |e| && e[k] == '&' :: EntityAt(e, k)
  }

  lemma CharEscaped(c: char)
    ensures EscapeChar(c) in ESCAPES || (EscapeChar(c) == [c] && c !in {'<', '>', '&', '\'', '"'})
  {
  }

  lemma {:induction false} EscapeLeavesNoMark(s: string)
    ensures Escaped(Escape(s))
  {
    hide EscapeChar;
    if s != "" {
      EscapeLeavesNoMark(s[1..]);
      CharEscaped(s[0]);
      EscapedMore(EscapeChar(s[0]), Escape(s[1..]));
    }
  }

  /** An entity begins at k. */
  predicate EntityAt(e: string, k: nat) {
    exists w :: w in ESCAPES && Matches(e, k, w)
  }

  lemma EntityLater(w: string, e: string, k: nat)
    requires EntityAt(e, k)
    ensures EntityAt(w + e, |w| + k)
  {
    hide Matches;
    var v :| v in ESCAPES && Matches(e, k, v);
    MatchesLater(w, e, k, v);
  }

  lemma MatchesLater(w: string, e: string, k: nat, v: string)
    requires Matches(e, k, v)
    ensures Matches(w + e, |w| + k, v)
  {
    assert (w + e)[|w| + k..|w| + k + |v|] == e[k..k + |v|];
  }

  lemma EscapedMore(w: string, e: string)
    requires Escaped(e) && (w in ESCAPES || (|w| == 1 && w[0] !in {'<', '>', '&', '\'', '"'}))
    ensures Escaped(w + e)
  {
    hide EntityAt;
    EscapeShape(w);
    var all := w + e;
    forall k | 0 <= k < |all| && all[k] == '&' ensures EntityAt(all, k) {
      if k < |w| {
        EntityFirst(w, e);
      } else {
        assert e[k - |w|] == '&';
        EntityLater(w, e, k - |w|);
      }
    }
  }

  lemma EntityFirst(w: string, e: string)
    requires w in ESCAPES
    ensures EntityAt(w + e, 0)
  {
    assert (w + e)[0..|w|] == w;
  }

  lemma EscapeShape(w: string)
    requires w in ESCAPES || (|w| == 1 && w[0] !in {'<', '>', '&', '\'', '"'})
    ensures forall k | 0 <= k < |w| :: w[k] !in {'<', '>', '\'', '"'} && (w[k] == '&' ==> k == 0 && w in ESCAPES)
  {
  }

  // ---- Decoding (parser.c 1444-1628) ----

  function Lower(c: char): char {
    if 'A' <= c <= 'Z' then (c as int + 32) as char else c
  }

  /** XMLStrncasecmp(s + i, w, strlen(w)) == 0 for a lower-case w. */
  predicate MatchesFold(s: string, i: nat, w: string) {
    forall k | 0 <= k < |w| :: Lower(At(s, i + k)) == w[k]
  }

  lemma FoldOfMatch(s: string, i: nat, w: string)
    requires Matches(s, i, w) && forall k | 0 <= k < |w| :: Lower(w[k]) == w[k]
    ensures MatchesFold(s, i, w)
  {
    forall k | 0 <= k < |w| ensures Lower(At(s, i + k)) == w[k] {
      assert s[i..i + |w|][k] == w[k];
    }
  }

  lemma FoldDiffers(s: string, i: nat, w: string, k: nat)
    requires k < |w| && Lower(At(s, i + k)) != w[k]
    ensures !MatchesFold(s, i, w)
  {
  }

  predicate IsDigit(c: char, hex: bool) {
    '0' <= c <= '9' || (hex && ('A' <= c <= 'F' || 'a' <= c <= 'f'))
  }

  function DigitValue(c: char): (v: nat)
    requires IsDigit(c, true)
    ensures v < 16
  {
    if c <= '9' then c as int - '0' as int
    else if c <= 'F' then c as int - 'A' as int + 10
    else c as int - 'a' as int + 10
  }

  /** Where the digits that start at i stop. */
  function DigitsEnd(s: string, i: nat, hex: bool): (e: nat)
    ensures i <= e && (forall k | i <= k < e :: IsDigit(At(s, k), hex)) && !IsDigit(At(s, e), hex)
    decreases |s| - i
  {
    if IsDigit(At(s, i), hex) then DigitsEnd(s, i + 1, hex) else i
  }

  /** The number written by the digits i .. e-1. */
  function Number(s: string, i: nat, e: nat, base: nat): nat
    requires i <= e && forall k | i <= k < e :: IsDigit(At(s, k), true)
  {
    if i == e then 0 else Number(s, i, e - 1, base) * base + DigitValue(At(s, e - 1))
  }

  /** A numeric reference whose digits start at p. */
  function NumericRef(s: string, i: nat, p: nat, hex: bool): (d: Decoded)
    requires i < p
    ensures d.Code? ==> d.len > p - i && IsXmlChar(d.c)
  {
    var e := DigitsEnd(s, p, hex);
    assert forall k | p <= k < e :: IsDigit(At(s, k), true);
    var sum := Number(s, p, e, if hex then 16 else 10);
    if At(s, e) != ';' || !IsXmlChar(sum) then Bad else Code(sum, e - i + 1)
  }

  /** XMLParserGetChar. */
  function GetChar(s: string, i: nat): (d: Decoded)
    ensures d.Code? ==> d.len >= 1 && IsXmlChar(d.c)
  {
    var c := At(s, i);
    if c != '&' then
      if 0 < c as int < 0x80 && IsXmlChar(c as int) then Code(c as int, 1)
      else
        var d := Utf8ToInt(s, i);
        if d.Code? && IsXmlChar(d.c) then d else Bad
    else if MatchesFold(s, i, "&quot;") then Code('"' as int, 6)
    else if MatchesFold(s, i, "&lt;") then Code('<' as int, 4)
    else if MatchesFold(s, i, "&gt;") then Code('>' as int, 4)
    else if MatchesFold(s, i, "&apos;") then Code('\'' as int, 6)
    else if MatchesFold(s, i, "&amp;") then Code('&' as int, 5)
    else if MatchesFold(s, i, "&#x") then NumericRef(s, i, i + 3, true)
    else if MatchesFold(s, i, "&#") then NumericRef(s, i, i + 2, false)
    else Bad
  }

  /** The bytes XMLParserCopyToken appends for one character. */
  function Copied(d: Decoded): (w: string)
    requires d.Code? && IsXmlChar(d.c)
    ensures w == IntToUtf8(d.c) || (d.len == 1 && d.c >= 0x80)
    ensures |w| >= 1
  {
    if d.len == 1 then [d.c as char] else IntToUtf8(d.c)
  }

  /** The loop of XMLParserCopyToken over the bytes i .. e-1. */
  function Decode(s: string, i: nat, e: nat): Option<string>
    decreases e - i
  {
    if i > e then None
    else if i == e then Some("")
    else
      var d := GetChar(s, i);
      if d.Bad? then None
      else
        match Decode(s, i + d.len, e)
        case None => None
        case Some(w) => Some(Copied(d) + w)
  }

  /** XMLParserCopyToken: the text appended to the token buffer. */
  function CopyToken(s: string, i: nat, len: int): Option<string> {
    if len <= 0 then None else Decode(s, i, i + len)
  }

  // ---- The two undo each other ----

  /** XML characters, each in its shortest UTF-8 form. */
  predicate WellFormed(s: string) {
    s == "" ||
    var d := Utf8ToInt(s, 0);
    d.Code? && IsXmlChar(d.c) && s[..d.len] == IntToUtf8(d.c) && WellFormed(s[d.len..])
  }

  lemma SingleByte(s: string, i: nat)
    requires GetChar(s, i).Code? && GetChar(s, i).len == 1
    ensures GetChar(s, i).c < 0x80
  {
  }

  lemma {:induction false} DecodeIsWellFormed(s: string, i: nat, e: nat)
    ensures Decode(s, i, e).Some? ==> WellFormed(Decode(s, i, e).value)
    decreases e - i
  {
    hide GetChar, IntToUtf8, Utf8ToInt, IsXmlChar;
    if i < e && Decode(s, i, e).Some? {
      var d := GetChar(s, i);
      var rest := Decode(s, i + d.len, e);
      DecodeIsWellFormed(s, i + d.len, e);
      CopiedIs(s, i);
      hide WellFormed;
      EncodedFirst(d.c, rest.value);
    }
  }

  lemma CopiedIs(s: string, i: nat)
    requires GetChar(s, i).Code?
    ensures Copied(GetChar(s, i)) == IntToUtf8(GetChar(s, i).c) && IsXmlChar(GetChar(s, i).c)
  {
    if GetChar(s, i).len == 1 { SingleByte(s, i); }
    hide GetChar;
  }

  /** An XML character in front of a well-formed text. */
  lemma EncodedFirst(c: nat, w: string)
    requires IsXmlChar(c) && WellFormed(w)
    ensures WellFormed(IntToUtf8(c) + w)
  {
    hide Utf8ToInt;
    var u := IntToUtf8(c);
    var t := u + w;
    assert t[..|u|] == u && t[|u|..] == w;
    DecodeEncoded(t, 0, c);
  }

  lemma {:induction false} EscapePlain(s: string, n: nat)
    requires n <= |s| && forall k | 0 <= k < n :: EscapeChar(s[k]) == [s[k]]
    ensures Escape(s) == s[..n] + Escape(s[n..])
  {
    hide EscapeChar;
    if n > 0 {
      EscapePlain(s[1..], n - 1);
      assert s[..n] == [s[0]] + s[1..][..n - 1] && s[1..][n - 1..] == s[n..];
    }
  }

  /** The entities the escaper writes are read back as the characters they stand for. */
  lemma GetEntity(s: string, i: nat, c: char)
    requires EscapeChar(c) != [c] && Matches(s, i, EscapeChar(c))
    ensures GetChar(s, i) == Code(c as int, |EscapeChar(c)|) && Copied(GetChar(s, i)) == [c]
  {
    var w := EscapeChar(c);
    forall k | 0 <= k < |w| ensures At(s, i + k) == w[k] {
      assert s[i..i + |w|][k] == w[k];
    }
    FoldOfMatch(s, i, w);
    assert At(s, i + 0) == '&' && At(s, i + 1) == w[1] && At(s, i + 2) == w[2];
    if c != '"' { FoldDiffers(s, i, "&quot;", 1); }
    if c != '<' { FoldDiffers(s, i, "&lt;", 1); }
    if c != '>' { FoldDiffers(s, i, "&gt;", 1); }
    if c == '&' { FoldDiffers(s, i, "&apos;", 2); }
    if c == '\'' { FoldDiffers(s, i, "&amp;", 2); }
  }

  /** One character as it stands, with no reference. */
  lemma GetPlain(s: string, i: nat, c: nat)
    requires IsXmlChar(c) && c != '&' as int && Matches(s, i, IntToUtf8(c))
    ensures GetChar(s, i) == Code(c, |IntToUtf8(c)|) && Copied(GetChar(s, i)) == IntToUtf8(c)
  {
    DecodeEncoded(s, i, c);
    assert s[i..i + |IntToUtf8(c)|][0] == At(s, i);
  }

  /** A character is one low byte, or high bytes that end in continuation bytes. */
  lemma Utf8Bytes(s: string, i: nat)
    requires i < |s| && Utf8ToInt(s, i).Code?
    ensures s[i] as int < 0x80 ==> Utf8ToInt(s, i) == Code(s[i] as int, 1)
    ensures s[i] as int >= 0x80 ==> Utf8ToInt(s, i).len > 1
    ensures Tails(s, i, Utf8ToInt(s, i).len - 1)
  {
    hide Gather;
  }

  /** The first character of a well-formed text and its bytes. */
  lemma FirstChar(s: string)
    requires s != "" && WellFormed(s)
    ensures var d := Utf8ToInt(s, 0);
            d.Code? && s == IntToUtf8(d.c) + s[d.len..] && |IntToUtf8(d.c)| == d.len &&
            IsXmlChar(d.c) && WellFormed(s[d.len..])
    ensures s[0] as int < 0x80 ==> Utf8ToInt(s, 0) == Code(s[0] as int, 1)
    ensures s[0] as int >= 0x80 ==> Utf8ToInt(s, 0).c >= 0x80
    ensures forall k | 1 <= k < Utf8ToInt(s, 0).len :: IsContinuation(At(s, k))
  {
    hide IntToUtf8, IsXmlChar, Utf8ToInt, Tails, WellFormed, IsContinuation, Shortest;
    var d := Utf8ToInt(s, 0);
    WellFormedFirst(s);
    assert s == s[..d.len] + s[d.len..];
    Utf8Bytes(s, 0);
    assert s[0..d.len] == s[..d.len];
    EncodeDecoded(s, 0);
    ShortestIsHigh(d.len);
    forall k | 1 <= k < d.len ensures IsContinuation(At(s, k)) {
      TailIsHigh(s, 0, d.len - 1, k);
    }
  }

  lemma WellFormedFirst(s: string)
    requires s != "" && WellFormed(s)
    ensures var d := Utf8ToInt(s, 0);
            d.Code? && IsXmlChar(d.c) && s[..d.len] == IntToUtf8(d.c) && WellFormed(s[d.len..])
  {
    hide IntToUtf8, IsXmlChar, Utf8ToInt;
  }

  lemma ShortestIsHigh(len: nat)
    ensures len > 1 ==> Shortest(len) >= 0x80
  {
  }

  lemma Plain(c: char)
    ensures IsContinuation(c) || c as int >= 0x80 ==> EscapeChar(c) == [c]
    ensures c == '&' ==> EscapeChar(c) != [c]
  {
  }

  /** Escaping goes character by character. */
  lemma EscapeFirstChar(s: string)
    requires s != "" && WellFormed(s)
    ensures var d := Utf8ToInt(s, 0);
            var head := if EscapeChar(s[0]) == [s[0]] then IntToUtf8(d.c) else EscapeChar(s[0]);
            Escape(s) == head + Escape(s[d.len..])
    ensures EscapeChar(s[0]) == [s[0]] ==> Utf8ToInt(s, 0).c != '&' as int
    ensures EscapeChar(s[0]) != [s[0]] ==> Utf8ToInt(s, 0) == Code(s[0] as int, 1)
  {
    hide IntToUtf8, IsXmlChar, WellFormed, Utf8ToInt, EscapeChar;
    FirstChar(s);
    Plain(s[0]);
    if EscapeChar(s[0]) == [s[0]] {
      var n := Utf8ToInt(s, 0).len;
      forall k | 0 <= k < n ensures EscapeChar(s[k]) == [s[k]] {
        Plain(s[k]);
        assert k > 0 ==> IsContinuation(At(s, k));
      }
      EscapePlain(s, n);
    }
  }

  lemma TailIsHigh(s: string, i: nat, n: nat, k: nat)
    requires Tails(s, i, n) && 1 <= k <= n
    ensures IsContinuation(At(s, i + k))
  {
    if k < n { TailIsHigh(s, i, n - 1, k); }
  }

  lemma {:induction false} DecodeEscaped(data: string, i: nat, s: string)
    requires WellFormed(s) && Matches(data, i, Escape(s))
    ensures Decode(data, i, i + |Escape(s)|) == Some(s)
    decreases |s|
  {
    hide IntToUtf8, Utf8ToInt, GetChar, EscapeChar, WellFormed, IsXmlChar;
    if s != "" {
      FirstChar(s);
      EscapeFirstChar(s);
      var d := Utf8ToInt(s, 0);
      var rest := s[d.len..];
      var head := if EscapeChar(s[0]) == [s[0]] then IntToUtf8(d.c) else EscapeChar(s[0]);
      assert Escape(s) == head + Escape(rest);
      MatchesAppend(data, i, head, Escape(rest));
      DecodeEscaped(data, i + |head|, rest);
      if EscapeChar(s[0]) == [s[0]] {
        GetPlain(data, i, d.c);
      } else {
        GetEntity(data, i, s[0]);
        assert IntToUtf8(d.c) == [s[0]];
      }
    }
  }

  /** Text with no reference in it is copied as it stands. */
  lemma {:induction false} DecodePlain(data: string, i: nat, s: string)
    requires WellFormed(s) && '&' !in s && Matches(data, i, s)
    ensures Decode(data, i, i + |s|) == Some(s)
    decreases |s|
  {
    hide IntToUtf8, Utf8ToInt, GetChar, EscapeChar, WellFormed, IsXmlChar;
    if s != "" {
      FirstChar(s);
      var d := Utf8ToInt(s, 0);
      var u := IntToUtf8(d.c);
      MatchesAppend(data, i, u, s[d.len..]);
      DecodePlain(data, i + d.len, s[d.len..]);
      GetPlain(data, i, d.c);
    }
  }

  /** XMLParserCopyToken undoes XmlCopyWithEscape on exactly the well-formed texts. */
  lemma EscapeRoundTrip(before: string, s: string, after: string)
    requires s != ""
    ensures CopyToken(before + Escape(s) + after, |before|, |Escape(s)|) == Some(s) <==> WellFormed(s)
  {
    hide IntToUtf8, Utf8ToInt, GetChar, EscapeChar, Escape, WellFormed, Decode;
    var e := Escape(s);
    var data := before + e + after;
    Embedded(before, e, after);
    EscapeSome(s);
    if WellFormed(s) {
      DecodeEscaped(data, |before|, s);
    }
    DecodeIsWellFormed(data, |before|, |before| + |e|);
  }

  lemma Embedded(before: string, e: string, after: string)
    ensures Matches(before + e + after, |before|, e)
  {
  }

  lemma EscapeSome(s: string)
    requires s != ""
    ensures Escape(s) != ""
  {
  }
}
