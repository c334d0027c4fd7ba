/** Back from what was read to what stood there: a character that is read was written as itself or as
    a reference, a text likewise, and a value that is accepted holds no `<` (XML 1.0, sections 3.1 and 4.1). */
module XmlWritten {
  import opened XmlChars
  import opened XmlText
  import opened XmlReferences
  import opened XmlSyntax

  // ---- Characters ----

  /** A character in more bytes than it needs, which the decoder takes all the same. */
  predicate Overlong(r: string, c: nat) {
    IsXmlChar(c) && Utf8ToInt(r, 0) == Code(c, |r|) && c < Shortest(|r|)
  }

  ghost predicate Says(r: string, c: nat) {
    Denotes(r, c) || Overlong(r, c)
  }

  /** Digits spell their value, behind the zeros in front. */
  lemma {:induction false} DigitsSpell(s: string, p: nat, e: nat, hex: bool)
    requires p < e && (forall k | p <= k < e :: IsDigit(At(s, k), hex))
    ensures forall k | p <= k < e :: IsDigit(At(s, k), true)
    ensures Stand(s, p, e, Figures(Number(s, p, e, Base(hex)), hex))
    decreases e
  {
    hide IsDigit, DigitValue, Over, Left, SameFigure, Figures, Stand;
    DigitsAny(s, p, e, hex);
    var d := DigitValue(At(s, e - 1));
    DigitFigure(At(s, e - 1), hex);
    var n := Number(s, p, e - 1, Base(hex));
    OneFigure(d, hex);
    if p == e - 1 {
      assert n == 0;
      StandOne(s, p, e, FIGURES[d]);
    } else {
      DigitsSpell(s, p, e - 1, hex);
      if n == 0 {
        ZeroStands(s, p, e - 1, hex);
        StandOne(s, p, e, FIGURES[d]);
      } else {
        NextFigure(n, d, hex);
        StandMore(s, p, e, Figures(n, hex), FIGURES[d]);
      }
    }
  }

  lemma StandOne(s: string, p: nat, e: nat, x: char)
    requires p < e && (forall k | p <= k < e - 1 :: At(s, k) == '0') && SameFigure(At(s, e - 1), x)
    ensures Stand(s, p, e, [x])
  {
    hide SameFigure;
    assert e - 1 + 0 == e - 1;
  }

  lemma StandMore(s: string, p: nat, e: nat, f: string, x: char)
    requires p < e && Stand(s, p, e - 1, f) && SameFigure(At(s, e - 1), x)
    ensures Stand(s, p, e, f + [x])
  {
    hide SameFigure;
    forall k | 0 <= k < |f| + 1 ensures SameFigure(At(s, e - (|f| + 1) + k), (f + [x])[k]) {
      if k < |f| { assert e - 1 - |f| + k == e - (|f| + 1) + k; }
    }
  }

  lemma DigitsAny(s: string, p: nat, e: nat, hex: bool)
    requires forall k | p <= k < e :: IsDigit(At(s, k), hex)
    ensures forall k | p <= k < e :: IsDigit(At(s, k), true)
  {
  }

  lemma DigitFigure(x: char, hex: bool)
    requires IsDigit(x, hex)
    ensures IsDigit(x, true) && DigitValue(x) < Base(hex) && SameFigure(x, FIGURES[DigitValue(x)])
  {
    assert FIGURES[10..] == "abcdef";
  }

  lemma OneFigure(d: nat, hex: bool)
    requires d < Base(hex)
    ensures Figures(d, hex) == [FIGURES[d]]
  {
  }

  lemma NextFigure(n: nat, d: nat, hex: bool)
    requires d < Base(hex) && n > 0
    ensures Figures(n * Base(hex) + d, hex) == Figures(n, hex) + [FIGURES[d]]
  {
    hide Figures;
    var c := n * Base(hex) + d;
    assert Over(c, hex) == n && Left(c, hex) == d;
    ManyFigures(c, hex);
  }

  lemma ManyFigures(c: nat, hex: bool)
    requires c >= Base(hex)
    ensures Figures(c, hex) == Figures(Over(c, hex), hex) + [FIGURES[Left(c, hex)]]
  {
  }

  lemma ZeroStands(s: string, p: nat, e: nat, hex: bool)
    requires Stand(s, p, e, Figures(0, hex))
    ensures forall k | p <= k < e :: At(s, k) == '0'
  {
    assert Figures(0, hex) == "0";
    assert SameFigure(At(s, e - 1 + 0), "0"[0]);
  }

  /** A numeric reference that is read was written as one. */
  lemma NumberWritten(s: string, i: nat, hex: bool)
    requires var p := i + if hex then 3 else 2; NumericRef(s, i, p, hex).Code?
    requires MatchesFold(s, i, if hex then "&#x" else "&#")
    ensures var d := NumericRef(s, i, i + if hex then 3 else 2, hex);
            i + d.len <= |s| && Denotes(s[i..i + d.len], d.c)
  {
    hide Number, DigitsEnd, Figures, IsDigit;
    var p := i + if hex then 3 else 2;
    var e := DigitsEnd(s, p, hex);
    var w := Between(s, p, e);
    DigitsAny(s, p, e, hex);
    var c := Number(s, p, e, Base(hex));
    if p == e { NoNumber(s, p, Base(hex)); }
    DigitsSpell(s, p, e, hex);
    assert At(s, e) == ';';
    var r := s[i..e + 1];
    Marked(s, i, hex, p, e);
    assert Spells(w, c, hex) by { StandSpells(s, p, e, c, hex, w); }
    assert IsReference(r, w, c, hex);
  }

  lemma NoNumber(s: string, p: nat, base: nat)
    ensures Number(s, p, p, base) == 0
  {
  }

  function Between(s: string, p: nat, e: nat): (w: string)
    requires p <= e
    ensures |w| == e - p && forall k | 0 <= k < |w| :: w[k] == At(s, p + k)
  {
    seq(e - p, k requires 0 <= k < e - p => At(s, p + k))
  }

  lemma StandSpells(s: string, p: nat, e: nat, c: nat, hex: bool, w: string)
    requires p <= e && w == Between(s, p, e) && Stand(s, p, e, Figures(c, hex))
    ensures Spells(w, c, hex)
  {
    hide SameFigure, Figures;
    var f := Figures(c, hex);
    forall k | 0 <= k < |f| ensures SameFigure(w[|w| - |f| + k], f[k]) {
      assert w[|w| - |f| + k] == At(s, e - |f| + k);
    }
  }

  lemma Marked(s: string, i: nat, hex: bool, p: nat, e: nat)
    requires p == i + (if hex then 3 else 2) && p <= e < |s| && s[e] == ';'
    requires MatchesFold(s, i, if hex then "&#x" else "&#")
    ensures var w := Between(s, p, e);
            s[i..e + 1] in (if hex then {"&#x" + w + ";", "&#X" + w + ";"} else {"&#" + w + ";"})
  {
    var w, r := Between(s, p, e), s[i..e + 1];
    var m := if hex then "&#x" else "&#";
    assert m[0] == '&' && m[1] == '#';
    assert Lower(At(s, i + 0)) == m[0] && Lower(At(s, i + 1)) == m[1];
    assert r[0] == '&' && r[1] == '#';
    assert r == r[..p - i] + r[p - i..e - i] + [r[e - i]];
    assert r[p - i..e - i] == w by {
      forall k | 0 <= k < |w| ensures r[p - i + k] == w[k] {
        assert r[p - i + k] == s[p + k] == At(s, p + k);
      }
    }
    if hex {
      assert Lower(At(s, i + 2)) == m[2] == 'x';
      assert r[2] in {'x', 'X'};
      assert r[..3] == (if r[2] == 'x' then "&#x" else "&#X");
    } else {
      assert r[..2] == "&#";
    }
  }

  lemma FoldedBack(s: string, i: nat, name: string)
    requires MatchesFold(s, i, name) && name != "" && name[|name| - 1] == ';'
    ensures i + |name| <= |s| && AnyCase(s[i..i + |name|], name)
  {
    var n := |name|;
    assert Lower(At(s, i + (n - 1))) == name[n - 1];
    var r := s[i..i + n];
    forall k | 0 <= k < n
      ensures r[k] == name[k] || ('A' <= r[k] <= 'Z' && r[k] as int + 32 == name[k] as int)
    {
      assert Lower(At(s, i + k)) == name[k] && r[k] == At(s, i + k);
      LowerBack(r[k]);
    }
  }

  lemma LowerBack(c: char)
    ensures Lower(c) == c || ('A' <= c <= 'Z' && c as int + 32 == Lower(c) as int)
  {
  }

  lemma PlainWritten(s: string, i: nat)
    requires i < |s| && s[i] != '&' && GetChar(s, i).Code?
    ensures var d := GetChar(s, i); i + d.len <= |s| && Says(s[i..i + d.len], d.c)
  {
    hide IntToUtf8, IsEntity, IsReference, Utf8ToInt, Shortest, NumericRef;
    var d := GetChar(s, i);
    if s[i] as int < 0x80 { LowCode(s, i); }
    assert Utf8ToInt(s, i) == d && IsXmlChar(d.c);
    hide IsXmlChar, GetChar;
    EncodeDecoded(s, i);
    SameCode(s, i, d.len);
    Utf8Bytes(s, i);
    ShortestIsHigh(d.len);
    var r := s[i..i + d.len];
    if d.c < Shortest(d.len) {
      assert Overlong(r, d.c);
    } else {
      assert d.c != '&' as int;
      assert Denotes(r, d.c);
    }
  }

  lemma {:induction false} SameTails(s: string, i: nat, r: string, n: nat, lead: nat)
    requires forall k | 0 <= k <= n :: At(r, k) == At(s, i + k)
    ensures Tails(r, 0, n) <==> Tails(s, i, n)
    ensures Tails(s, i, n) ==> Gather(r, 0, n, lead) == Gather(s, i, n, lead)
  {
    if n > 0 { SameTails(s, i, r, n - 1, lead); }
  }

  /** Decoding depends on the bytes alone. */
  lemma SameCode(s: string, i: nat, n: nat)
    requires i < |s| && Utf8ToInt(s, i).Code? && n == Utf8ToInt(s, i).len
    ensures i + n <= |s| && Utf8ToInt(s[i..i + n], 0) == Utf8ToInt(s, i)
  {
    hide Utf8ToInt, Tails, Gather;
    var r := s[i..i + n];
    DecodedLead(s, i);
    assert forall k | 0 <= k <= n - 1 :: At(r, k) == At(s, i + k);
    if n > 1 {
      var lead := s[i] as int - LeadMark(n - 1);
      SameTails(s, i, r, n - 1, lead);
      LeadDecoded(r, 0, n - 1, lead);
    } else {
      LowCode(r, 0);
      LowCode(s, i);
    }
  }

  lemma LowCode(s: string, i: nat)
    requires At(s, i) as int < 0x80
    ensures Utf8ToInt(s, i) == Code(At(s, i) as int, 1)
  {
  }

  /** What is read as a character was written as it. */
  lemma CharWritten(s: string, i: nat)
    requires i < |s| && GetChar(s, i).Code?
    ensures var d := GetChar(s, i); i + d.len <= |s| && Says(s[i..i + d.len], d.c)
  {
    hide IsEntity, IsReference, NumericRef, IntToUtf8, AnyCase, MatchesFold;
    if s[i] != '&' {
      PlainWritten(s, i);
    } else if MatchesFold(s, i, "&quot;") {
      EntityWritten(s, i, "&quot;", '"');
    } else if MatchesFold(s, i, "&lt;") {
      EntityWritten(s, i, "&lt;", '<');
    } else if MatchesFold(s, i, "&gt;") {
      EntityWritten(s, i, "&gt;", '>');
    } else if MatchesFold(s, i, "&apos;") {
      EntityWritten(s, i, "&apos;", '\'');
    } else if MatchesFold(s, i, "&amp;") {
      EntityWritten(s, i, "&amp;", '&');
    } else {
      NumberWritten(s, i, MatchesFold(s, i, "&#x"));
    }
  }

  lemma EntityWritten(s: string, i: nat, name: string, c: char)
    requires (name, c) in {("&quot;", '"'), ("&lt;", '<'), ("&gt;", '>'), ("&apos;", '\''), ("&amp;", '&')}
    requires MatchesFold(s, i, name)
    ensures i + |name| <= |s| && Denotes(s[i..i + |name|], c as int)
  {
    hide AnyCase, MatchesFold;
    FoldedBack(s, i, name);
  }

  // ---- Texts ----

  ghost predicate AllSay(rs: seq<string>, cs: seq<nat>) {
    |rs| == |cs| && forall k | 0 <= k < |rs| :: Says(rs[k], cs[k])
  }

  /** raw is w, character by character, each as it stands or as a reference. */
  ghost predicate Spoken(raw: string, w: string) {
    exists rs, cs :: AllSay(rs, cs) && raw == Flat(rs) && w == Utf8Of(cs)
  }

  lemma {:induction false} TextWritten(s: string, i: nat, e: nat)
    requires e <= |s| && Decode(s, i, e).Some?
    ensures i <= e && Spoken(s[i..e], Decode(s, i, e).value)
    decreases e - i
  {
    hide Says, GetChar, IntToUtf8;
    if i == e {
      assert AllSay([], []) && s[i..e] == Flat([]) && "" == Utf8Of([]);
    } else {
      var d := GetChar(s, i);
      TextWritten(s, i + d.len, e);
      CharWritten(s, i);
      CopiedIs(s, i);
      SpokenMore(s[i..i + d.len], d.c, s[i + d.len..e], Decode(s, i + d.len, e).value);
      assert s[i..e] == s[i..i + d.len] + s[i + d.len..e];
    }
  }

  lemma SpokenMore(r: string, c: nat, raw: string, w: string)
    requires Says(r, c) && Spoken(raw, w)
    ensures Spoken(r + raw, IntToUtf8(c) + w)
  {
    hide Says, IntToUtf8;
    var rs, cs :| AllSay(rs, cs) && raw == Flat(rs) && w == Utf8Of(cs);
    var rs1, cs1 := [r] + rs, [c] + cs;
    assert rs1[1..] == rs && cs1[1..] == cs;
    assert AllSay(rs1, cs1);
    assert Flat(rs1) == r + raw && Utf8Of(cs1) == IntToUtf8(c) + w;
  }

  /** Neither mark stands at a .. b-1. */
  predicate Free(s: string, a: nat, b: nat) {
    forall k | a <= k < b :: At(s, k) != '<' && At(s, k) != '&'
  }

  /** A reference holds no `<`, and no second `&`. */
  lemma ReferenceClean(s: string, i: nat)
    requires i < |s| && s[i] == '&' && GetChar(s, i).Code?
    ensures GetChar(s, i).len > 2 && Free(s, i + 1, i + GetChar(s, i).len)
  {
    hide NumericRef, MatchesFold, Free;
    if MatchesFold(s, i, "&quot;") {
      FoldFree(s, i, "&quot;");
    } else if MatchesFold(s, i, "&lt;") {
      FoldFree(s, i, "&lt;");
    } else if MatchesFold(s, i, "&gt;") {
      FoldFree(s, i, "&gt;");
    } else if MatchesFold(s, i, "&apos;") {
      FoldFree(s, i, "&apos;");
    } else if MatchesFold(s, i, "&amp;") {
      FoldFree(s, i, "&amp;");
    } else if MatchesFold(s, i, "&#x") {
      FoldFree(s, i, "&#x");
      NumberFree(s, i, i + 3, true);
      FreeJoins(s, i + 1, i + 3, i + GetChar(s, i).len);
    } else {
      FoldFree(s, i, "&#");
      NumberFree(s, i, i + 2, false);
      FreeJoins(s, i + 1, i + 2, i + GetChar(s, i).len);
    }
  }

  lemma FreeJoins(s: string, a: nat, b: nat, c: nat)
    requires Free(s, a, b) && Free(s, b, c)
    ensures Free(s, a, c)
  {
  }

  lemma FoldFree(s: string, i: nat, name: string)
    requires MatchesFold(s, i, name) && forall k | 1 <= k < |name| :: name[k] != '<' && name[k] != '&'
    ensures Free(s, i + 1, i + |name|)
  {
    forall j | i + 1 <= j < i + |name| ensures At(s, j) != '<' && At(s, j) != '&' {
      assert Lower(At(s, i + (j - i))) == name[j - i];
    }
  }

  lemma NumberFree(s: string, i: nat, p: nat, hex: bool)
    requires i < p && NumericRef(s, i, p, hex).Code?
    ensures Free(s, p, i + NumericRef(s, i, p, hex).len)
  {
    hide DigitsEnd, Number;
    var e := DigitsEnd(s, p, hex);
    forall j | p <= j < e + 1 ensures At(s, j) != '<' && At(s, j) != '&' {
      if j < e {
        assert IsDigit(At(s, j), hex);
      } else {
        assert At(s, e) == ';';
      }
    }
  }

  lemma {:induction false} LessPassed(s: string, i: nat, j: nat, e: nat)
    requires e <= |s| && i <= j <= e && NoBareLess(s, i, e) && Free(s, i, j)
    ensures NoBareLess(s, j, e)
    decreases j - i
  {
    if i < j {
      assert At(s, i) == s[i];
      LessPassed(s, i + 1, j, e);
    }
  }

  predicate NoLess(s: string, i: nat, e: nat) {
    forall k | i <= k < e :: At(s, k) != '<'
  }

  /** A value that is accepted holds no `<` at all. */
  lemma {:induction false} ValueClean(s: string, i: nat, e: nat)
    requires e <= |s| && Decode(s, i, e).Some? && NoBareLess(s, i, e)
    ensures i <= e && NoLess(s, i, e)
    decreases e - i
  {
    hide GetChar, NoBareLess, Utf8ToInt, Free, At, NoLess, Spoken;
    if i < e {
      var m := i + GetChar(s, i).len;
      TextWritten(s, m, e);
      CharBytes(s, i);
      LessFirst(s, i, e);
      FreeLater(s, i + 1, i + 2, m);
      LessPassed(s, if s[i] == '&' then i + 2 else i + 1, m, e);
      ValueClean(s, m, e);
      NoLessJoins(s, i, m, e);
    } else {
      NoLessEmpty(s, i);
    }
  }

  lemma FreeLater(s: string, a: nat, b: nat, c: nat)
    requires Free(s, a, c) && a <= b
    ensures Free(s, b, c)
  {
  }

  lemma NoLessEmpty(s: string, i: nat)
    ensures NoLess(s, i, i)
  {
  }

  lemma NoLessJoins(s: string, i: nat, m: nat, e: nat)
    requires i < |s| && s[i] != '<' && Free(s, i + 1, m) && NoLess(s, m, e)
    ensures NoLess(s, i, e)
  {
  }

  lemma LessFirst(s: string, i: nat, e: nat)
    requires e <= |s| && i < e && NoBareLess(s, i, e)
    ensures s[i] != '<' && NoBareLess(s, if s[i] == '&' then i + 2 else i + 1, e)
  {
  }

  lemma CharBytes(s: string, i: nat)
    requires i < |s| && GetChar(s, i).Code?
    ensures var d := GetChar(s, i); i + d.len <= |s| && (s[i] == '&' ==> d.len > 2) && Free(s, i + 1, i + d.len)
  {
    hide Utf8ToInt, Tails, NumericRef, Says;
    var d := GetChar(s, i);
    CharWritten(s, i);
    if s[i] == '&' {
      ReferenceClean(s, i);
    } else {
      if s[i] as int < 0x80 { LowCode(s, i); }
      Utf8Bytes(s, i);
      forall j | i + 1 <= j < i + d.len ensures At(s, j) != '<' && At(s, j) != '&' {
        TailIsHigh(s, i, d.len - 1, j - i);
      }
    }
  }
}
