/** References as they are written: numbers by their figures, entities by their names, in any
    case (XML 1.0, section 4.1; libxmlet/src/parser.c 1444-1550). */
module XmlReferences {
  import opened Wrappers
  import opened XmlChars
  import opened XmlText

  const FIGURES: string := "0123456789abcdef"

  function Base(hex: bool): nat {
    if hex then 16 else 10
  }

  function Over(c: nat, hex: bool): (q: nat)
    ensures q <= c && (c >= Base(hex) ==> q < c)
  {
    if hex then c / 16 else c / 10
  }

  function Left(c: nat, hex: bool): (d: nat)
    ensures d < Base(hex) && c == Over(c, hex) * Base(hex) + d
  {
    if hex then c % 16 else c % 10
  }

  /** A number in figures, found by dividing by ten or by sixteen. */
  function Figures(c: nat, hex: bool): (w: string)
    ensures w != ""
  {
    if c < Base(hex) then [FIGURES[c]] else Figures(Over(c, hex), hex) + [FIGURES[Left(c, hex)]]
  }

  /** The same figure, a letter in either case. */
  predicate SameFigure(x: char, y: char) {
    x == y || (x, y) in {('A', 'a'), ('B', 'b'), ('C', 'c'), ('D', 'd'), ('E', 'e'), ('F', 'f')}
  }

  /** The number in figures, zeros in front of them. */
  predicate Spells(w: string, c: nat, hex: bool) {
    var f := Figures(c, hex);
    && |f| <= |w| && (forall k | 0 <= k < |w| - |f| :: w[k] == '0')
    && forall k | 0 <= k < |f| :: SameFigure(w[|w| - |f| + k], f[k])
  }

  lemma FigureValue(x: char, d: nat, hex: bool)
    requires d < Base(hex) && SameFigure(x, FIGURES[d])
    ensures IsDigit(x, hex) && DigitValue(x) == d
  {
    assert FIGURES[10..] == "abcdef";
  }

  lemma {:induction false} ZerosAre(s: string, p: nat, e: nat, base: nat)
    requires p <= e && forall k | p <= k < e :: At(s, k) == '0'
    ensures Number(s, p, e, base) == 0
    decreases e - p
  {
    if p < e { ZerosAre(s, p, e - 1, base); }
  }

  /** Zeros and figures that stand at p .. e-1. */
  predicate Stand(s: string, p: nat, e: nat, f: string) {
    && p + |f| <= e && (forall k | p <= k < e - |f| :: At(s, k) == '0')
    && forall k | 0 <= k < |f| :: SameFigure(At(s, e - |f| + k), f[k])
  }

  /** Reading figures off gives the number. */
  lemma {:induction false} FiguresRead(s: string, p: nat, e: nat, c: nat, hex: bool)
    requires Stand(s, p, e, Figures(c, hex))
    ensures forall k | p <= k < e :: IsDigit(At(s, k), hex)
    ensures (forall k | p <= k < e :: IsDigit(At(s, k), true)) && Number(s, p, e, Base(hex)) == c
    decreases c
  {
    hide SameFigure, IsDigit, DigitValue, Over, Left;
    var f, base := Figures(c, hex), Base(hex);
    if c < base {
      assert f[0] == FIGURES[c];
      assert SameFigure(At(s, e - |f| + 0), f[0]);
      FigureValue(At(s, e - 1), c, hex);
      ZeroDigit();
      ZerosAre(s, p, e - 1, base);
    } else {
      var g := Figures(Over(c, hex), hex);
      assert forall k | 0 <= k < |g| :: f[k] == g[k];
      FiguresRead(s, p, e - 1, Over(c, hex), hex);
      assert f[|f| - 1] == FIGURES[Left(c, hex)];
      assert SameFigure(At(s, e - |f| + (|f| - 1)), f[|f| - 1]);
      FigureValue(At(s, e - 1), Left(c, hex), hex);
    }
    OneMore(s, p, e, base, hex);
  }

  lemma ZeroDigit()
    ensures IsDigit('0', true) && IsDigit('0', false)
  {
  }

  lemma OneMore(s: string, p: nat, e: nat, base: nat, hex: bool)
    requires p < e && (forall k | p <= k < e - 1 :: IsDigit(At(s, k), hex)) && IsDigit(At(s, e - 1), hex)
    ensures forall k | p <= k < e :: IsDigit(At(s, k), true)
    ensures Number(s, p, e, base) == Number(s, p, e - 1, base) * base + DigitValue(At(s, e - 1))
  {
  }

  lemma {:induction false} DigitsEndIs(s: string, p: nat, e: nat, hex: bool)
    requires p <= e && (forall k | p <= k < e :: IsDigit(At(s, k), hex)) && !IsDigit(At(s, e), hex)
    ensures DigitsEnd(s, p, hex) == e
    decreases e - p
  {
    if p < e { DigitsEndIs(s, p + 1, e, hex); }
  }

  lemma AtIs(s: string, i: nat, w: string)
    requires Matches(s, i, w)
    ensures forall k | 0 <= k < |w| :: At(s, i + k) == w[k]
  {
    forall k | 0 <= k < |w| ensures At(s, i + k) == w[k] {
      assert s[i..i + |w|][k] == w[k];
    }
  }

  /** The reference to a character by its number: `&#`, an x for base sixteen, the figures and a semicolon. */
  predicate IsReference(r: string, w: string, c: nat, hex: bool) {
    Spells(w, c, hex) && r in (if hex then {"&#x" + w + ";", "&#X" + w + ";"} else {"&#" + w + ";"})
  }

  /** Every XML character is read from its number, wherever the reference stands. */
  lemma NumberReference(s: string, i: nat, r: string, w: string, c: nat, hex: bool)
    requires IsXmlChar(c) && IsReference(r, w, c, hex) && Matches(s, i, r)
    ensures GetChar(s, i) == Code(c, |r|)
  {
    hide NumericRef, Number, DigitsEnd, Figures;
    var f := Figures(c, hex);
    var p := i + if hex then 3 else 2;
    AtIs(s, i, r);
    var e := p + |w|;
    assert r[|r| - 1] == ';' && |r| == e - i + 1;
    forall k | 0 <= k < |w| ensures At(s, p + k) == w[k] {
      assert At(s, i + (p - i + k)) == r[p - i + k] == w[k];
    }
    assert Stand(s, p, e, f);
    FiguresRead(s, p, e, c, hex);
    assert At(s, i + (e - i)) == ';';
    DigitsEndIs(s, p, e, hex);
    NumericRefIs(s, i, p, e, c, hex);
    FirstThree(s, i, hex, w, r);
  }

  lemma NumericRefIs(s: string, i: nat, p: nat, e: nat, c: nat, hex: bool)
    requires i < p && e == DigitsEnd(s, p, hex) && At(s, e) == ';' && IsXmlChar(c)
    requires (forall k | p <= k < e :: IsDigit(At(s, k), true)) && Number(s, p, e, if hex then 16 else 10) == c
    ensures NumericRef(s, i, p, hex) == Code(c, e - i + 1)
  {
  }

  lemma ThirdOf(s: string, i: nat, hex: bool, w: string, r: string)
    requires Matches(s, i, r) && w != "" && IsDigit(w[0], hex)
    requires r in (if hex then {"&#x" + w + ";", "&#X" + w + ";"} else {"&#" + w + ";"})
    ensures At(s, i) == '&' && At(s, i + 1) == '#'
    ensures if hex then At(s, i + 2) in {'x', 'X'} else IsDigit(At(s, i + 2), false)
  {
    AtIs(s, i, r);
    assert At(s, i + 0) == r[0] && At(s, i + 1) == r[1] && At(s, i + 2) == r[2];
  }

  lemma NoEntityAt(s: string, i: nat)
    requires At(s, i + 1) == '#'
    ensures forall c | c in {"&quot;", "&lt;", "&gt;", "&apos;", "&amp;"} :: !MatchesFold(s, i, c)
  {
    FoldDiffers(s, i, "&quot;", 1);
    FoldDiffers(s, i, "&lt;", 1);
    FoldDiffers(s, i, "&gt;", 1);
    FoldDiffers(s, i, "&apos;", 1);
    FoldDiffers(s, i, "&amp;", 1);
  }

  lemma NumberMark(s: string, i: nat, hex: bool)
    requires At(s, i) == '&' && At(s, i + 1) == '#'
    requires if hex then At(s, i + 2) in {'x', 'X'} else IsDigit(At(s, i + 2), false)
    ensures MatchesFold(s, i, "&#") && (MatchesFold(s, i, "&#x") <==> hex)
  {
    if !hex { FoldDiffers(s, i, "&#x", 2); }
  }

  /** No entity begins like a numeric reference, and a decimal one has no x. */
  lemma FirstThree(s: string, i: nat, hex: bool, w: string, r: string)
    requires Matches(s, i, r) && w != "" && IsDigit(w[0], hex)
    requires r in (if hex then {"&#x" + w + ";", "&#X" + w + ";"} else {"&#" + w + ";"})
    ensures GetChar(s, i) == NumericRef(s, i, i + if hex then 3 else 2, hex)
  {
    hide NumericRef, Matches, MatchesFold;
    ThirdOf(s, i, hex, w, r);
    NoEntityAt(s, i);
    NumberMark(s, i, hex);
  }

  /** A text in any case. */
  predicate AnyCase(r: string, name: string) {
    |r| == |name| &&
    forall k | 0 <= k < |r| :: r[k] == name[k] || ('A' <= r[k] <= 'Z' && r[k] as int + 32 == name[k] as int)
  }

  /** The five entities every document has. */
  predicate IsEntity(r: string, c: nat) {
    || (c == '"' as int && AnyCase(r, "&quot;")) || (c == '<' as int && AnyCase(r, "&lt;"))
    || (c == '>' as int && AnyCase(r, "&gt;")) || (c == '\'' as int && AnyCase(r, "&apos;"))
    || (c == '&' as int && AnyCase(r, "&amp;"))
  }

  lemma CaseFolds(s: string, i: nat, r: string, name: string)
    requires Matches(s, i, r) && AnyCase(r, name) && forall k | 0 <= k < |name| :: !('A' <= name[k] <= 'Z')
    ensures MatchesFold(s, i, name) && forall k | 0 <= k < |name| :: Lower(At(s, i + k)) == name[k]
  {
    AtIs(s, i, r);
  }

  function NameOf(c: nat): (name: string)
    ensures |name| >= 4 && name[0] == '&' && forall k | 0 <= k < |name| :: !('A' <= name[k] <= 'Z')
  {
    if c == '"' as int then "&quot;" else if c == '<' as int then "&lt;" else if c == '>' as int then "&gt;"
    else if c == '\'' as int then "&apos;" else "&amp;"
  }

  /** An entity's first three letters are enough to tell it from the others. */
  lemma OthersDiffer(s: string, i: nat, c: nat, d: nat)
    requires c != d && c in {34, 60, 62, 39, 38} && d in {34, 60, 62, 39, 38}
    requires forall k | 0 <= k < 3 :: Lower(At(s, i + k)) == NameOf(c)[k]
    ensures !MatchesFold(s, i, NameOf(d))
  {
    assert Lower(At(s, i + 1)) == NameOf(c)[1] && Lower(At(s, i + 2)) == NameOf(c)[2];
    FoldDiffers(s, i, NameOf(d), if NameOf(c)[1] != NameOf(d)[1] then 1 else 2);
  }

  /** Each is read as its character, in any case. */
  lemma EntityReference(s: string, i: nat, r: string, c: nat)
    requires IsEntity(r, c) && Matches(s, i, r)
    ensures GetChar(s, i) == Code(c, |r|) && IsXmlChar(c)
  {
    hide NumericRef, MatchesFold, Lower, Matches;
    CaseFolds(s, i, r, NameOf(c));
    assert Lower(At(s, i + 0)) == NameOf(c)[0];
    OnlyAmpersand(At(s, i));
    if c != 34 { OthersDiffer(s, i, c, 34); }
    if c != 60 { OthersDiffer(s, i, c, 60); }
    if c != 62 { OthersDiffer(s, i, c, 62); }
    if c != 39 { OthersDiffer(s, i, c, 39); }
  }

  lemma OnlyAmpersand(c: char)
    requires Lower(c) == '&'
    ensures c == '&'
  {
  }

  // ---- A whole text ----

  /** The ways to write a character: itself, but not as a bare ampersand; its number; its name. */
  ghost predicate Denotes(r: string, c: nat) {
    IsXmlChar(c) &&
    ((r == IntToUtf8(c) && c != '&' as int) || IsEntity(r, c) || exists w, hex :: IsReference(r, w, c, hex))
  }

  lemma DenotedChar(s: string, i: nat, r: string, c: nat)
    requires Denotes(r, c) && Matches(s, i, r)
    ensures GetChar(s, i) == Code(c, |r|) && |r| > 0
    ensures Copied(GetChar(s, i)) == IntToUtf8(c)
  {
    hide IsEntity, IsReference, GetChar, IntToUtf8;
    if r == IntToUtf8(c) && c != '&' as int {
      GetPlain(s, i, c);
    } else if IsEntity(r, c) {
      EntityReference(s, i, r, c);
    } else {
      var w, hex :| IsReference(r, w, c, hex);
      NumberReference(s, i, r, w, c, hex);
    }
    CopiedIs(s, i);
    assert |r| == GetChar(s, i).len >= 1;
  }

  function Flat(rs: seq<string>): string {
    if rs == [] then "" else rs[0] + Flat(rs[1..])
  }

  function Utf8Of(cs: seq<nat>): string {
    if cs == [] then "" else IntToUtf8(cs[0]) + Utf8Of(cs[1..])
  }

  /** However its characters are written, a text is copied as their UTF-8 form. */
  lemma {:induction false} TextDecoded(s: string, i: nat, rs: seq<string>, cs: seq<nat>)
    requires |rs| == |cs| && (forall k | 0 <= k < |rs| :: Denotes(rs[k], cs[k])) && Matches(s, i, Flat(rs))
    ensures Decode(s, i, i + |Flat(rs)|) == Some(Utf8Of(cs))
    decreases |rs|
  {
    hide Denotes, GetChar, IntToUtf8, Matches;
    if rs != [] {
      var first, rest := rs[0], Flat(rs[1..]);
      MatchesAppend(s, i, first, rest);
      DenotedChar(s, i, first, cs[0]);
      TextDecoded(s, i + |first|, rs[1..], cs[1..]);
    }
  }

  lemma TextCopied(s: string, i: nat, rs: seq<string>, cs: seq<nat>)
    requires |rs| == |cs| > 0 && (forall k | 0 <= k < |rs| :: Denotes(rs[k], cs[k])) && Matches(s, i, Flat(rs))
    ensures CopyToken(s, i, |Flat(rs)|) == Some(Utf8Of(cs))
  {
    hide Denotes, GetChar, IntToUtf8, Matches, Decode, Utf8Of;
    TextDecoded(s, i, rs, cs);
    MatchesAppend(s, i, rs[0], Flat(rs[1..]));
    DenotedChar(s, i, rs[0], cs[0]);
  }
}
