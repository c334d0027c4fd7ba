/** The other direction of reading: every document that is accepted was written in pieces, each of
    which is a written form of what was read from it. */
module XmlAccepted {
  import opened Wrappers
  import opened XmlChars
  import opened XmlText
  import opened XmlReferences
  import opened XmlSyntax
  import opened XmlTokens
  import opened XmlNesting
  import opened XmlForms
  import opened XmlWritten

  // ---- Between tokens ----

  /** A comment up to its first end mark, with no hyphen before that; `<!-->` passes for one. */
  predicate CommentText(w: string) {
    && |w| >= 5 && Matches(w, 0, "<!--") && Matches(w, |w| - 3, "-->") && w[|w| - 4] != '-'
    && forall k | 0 <= k < |w| - 3 :: !Matches(w, k, "-->")
  }

  /** An instruction up to its first end mark, other than a declaration of XML; `<?>` passes for one. */
  predicate InstructionText(w: string) {
    && |w| >= 3 && Matches(w, 0, "<?") && Matches(w, |w| - 2, "?>")
    && (forall k | 0 <= k < |w| - 2 :: !Matches(w, k, "?>"))
    && (|w| >= 6 ==> !AnyCase(w[..6], "<?xml ") && !AnyCase(w[..6], "<?xml?"))
  }

  predicate NoteText(w: string) {
    CommentText(w) || InstructionText(w)
  }

  /** White space, comments and instructions. */
  ghost predicate Gap(w: string)
    decreases |w|
  {
    White(w) || exists k, l | 0 <= k < l <= |w| :: White(w[..k]) && NoteText(w[k..l]) && Gap(w[l..])
  }

  lemma GapMore(w: string, note: string, rest: string)
    requires White(w) && NoteText(note) && Gap(rest)
    ensures Gap(w + (note + rest))
  {
    hide NoteText, White, Gap;
    var all := w + (note + rest);
    var k, l := |w|, |w| + |note|;
    assert all[..k] == w && all[k..l] == note && all[l..] == rest;
    NoteNonempty(note);
    GapIs(all, k, l);
  }

  lemma NoteNonempty(w: string)
    requires NoteText(w)
    ensures w != ""
  {
  }

  lemma GapIs(w: string, k: nat, l: nat)
    requires k < l <= |w| && White(w[..k]) && NoteText(w[k..l]) && Gap(w[l..])
    ensures Gap(w)
  {
    hide NoteText, White;
  }

  lemma GapWhite(w: string)
    requires White(w)
    ensures Gap(w)
  {
  }

  /** White space in front of a gap belongs to it. */
  lemma WhiteBefore(w: string, g: string)
    requires White(w) && Gap(g)
    ensures Gap(w + g)
  {
    hide NoteText;
    if White(g) {
      GapWhite(w + g);
    } else {
      var k, l :| 0 <= k < l <= |g| && White(g[..k]) && NoteText(g[k..l]) && Gap(g[l..]);
      assert White(w + g[..k]);
      GapMore(w + g[..k], g[k..l], g[l..]);
      assert w + g == (w + g[..k]) + (g[k..l] + g[l..]);
    }
  }

  lemma {:induction false} SpacesWhite(s: string, i: nat)
    requires i <= |s|
    ensures SkipSpaces(s, i) <= |s| && White(s[i..SkipSpaces(s, i)])
    decreases |s| - i
  {
    if i < |s| && IsSpace(s[i]) {
      SpacesWhite(s, i + 1);
      assert s[i..SkipSpaces(s, i)] == [s[i]] + s[i + 1..SkipSpaces(s, i)];
    }
  }

  lemma {:induction false} FoundFirst(s: string, i: nat, key: string)
    requires key != "" && Find(s, i, key).Some?
    ensures forall k | i <= k < Find(s, i, key).value :: !Matches(s, k, key)
    decreases |s| - i
  {
    if !Matches(s, i, key) && i < |s| { FoundFirst(s, i + 1, key); }
  }

  lemma Cut(s: string, i: nat, e: nat, k: nat, key: string)
    requires i <= e <= |s|
    ensures i + k + |key| <= e ==> (Matches(s[i..e], k, key) <==> Matches(s, i + k, key))
    ensures Matches(s[i..e], k, key) ==> Matches(s, i + k, key)
  {
    if i + k + |key| <= e {
      var a, b := s[i..e][k..k + |key|], s[i + k..i + k + |key|];
      assert forall j | 0 <= j < |key| :: a[j] == b[j];
      assert a == b;
    }
  }

  lemma FoldCut(s: string, i: nat, e: nat, name: string)
    requires i + |name| <= e <= |s| && AnyCase(s[i..e][..|name|], name)
    requires forall k | 0 <= k < |name| :: !('A' <= name[k] <= 'Z')
    ensures MatchesFold(s, i, name)
  {
    var r := s[i..e][..|name|];
    forall k | 0 <= k < |name| ensures Lower(At(s, i + k)) == name[k] {
      assert r[k] == At(s, i + k);
    }
  }

  lemma CommentPassed(s: string, i: nat)
    requires MatchesFold(s, i, "<!--") && SkipComment(s, i).Some?
    ensures var j := SkipComment(s, i).value; i < j <= |s| && CommentText(s[i..j])
  {
    hide Find, Matches;
    FoundFirst(s, i, "-->");
    var j := Find(s, i, "-->").value + 3;
    FoldSame(s, i);
    MatchesThree(s, j - 3);
    var w := s[i..j];
    Cut(s, i, j, 0, "<!--");
    Cut(s, i, j, |w| - 3, "-->");
    forall k | 0 <= k < |w| - 3 ensures !Matches(w, k, "-->") { Cut(s, i, j, k, "-->"); }
  }

  /** The mark of a comment has no letters; its end cannot stand inside it. */
  lemma FoldSame(s: string, i: nat)
    requires MatchesFold(s, i, "<!--")
    ensures Matches(s, i, "<!--") && !Matches(s, i, "-->") && !Matches(s, i + 1, "-->")
  {
    var w := "<!--";
    assert Lower(At(s, i + 0)) == w[0] && Lower(At(s, i + 1)) == w[1];
    assert Lower(At(s, i + 2)) == w[2] && Lower(At(s, i + 3)) == w[3];
    assert s[i] == '<' && s[i + 1] == '!' && s[i + 2] == '-' && s[i + 3] == '-';
    assert s[i..i + 4] == "<!--";
  }

  lemma MatchesThree(s: string, i: nat)
    requires Matches(s, i, "-->")
    ensures i + 3 <= |s|
  {
  }

  lemma InstructionPassed(s: string, i: nat)
    requires i <= |s| && MatchesFold(s, i, "<?") && !AtXmlDecl(s, i) && Find(s, i, "?>").Some?
    ensures var j := Find(s, i, "?>").value + 2; i < j <= |s| && InstructionText(s[i..j])
  {
    hide Find, Matches, MatchesFold, AnyCase;
    FoundFirst(s, i, "?>");
    var j := Find(s, i, "?>").value + 2;
    OpenSame(s, i);
    MatchesTwice(s, j - 2);
    var w := s[i..j];
    Cut(s, i, j, 0, "<?");
    Cut(s, i, j, |w| - 2, "?>");
    forall k | 0 <= k < |w| - 2 ensures !Matches(w, k, "?>") { Cut(s, i, j, k, "?>"); }
    if |w| >= 6 && AnyCase(w[..6], "<?xml ") { FoldCut(s, i, j, "<?xml "); }
    if |w| >= 6 && AnyCase(w[..6], "<?xml?") { FoldCut(s, i, j, "<?xml?"); }
  }

  lemma OpenSame(s: string, i: nat)
    requires MatchesFold(s, i, "<?")
    ensures Matches(s, i, "<?") && !Matches(s, i, "?>")
  {
    var w := "<?";
    assert Lower(At(s, i + 0)) == w[0] && Lower(At(s, i + 1)) == w[1];
    assert s[i] == '<' && s[i + 1] == '?';
    assert s[i..i + 2] == "<?";
  }

  lemma MatchesTwice(s: string, i: nat)
    requires Matches(s, i, "?>")
    ensures i + 2 <= |s|
  {
  }

  /** What is skipped is white space, comments and instructions. */
  lemma {:induction false} SkippedIsGap(s: string, i: nat)
    requires i <= |s| && SkipMisc(s, i).ok
    ensures i <= SkipMisc(s, i).pos && Gap(s[i..SkipMisc(s, i).pos])
    decreases |s| - i
  {
    hide MatchesFold, AtXmlDecl, Gap, NoteText, SkipComment, SkipSpaces, Find, White;
    var e := SkipMisc(s, i).pos;
    if MatchesFold(s, i, "<!--") {
      CommentPassed(s, i);
      NoteAhead(s, i, SkipComment(s, i).value, e);
    } else if !AtXmlDecl(s, i) && MatchesFold(s, i, "<?") {
      InstructionPassed(s, i);
      NoteAhead(s, i, SkipString(s, i, "?>").pos, e);
    } else {
      SpacesWhite(s, i);
      GapWhite(s[i..e]);
    }
  }

  lemma {:induction false} NoteAhead(s: string, i: nat, j: nat, e: nat)
    requires i < j <= |s| && (CommentText(s[i..j]) || InstructionText(s[i..j]))
    requires SkipMisc(s, SkipSpaces(s, j)) == Skip(true, e)
    ensures i <= e <= |s| && Gap(s[i..e])
    decreases |s| - i, 0
  {
    hide Gap, SkipMisc, SkipSpaces, White, CommentText, InstructionText;
    var k := SkipSpaces(s, j);
    SpacesWhite(s, j);
    SkippedIsGap(s, k);
    assert NoteText(s[i..j]);
    WhiteBefore(s[j..k], s[k..e]);
    NoSpace();
    GapMore("", s[i..j], s[j..k] + s[k..e]);
    assert s[i..e] == "" + (s[i..j] + (s[j..k] + s[k..e]));
  }

  lemma NoSpace()
    ensures White("")
  {
  }

  // ---- Tokens ----

  /** The marks stand as they are; a name may be written in more bytes than it needs. */
  ghost predicate TokenText(raw: string, t: string) {
    || (raw == t && t in {"<", "</", "=", "/>", ">", "\"", "'"})
    || (IsName(t) && Spoken(raw, t))
  }

  /** Token t, behind white space, comments and instructions. */
  ghost predicate Reads(w: string, t: string) {
    exists k | 0 <= k <= |w| :: Gap(w[..k]) && TokenText(w[k..], t)
  }

  lemma NameGets(s: string, p: nat, inside: bool)
    requires p < |s| && IsNameChar(Utf8ToInt(s, p), inside)
    ensures GetChar(s, p) == Utf8ToInt(s, p) && Utf8ToInt(s, p).c != '&' as int
  {
    hide IsHighLetter, IsHighMark, Gather, Tails, NumericRef;
    NameIsCode(Utf8ToInt(s, p), inside);
    NameCharIsXmlChar(Utf8ToInt(s, p), inside);
    if s[p] as int < 0x80 { LowCode(s, p); }
  }

  lemma {:induction false} NameDecoded(s: string, p: nat)
    requires p <= |s| && Decode(s, p, NameEnd(s, p)).Some?
    ensures NameChars(Decode(s, p, NameEnd(s, p)).value)
    decreases |s| - p
  {
    hide GetChar, Utf8ToInt, IsNameChar, NameChars, IntToUtf8;
    var d := Utf8ToInt(s, p);
    if p < |s| && IsNameChar(d, true) {
      NameIsCode(d, true);
      NameGets(s, p, true);
      NameDecoded(s, p + d.len);
      CopiedIs(s, p);
      NameMore(d, Decode(s, p + d.len, NameEnd(s, p)).value);
    } else {
      NoNameChars();
    }
  }

  lemma NoNameChars()
    ensures NameChars("")
  {
  }

  lemma NameMore(d: Decoded, w: string)
    requires IsNameChar(d, true) && NameChars(w)
    ensures NameChars(IntToUtf8(d.c) + w)
    ensures IsNameChar(d, false) ==> IsName(IntToUtf8(d.c) + w)
  {
    hide IsHighLetter, IsHighMark, Utf8ToInt, IntToUtf8;
    NameCharIsXmlChar(d, true);
    XmlCharRange(d.c);
    EncodedLead(d.c);
    var u := IntToUtf8(d.c);
    var n := u + w;
    assert n[..|u|] == u && n[|u|..] == w;
    assert Matches(n, 0, u);
    DecodeEncoded(n, 0, d.c);
  }

  lemma NameRead(s: string, p: nat)
    requires p < |s| && IsNameChar(Utf8ToInt(s, p), false)
    requires Decode(s, p, NameEnd(s, p + Utf8ToInt(s, p).len)).Some?
    ensures IsName(Decode(s, p, NameEnd(s, p + Utf8ToInt(s, p).len)).value)
  {
    hide GetChar, Utf8ToInt, IsHighLetter, IsHighMark, NameChars, IntToUtf8, IsName;
    var d := Utf8ToInt(s, p);
    NameGets(s, p, false);
    CopiedIs(s, p);
    NameDecoded(s, p + d.len);
    NameMore(d, Decode(s, p + d.len, NameEnd(s, p + d.len)).value);
  }

  lemma MarkRead(s: string, p: nat)
    requires p < |s| && s[p] in {'"', '\'', '<', '=', '/', '>'} && TokenLength(s, p) > 0
    requires CopyToken(s, p, TokenLength(s, p)).Some?
    ensures var e := p + TokenLength(s, p); e <= |s| && TokenText(s[p..e], CopyToken(s, p, e - p).value)
  {
    hide GetChar, Utf8ToInt, IsNameChar, CopyToken, Decode;
    if TokenLength(s, p) == 1 {
      CopyAscii(s, p);
      assert s[p..p + 1] == [s[p]];
    } else if s[p] == '/' {
      CopyAscii2(s, p);
      assert s[p..p + 2] == "/>";
    } else {
      if s[p + 1] != '/' { OverlongStays(s, p); }
      CopyAscii2(s, p);
      assert s[p..p + 2] == "</";
    }
  }

  lemma OverlongStays(s: string, p: nat)
    requires p + 1 < |s| && s[p] == '<' && s[p + 1] != '/'
    requires Utf8ToInt(s, p + 1).Code? && Utf8ToInt(s, p + 1).c == '/' as int
    ensures CopyToken(s, p, 2) == None
  {
    SlashMany(s, p + 1);
    CopyAscii(s, p);
    hide Utf8ToInt, GetChar;
    assert Decode(s, p + 1, p + 2).None?;
  }

  lemma SlashMany(s: string, i: nat)
    requires i < |s| && s[i] != '/' && Utf8ToInt(s, i).Code? && Utf8ToInt(s, i).c == '/' as int
    ensures GetChar(s, i) == Utf8ToInt(s, i) && Utf8ToInt(s, i).len > 1
  {
    hide Tails, Gather;
  }

  /** A token that is read stands behind a gap. */
  lemma TokenRead(s: string, i: nat)
    requires i <= |s| && NextToken(s, i).text != ""
    ensures var t := NextToken(s, i); i < t.pos <= |s| && Reads(s[i..t.pos], t.text)
  {
    hide GetChar, Utf8ToInt, IsNameChar, NameEnd, SkipMisc, Gap, Decode, TokenText;
    var t := NextToken(s, i);
    var p := SkipMisc(s, i).pos;
    SkippedIsGap(s, i);
    if i < |s| {
      var w := s[i..t.pos];
      assert w[..p - i] == s[i..p] && w[p - i..] == s[p..t.pos];
      TokenAt(s, p);
    }
  }

  lemma TokenAt(s: string, p: nat)
    requires p <= |s| && CopyToken(s, p, TokenLength(s, p)).Some?
    ensures var e := p + TokenLength(s, p); p < e <= |s| && TokenText(s[p..e], CopyToken(s, p, e - p).value)
  {
    hide GetChar, Utf8ToInt, IsNameChar, NameEnd, Decode, TokenText, IsName, Spoken;
    var e := p + TokenLength(s, p);
    if p < |s| && s[p] in {'"', '\'', '<', '=', '/', '>'} {
      MarkRead(s, p);
    } else if p < |s| {
      NameRead(s, p);
      TextWritten(s, p, e);
      NameText(s[p..e], CopyToken(s, p, e - p).value);
    }
  }

  lemma NameText(raw: string, t: string)
    requires IsName(t) && Spoken(raw, t)
    ensures TokenText(raw, t)
  {
  }

  // ---- Nodes ----

  /** What may follow a name or a value that was looked past: nothing, the end of the tag, or the
      gap in front of the mark that closes an empty element. */
  ghost predicate LookedPast(w: string) {
    w == "" || Reads(w, ">") || Gap(w)
  }

  /** An opening bracket with a name right behind it. */
  ghost predicate StartText(w: string, name: string) {
    IsName(name) && ':' !in name && exists k, l | 0 <= k <= l <= |w| ::
      Reads(w[..k], "<") && Spoken(w[k..l], name) && LookedPast(w[l..])
  }

  /** A name and a value between like quotes, with neither `<` nor that quote inside it. */
  ghost predicate AttrText(w: string, name: string, value: Option<string>) {
    IsName(name) && !IsNamespaceDecl(name) && exists j, k, l, m | 0 <= j <= k <= l <= m < |w| ::
      Reads(w[..j], name) && Reads(w[j..k], "=") && w[m] in {'"', '\''} && Reads(w[k..l], [w[m]])
      && ValueText(w[l..m], w[m], value) && LookedPast(w[m + 1..])
  }

  ghost predicate ValueText(raw: string, quote: char, value: Option<string>) {
    && quote !in raw && '<' !in raw
    && (if raw == "" then value == None else value.Some? && exists u :: Spoken(raw, u) && Trims(u, value.value))
  }

  ghost predicate CharText(w: string, text: string) {
    && !White(w) && '<' !in w && (forall k | 0 <= k <= |w| :: !Matches(w, k, "]]>"))
    && exists u :: Spoken(w, u) && Trims(u, text)
  }

  ghost predicate EndText(w: string, name: string) {
    || Reads(w, "/>")
    || exists j, k, l | 0 <= j <= k <= l <= |w| ::
         Reads(w[..j], "</") && Reads(w[j..k], name) && White(w[k..l]) && Reads(w[l..], ">")
  }

  /** An instruction that the text ends in. */
  ghost predicate Unended(w: string) {
    Matches(w, 0, "<?") && forall k | 0 <= k <= |w| :: !Matches(w, k, "?>")
  }

  /** Text that is passed over: white space, notes, a stray bracket, or the rest of a text without an element. */
  ghost predicate NothingText(w: string) {
    || Gap(w) || Reads(w, ">")
    || exists k | 0 <= k <= |w| :: Gap(w[..k]) && Unended(w[k..])
  }

  /** w is a way to write n. */
  ghost predicate WrittenAs(w: string, n: Next) {
    match n
    case StartNode(name) => StartText(w, name)
    case AttrNode(name, value) => AttrText(w, name, value)
    case TextNode(text) => CharText(w, text)
    case EndNode(name) => EndText(w, name)
    case NoNode => NothingText(w)
    case _ => false
  }

  /** A trimmed text is what is left of it without the blanks in front. */
  lemma {:induction false} TrimStartBack(w: string, i: nat)
    requires i <= |w|
    ensures var k := TrimStart(w, i);
            && k <= |w| && (forall j | i <= j < k :: IsBlank(w[j]) && w[j] != '\n')
            && (k < |w| ==> !IsBlank(w[k]) || w[k] == '\n')
    decreases |w| - i
  {
    if i < |w| && IsBlank(w[i]) && w[i] != '\n' { TrimStartBack(w, i + 1); }
  }

  lemma TrimmedBack(w: string)
    requires Trim(w).Some?
    ensures Trims(w, Trim(w).value)
  {
    TrimStartBack(w, 0);
    assert TrimsAt(w, Trim(w).value, TrimStart(w, 0));
  }

  lemma ValueWritten(s: string, i: nat, e: nat, quote: char)
    requires i <= e <= |s| && QuotedValue(s, i, e).0.NoNode? && NoBareLess(s, i, e) && quote !in s[i..e]
    ensures ValueText(s[i..e], quote, QuotedValue(s, i, e).1)
  {
    hide Decode, NoBareLess, Trim, Spoken, Trims;
    if i < e {
      var u := Decode(s, i, e).value;
      TextWritten(s, i, e);
      ValueClean(s, i, e);
      LessNone(s, i, e);
      TrimmedBack(u);
      assert Spoken(s[i..e], u) && Trims(u, Trim(u).value);
    }
  }

  lemma LessNone(s: string, i: nat, e: nat)
    requires i <= e <= |s| && NoLess(s, i, e)
    ensures '<' !in s[i..e]
  {
    forall k | 0 <= k < e - i ensures s[i..e][k] != '<' {
      assert s[i..e][k] == At(s, i + k);
    }
  }

  lemma QuoteFound(s: string, i: nat, quote: char)
    requires i <= |s| && Find(s, i, [quote]).Some?
    ensures var e := Find(s, i, [quote]).value; i <= e < |s| && s[e] == quote && quote !in s[i..e]
  {
    hide Find;
    FoundFirst(s, i, [quote]);
    var e := Find(s, i, [quote]).value;
    assert s[e..e + 1] == [quote];
    forall k | 0 <= k < e - i ensures s[i..e][k] != quote {
      assert s[i + k..i + k + 1] == [s[i + k]];
      assert Matches(s, i + k, [quote]) <==> s[i + k] == quote;
    }
  }

  /** The pieces of a text from i on. */
  lemma Piece(s: string, i: nat, a: nat, b: nat, e: nat)
    requires i <= a <= b <= e <= |s|
    ensures s[i..e][a - i..b - i] == s[a..b] && s[i..e][..b - i] == s[i..b] && s[i..e][a - i..] == s[a..e]
  {
    SubText(s, i, e, a - i, b - i);
    SubText(s, i, e, 0, b - i);
    SubText(s, i, e, a - i, e - i);
  }

  lemma SubText(s: string, i: nat, e: nat, j: nat, k: nat)
    requires i <= e <= |s| && j <= k <= e - i
    ensures s[i..e][j..k] == s[i + j..i + k]
  {
    var a, b := s[i..e][j..k], s[i + j..i + k];
    assert |a| == |b|;
    forall n | 0 <= n < |a| ensures a[n] == b[n] {
      assert a[n] == s[i..e][j + n] == s[i + j + n];
    }
  }

  lemma LookedOn(s: string, i: nat, e: nat, t: Token)
    requires i <= |s| && t == NextToken(s, i) && t.text != ""
    requires e == if t.text == ">" then t.pos else if t.text == "/>" then SkipMisc(s, i).pos else i
    ensures i <= e <= |s| && LookedPast(s[i..e])
  {
    hide NextToken, Gap, Reads, SkipMisc;
    if t.text == ">" {
      TokenRead(s, i);
    } else if t.text == "/>" {
      MiscBefore(s, i);
      SkippedIsGap(s, i);
    }
  }

  lemma MiscBefore(s: string, i: nat)
    requires i <= |s| && NextToken(s, i).text != ""
    ensures SkipMisc(s, i).ok
  {
    hide CopyToken, TokenLength;
    if i == |s| { MiscAtEnd(s); }
  }

  lemma MiscAtEnd(s: string)
    ensures SkipMisc(s, |s|) == Skip(true, |s|)
  {
    SkipMiscPlain(s, |s|);
  }

  lemma AttributeWritten(s: string, i: nat, st: State, name: string)
    requires i <= st.pos <= |s| && Reads(s[i..st.pos], name) && Attribute(s, st, name).0.AttrNode?
    ensures var (n, st1) := Attribute(s, st, name);
            i <= st1.pos <= |s| && n.name == name && AttrText(s[i..st1.pos], name, n.value)
  {
    hide NextToken, IsNameChar, Utf8ToInt, Reads, AfterAttribute, Find, NoBareLess, QuotedValue, ValueText, LookedPast,
         IsName, IsNamespaceDecl, SkipMisc;
    var (n, st1) := Attribute(s, st, name);
    var eq := NextToken(s, st.pos);
    var q := NextToken(s, eq.pos);
    TokenRead(s, st.pos);
    TokenRead(s, eq.pos);
    MarkToken(s[st.pos..eq.pos], eq.text, '=');
    MarkToken(s[eq.pos..q.pos], q.text, q.text[0]);
    QuoteFound(s, q.pos, q.text[0]);
    var e := Find(s, q.pos, q.text).value;
    ValueWritten(s, q.pos, e, q.text[0]);
    LookedFurther(s, st.(pos := e + 1));
    NameToken(s[i..st.pos], name);
    AttrPieces(s, i, st.pos, eq.pos, q.pos, e, st1.pos, name, n.value);
  }

  lemma AttrPieces(s: string, i: nat, a: nat, b: nat, c: nat, e: nat, z: nat, name: string, value: Option<string>)
    requires i <= a <= b <= c <= e < z <= |s| && IsName(name) && !IsNamespaceDecl(name)
    requires Reads(s[i..a], name) && Reads(s[a..b], "=") && s[e] in {'"', '\''} && Reads(s[b..c], [s[e]])
    requires ValueText(s[c..e], s[e], value) && LookedPast(s[e + 1..z])
    ensures AttrText(s[i..z], name, value)
  {
    hide Reads, ValueText, LookedPast, IsName, IsNamespaceDecl, AttrText;
    Piece(s, i, i, a, z);
    Piece(s, i, a, b, z);
    Piece(s, i, b, c, z);
    Piece(s, i, c, e, z);
    Piece(s, i, e + 1, z, z);
    AttrIs(s[i..z], name, value, a - i, b - i, c - i, e - i);
  }

  lemma AttrIs(w: string, name: string, value: Option<string>, j: nat, k: nat, l: nat, m: nat)
    requires IsName(name) && !IsNamespaceDecl(name) && j <= k <= l <= m < |w|
    requires Reads(w[..j], name) && Reads(w[j..k], "=") && w[m] in {'"', '\''} && Reads(w[k..l], [w[m]])
    requires ValueText(w[l..m], w[m], value) && LookedPast(w[m + 1..])
    ensures AttrText(w, name, value)
  {
    hide Reads, ValueText, LookedPast, IsName, IsNamespaceDecl;
  }

  /** A token that begins with a mark is that mark. */
  lemma MarkToken(w: string, t: string, c: char)
    requires Reads(w, t) && t != "" && t[0] == c && c in {'=', '"', '\''}
    ensures t == [c]
  {
    hide Gap, Spoken, IsName;
    if IsName(t) { NameStart(t); }
  }

  lemma NameToken(w: string, t: string)
    requires Reads(w, t) && IsNameChar(Utf8ToInt(t, 0), false)
    ensures IsName(t)
  {
    hide Gap, Spoken, IsName, IsHighLetter, IsHighMark;
  }

  lemma LookedFurther(s: string, st: State)
    requires st.pos <= |s| && AfterAttribute(s, st).0
    ensures var e := AfterAttribute(s, st).1.pos; st.pos <= e <= |s| && LookedPast(s[st.pos..e])
  {
    hide NextToken, LookedPast, SkipMisc;
    LookedOn(s, st.pos, AfterAttribute(s, st).1.pos, NextToken(s, st.pos));
  }

  // ---- Turns ----

  /** The token of an opening bracket ends where a name begins. */
  lemma OpenRead(s: string, i: nat)
    requires i <= |s| && NextToken(s, i).text == "<"
    ensures var q := NextToken(s, i).pos; q < |s| && IsNameChar(Utf8ToInt(s, q), false)
  {
    hide Utf8ToInt, IsNameChar, NameEnd, SkipMisc, Decode, Gap, Spoken, IsName;
    var p := SkipMisc(s, i).pos;
    var m := TokenLength(s, p);
    TokenAt(s, p);
    NoNameText(s[p..p + m]);
    assert s[p..p + m][0] == s[p];
    NameAhead(s, p + 1);
  }

  lemma NoNameText(raw: string)
    requires TokenText(raw, "<")
    ensures raw == "<"
  {
    hide Spoken, IsName;
    if IsName("<") { NameStart("<"); }
  }

  lemma NameAhead(s: string, p: nat)
    requires IsNameChar(Utf8ToInt(s, p), false)
    ensures p < |s|
  {
    hide IsHighLetter, IsHighMark;
    if At(s, p) as int < 0x80 { LowCode(s, p); }
  }

  /** Where a name begins, the token is that name, with no gap. */
  lemma NameHere(s: string, p: nat)
    requires p < |s| && IsNameChar(Utf8ToInt(s, p), false) && NextToken(s, p).text != ""
    ensures var t := NextToken(s, p); p < t.pos <= |s| && IsName(t.text) && Spoken(s[p..t.pos], t.text)
  {
    hide Utf8ToInt, IsNameChar, NameEnd, Decode, IsName, Spoken;
    NoMark(s, p);
    SkipMiscPlain(s, p);
    SkipOneSpace(s, p, p);
    hide SkipMisc, SkipSpaces;
    assert SkipMisc(s, p) == Skip(true, p);
    assert TokenLength(s, p) == NameEnd(s, p + Utf8ToInt(s, p).len) - p;
    NameRead(s, p);
    TextWritten(s, p, NextToken(s, p).pos);
  }

  lemma NoMark(s: string, p: nat)
    requires p < |s| && IsNameChar(Utf8ToInt(s, p), false)
    ensures s[p] !in {'"', '\'', '<', '=', '/', '>'} && !IsSpace(s[p]) && Utf8ToInt(s, p).Code?
  {
    hide IsHighLetter, IsHighMark;
    if s[p] as int < 0x80 { LowCode(s, p); }
  }

  lemma StartWritten(s: string, i: nat, st: State)
    requires i <= st.pos < |s| && Reads(s[i..st.pos], "<") && IsNameChar(Utf8ToInt(s, st.pos), false)
    requires STag(s, st).0.StartNode?
    ensures var (n, st1) := STag(s, st); i <= st1.pos <= |s| && StartText(s[i..st1.pos], n.name)
  {
    hide NextToken, IsNameChar, Utf8ToInt, Reads, LookedPast, IsName, SkipMisc, Spoken;
    var (n, st1) := STag(s, st);
    var t := NextToken(s, st.pos);
    NameHere(s, st.pos);
    LookedOn(s, t.pos, st1.pos, NextToken(s, t.pos));
    Piece(s, i, st.pos, t.pos, st1.pos);
    Piece(s, i, i, st.pos, st1.pos);
    Piece(s, i, t.pos, st1.pos, st1.pos);
    var w, k, l := s[i..st1.pos], st.pos - i, t.pos - i;
    assert Reads(w[..k], "<") && Spoken(w[k..l], n.name) && LookedPast(w[l..]);
  }

  lemma EndWritten(s: string, i: nat, st: State)
    requires i <= st.pos <= |s| && Reads(s[i..st.pos], "</") && ETag(s, st).0.EndNode?
    ensures var (n, st1) := ETag(s, st); i <= st1.pos <= |s| && EndText(s[i..st1.pos], n.name)
  {
    hide NextToken, Reads, SkipSpaces, White;
    var (n, st1) := ETag(s, st);
    var t := NextToken(s, st.pos);
    var q := SkipSpaces(s, t.pos);
    TokenRead(s, st.pos);
    SpacesWhite(s, t.pos);
    TokenRead(s, q);
    Piece(s, i, i, st.pos, st1.pos);
    Piece(s, i, st.pos, t.pos, st1.pos);
    Piece(s, i, t.pos, q, st1.pos);
    Piece(s, i, q, st1.pos, st1.pos);
    var w, j, k, l := s[i..st1.pos], st.pos - i, t.pos - i, q - i;
    assert Reads(w[..j], "</") && Reads(w[j..k], n.name) && White(w[k..l]) && Reads(w[l..], ">");
  }

  lemma OnTokenWritten(s: string, i: nat, st: State, text: string)
    requires i <= st.pos <= |s| && st.mode != ContentMode && text != "" && Reads(s[i..st.pos], text)
    requires text == "<" ==> st.pos < |s| && IsNameChar(Utf8ToInt(s, st.pos), false)
    ensures var (n, st1) := OnToken(s, st, text);
            i <= st1.pos <= |s| && (n.Error? || n.Undefined? || WrittenAs(s[i..st1.pos], n))
  {
    hide STag, ETag, Attribute, IsNameChar, Utf8ToInt, Reads, StartText, AttrText, EndText;
    FirstMark(s[i..st.pos], text);
    var (n, st1) := OnToken(s, st, text);
    if text == "</" {
      if n.EndNode? { EndWritten(s, i, st); }
    } else if text == "<" {
      if n.StartNode? { StartWritten(s, i, st); }
    } else if text == "/>" {
      if n.EndNode? { EmptyWritten(s[i..st.pos], n); }
    } else if n.AttrNode? {
      AttributeWritten(s, i, st, text);
    }
  }

  lemma EmptyWritten(w: string, n: Next)
    requires Reads(w, "/>") && n.EndNode?
    ensures WrittenAs(w, n)
  {
  }

  lemma FirstMark(w: string, t: string)
    requires Reads(w, t) && t != ""
    ensures t[0] == '>' ==> t == ">"
    ensures t[0] == '<' ==> t == "<" || t == "</"
  {
    hide Gap, Spoken, IsName;
    if IsName(t) { NameStart(t); }
  }

  /** Where no text is left, the skipping ran into an instruction without an end, or over everything. */
  lemma {:induction false} NothingLeft(s: string, i: nat)
    requires i <= |s| && SkipMisc(s, i).pos == |s|
    ensures NothingText(s[i..])
    decreases |s| - i
  {
    hide Gap, White, NoteText;
    if SkipMisc(s, i).ok {
      SkippedIsGap(s, i);
      assert s[i..|s|] == s[i..];
    } else {
      var k := LastGap(s, i);
      assert s[i..][..k - i] == s[i..k] && s[i..][k - i..] == s[k..];
    }
  }

  lemma {:induction false} LastGap(s: string, i: nat) returns (k: nat)
    requires i <= |s| && SkipMisc(s, i) == Skip(false, |s|)
    ensures i <= k <= |s| && Gap(s[i..k]) && Unended(s[k..])
    decreases |s| - i
  {
    hide MatchesFold, AtXmlDecl, Gap, NoteText, SkipComment, SkipSpaces, Find, White, Unended;
    MarkStays(s, i);
    if MatchesFold(s, i, "<!--") {
      CommentPassed(s, i);
      k := NoteThenLast(s, i, SkipComment(s, i).value);
    } else {
      OpenSame(s, i);
      if Find(s, i, "?>").Some? {
        InstructionPassed(s, i);
        k := NoteThenLast(s, i, SkipString(s, i, "?>").pos);
      } else {
        k := i;
        NeverEnds(s, i);
        NoSpace();
        GapWhite("");
        assert s[i..i] == "";
      }
    }
  }

  lemma {:induction false} NoteThenLast(s: string, i: nat, j: nat) returns (k: nat)
    requires i < j <= |s| && (CommentText(s[i..j]) || InstructionText(s[i..j]))
    requires SkipMisc(s, SkipSpaces(s, j)) == Skip(false, |s|)
    ensures i <= k <= |s| && Gap(s[i..k]) && Unended(s[k..])
    decreases |s| - i, 0
  {
    hide Gap, SkipMisc, SkipSpaces, White, CommentText, InstructionText, Unended;
    var p := SkipSpaces(s, j);
    SpacesWhite(s, j);
    k := LastGap(s, p);
    assert NoteText(s[i..j]);
    WhiteBefore(s[j..p], s[p..k]);
    NoSpace();
    GapMore("", s[i..j], s[j..p] + s[p..k]);
    assert s[i..k] == "" + (s[i..j] + (s[j..p] + s[p..k]));
  }

  /** A comment without an end and a declaration of XML stop the skipping where they stand. */
  lemma MarkStays(s: string, i: nat)
    requires i <= |s| && SkipMisc(s, i) == Skip(false, |s|)
    ensures MatchesFold(s, i, "<!--") ==> SkipComment(s, i).Some?
    ensures !MatchesFold(s, i, "<!--") ==> !AtXmlDecl(s, i) && MatchesFold(s, i, "<?")
  {
    hide MatchesFold, AtXmlDecl, SkipComment;
    if MatchesFold(s, i, "<!--") {
      FoldSame(s, i);
      StandsAt(s, i, "<!--");
    } else if AtXmlDecl(s, i) {
      DeclIsInstruction(s, i);
      OpenSame(s, i);
      StandsAt(s, i, "<?");
    }
  }

  lemma StandsAt(s: string, i: nat, w: string)
    requires Matches(s, i, w) && w != "" && w[0] == '<'
    ensures i < |s| && SkipSpaces(s, i) == i
  {
    assert s[i..i + |w|][0] == s[i];
  }

  lemma {:induction false} NeverFound(s: string, i: nat, k: nat, key: string)
    requires key != "" && Find(s, i, key).None? && i <= k
    ensures !Matches(s, k, key)
    decreases |s| - i
  {
    if i < k && i < |s| { NeverFound(s, i + 1, k, key); }
  }

  lemma NeverEnds(s: string, i: nat)
    requires i <= |s| && Matches(s, i, "<?") && Find(s, i, "?>").None?
    ensures Unended(s[i..])
  {
    hide Find, Matches;
    var w := s[i..];
    assert w == s[i..|s|];
    FitsIn(s, i);
    Cut(s, i, |s|, 0, "<?");
    forall k | 0 <= k <= |w| ensures !Matches(w, k, "?>") {
      NeverFound(s, i, i + k, "?>");
      Cut(s, i, |s|, k, "?>");
    }
  }

  lemma FitsIn(s: string, i: nat)
    requires Matches(s, i, "<?")
    ensures i + 2 <= |s|
  {
  }

  lemma {:induction false} TextEndIs(s: string, i: nat)
    requires i <= |s|
    ensures forall k | i <= k < TextEnd(s, i) :: s[k] != '<' && !Matches(s, k, "]]>")
    decreases |s| - i
  {
    if i < |s| && s[i] != '<' && !Matches(s, i, "]]>") { TextEndIs(s, i + 1); }
  }

  lemma {:induction false} NoSpaceThere(s: string, i: nat)
    requires i <= |s|
    ensures SkipSpaces(s, i) < |s| ==> !IsSpace(s[SkipSpaces(s, i)])
    ensures forall k | i <= k < SkipSpaces(s, i) :: k < |s| && IsSpace(s[k])
    decreases |s| - i
  {
    if i < |s| && IsSpace(s[i]) { NoSpaceThere(s, i + 1); }
  }

  /** Character data that is read holds no markup, and no bare `&` or `]]>`. */
  lemma CharsWritten(s: string, i: nat)
    requires i <= |s| && SkipSpaces(s, i) < |s| && s[SkipSpaces(s, i)] != '<'
    requires !Matches(s, TextEnd(s, i), "]]>") && Decode(s, i, TextEnd(s, i)).Some?
    requires Trim(Decode(s, i, TextEnd(s, i)).value).Some?
    ensures CharText(s[i..TextEnd(s, i)], Trim(Decode(s, i, TextEnd(s, i)).value).value)
  {
    hide Decode, Trim, Spoken, Trims, TextEnd, SkipSpaces, Matches;
    var e := TextEnd(s, i);
    var w := s[i..e];
    var u := Decode(s, i, e).value;
    TextEndIs(s, i);
    TextWritten(s, i, e);
    TrimmedBack(u);
    assert Spoken(w, u) && Trims(u, Trim(u).value);
    assert forall k | 0 <= k < |w| :: w[k] != '<';
    forall k | 0 <= k <= |w| ensures !Matches(w, k, "]]>") {
      Cut(s, i, e, k, "]]>");
    }
    NotWhite(s, i);
  }

  lemma NotWhite(s: string, i: nat)
    requires i <= |s| && SkipSpaces(s, i) < |s| && s[SkipSpaces(s, i)] != '<'
    requires !Matches(s, TextEnd(s, i), "]]>")
    ensures i <= TextEnd(s, i) && !White(s[i..TextEnd(s, i)])
  {
    var p, e := SkipSpaces(s, i), TextEnd(s, i);
    NoSpaceThere(s, i);
    PastSpaces(s, i);
    assert s[i..e][p - i] == s[p];
  }

  /** The text goes on past the white space in front. */
  lemma {:induction false} PastSpaces(s: string, i: nat)
    requires i <= |s| && SkipSpaces(s, i) < |s| && s[SkipSpaces(s, i)] != '<' && !Matches(s, TextEnd(s, i), "]]>")
    ensures i <= SkipSpaces(s, i) < TextEnd(s, i)
    decreases |s| - i
  {
    if IsSpace(s[i]) {
      SpaceNoEnd(s, i);
      PastSpaces(s, i + 1);
    }
  }

  lemma SpaceNoEnd(s: string, i: nat)
    requires i < |s| && IsSpace(s[i])
    ensures s[i] != '<' && !Matches(s, i, "]]>")
  {
    if Matches(s, i, "]]>") { EndMark(s, i); }
  }

  lemma EndMark(s: string, i: nat)
    requires Matches(s, i, "]]>")
    ensures i < |s| && s[i] == ']'
  {
    assert s[i..i + 3][0] == s[i];
  }

  lemma ContentWritten(s: string, st: State)
    requires st.pos < |s| && st.mode == ContentMode
    ensures var (n, st1) := Content(s, st);
            n.Error? || n.Undefined? || WrittenAs(s[st.pos..st1.pos], n)
  {
    hide Matches, SkipSpaces, SkipComment, TextEnd, Decode, Trim, White, Gap, CharText, MatchesFold, AtXmlDecl, Find;
    var (n, st1) := Content(s, st);
    var p := SkipSpaces(s, st.pos);
    SpacesWhite(s, st.pos);
    GapWhite(s[st.pos..p]);
    if p < |s| && s[p] == '<' {
      if Matches(s, p, "<!--") {
        FoldOfMatch(s, p, "<!--");
        if n.NoNode? {
          CommentPassed(s, p);
          NoteBehind(s, st.pos, p, st1.pos);
        }
      } else if Matches(s, p, "<?") {
        FoldOfMatch(s, p, "<?");
        if n.NoNode? {
          InstructionPassed(s, p);
          NoteBehind(s, st.pos, p, st1.pos);
        }
      }
    } else if n.TextNode? {
      CharsWritten(s, st.pos);
    }
  }

  lemma NoteBehind(s: string, i: nat, p: nat, e: nat)
    requires i <= p < e <= |s| && White(s[i..p]) && (CommentText(s[p..e]) || InstructionText(s[p..e]))
    ensures Gap(s[i..e])
  {
    hide Gap, White, CommentText, InstructionText;
    NoSpace();
    GapWhite("");
    assert NoteText(s[p..e]);
    GapMore(s[i..p], s[p..e], "");
    assert s[i..e] == s[i..p] + (s[p..e] + "");
  }

  lemma WhiteReads(w: string, r: string, t: string)
    requires White(w) && Reads(r, t)
    ensures Reads(w + r, t)
  {
    hide White, TokenText, Gap;
    var k :| 0 <= k <= |r| && Gap(r[..k]) && TokenText(r[k..], t);
    WhiteBefore(w, r[..k]);
    var all := w + r;
    assert all[..|w| + k] == w + r[..k] && all[|w| + k..] == r[k..];
  }

  lemma WhiteNothing(w: string, r: string)
    requires White(w) && NothingText(r)
    ensures NothingText(w + r)
  {
    hide White, Unended, Gap, Reads;
    if Gap(r) {
      WhiteBefore(w, r);
    } else if Reads(r, ">") {
      WhiteReads(w, r, ">");
    } else {
      var k :| 0 <= k <= |r| && Gap(r[..k]) && Unended(r[k..]);
      WhiteBefore(w, r[..k]);
      var all := w + r;
      assert all[..|w| + k] == w + r[..k] && all[|w| + k..] == r[k..];
    }
  }

  /** Whatever the parser reads next was written as such. */
  lemma NodeWritten(s: string, st: State)
    requires st.pos < |s|
    ensures var (n, st1) := GetNextNode(s, st);
            n.Error? || n.Undefined? || WrittenAs(s[st.pos..st1.pos], n)
  {
    hide Content, OnToken, NextToken, SkipSpaces, White, Reads, WrittenAs, IsNameChar, Utf8ToInt, SkipMisc;
    if st.mode == ContentMode {
      ContentWritten(s, st);
    } else {
      var p := SkipSpaces(s, st.pos);
      var t := NextToken(s, p);
      SpacesWhite(s, st.pos);
      if t.text != "" {
        TokenRead(s, p);
        if t.text == "<" { OpenRead(s, p); }
        WhiteReads(s[st.pos..p], s[p..t.pos], t.text);
        assert s[st.pos..t.pos] == s[st.pos..p] + s[p..t.pos];
        OnTokenWritten(s, st.pos, st.(pos := t.pos), t.text);
      } else if t.pos == |s| {
        RestSkipped(s, p);
        NothingLeft(s, p);
        WhiteNothing(s[st.pos..p], s[p..]);
        assert s[st.pos..|s|] == s[st.pos..p] + s[p..];
        NothingIs(s[st.pos..|s|]);
      }
    }
  }

  lemma NothingIs(w: string)
    requires NothingText(w)
    ensures WrittenAs(w, NoNode)
  {
    hide NothingText;
  }

  lemma RestSkipped(s: string, p: nat)
    requires p <= |s| && NextToken(s, p) == Token("", |s|)
    ensures SkipMisc(s, p).pos == |s|
  {
    hide CopyToken, TokenLength;
    if p == |s| { MiscAtEnd(s); }
    var q := SkipMisc(s, p).pos;
    CopiedSome(s, q, TokenLength(s, q));
  }

  lemma CopiedSome(s: string, p: nat, n: int)
    ensures CopyToken(s, p, n) != Some("")
  {
    hide GetChar;
  }

  // ---- Documents ----

  function Kept(ns: seq<Next>): seq<Next> {
    if ns == [] then [] else (if ns[0].NoNode? then [] else [ns[0]]) + Kept(ns[1..])
  }

  ghost predicate AllWritten(ws: seq<string>, ns: seq<Next>) {
    |ws| == |ns| && forall k | 0 <= k < |ws| :: WrittenAs(ws[k], ns[k])
  }

  /** The text is made of pieces, each a way to write what was read, and the events are those. */
  ghost predicate Pieces(text: string, events: seq<Next>) {
    exists ws, ns :: AllWritten(ws, ns) && text == Flat(ws) && events == Kept(ns)
  }

  lemma PieceMore(w: string, n: Next, text: string, events: seq<Next>)
    requires WrittenAs(w, n) && Pieces(text, events)
    ensures Pieces(w + text, (if n.NoNode? then [] else [n]) + events)
  {
    hide WrittenAs;
    var ws, ns :| AllWritten(ws, ns) && text == Flat(ws) && events == Kept(ns);
    var ws1, ns1 := [w] + ws, [n] + ns;
    assert ws1[1..] == ws && ns1[1..] == ns;
    assert AllWritten(ws1, ns1);
    assert Flat(ws1) == w + text;
  }

  lemma {:induction false} RunWritten(s: string, st: State)
    requires st.pos <= |s| && Run(s, st).Parsed?
    ensures Pieces(s[st.pos..], Trace(s, st))
    decreases Measure(s, st)
  {
    hide Step, GetNextNode, Pieces, WrittenAs;
    if st.pos == |s| {
      NothingMore();
      RunEnds(s, st);
    } else {
      var (n, st1) := GetNextNode(s, st);
      RunGoesOn(s, st);
      NodeWritten(s, st);
      RunWritten(s, Step(s, st).st);
      PieceMore(s[st.pos..st1.pos], n, s[st1.pos..], Trace(s, Step(s, st).st));
      assert s[st.pos..] == s[st.pos..st1.pos] + s[st1.pos..];
    }
  }

  lemma RunEnds(s: string, st: State)
    requires st.pos == |s|
    ensures s[st.pos..] == "" && Trace(s, st) == []
  {
    assert Step(s, st) == Finished;
  }

  lemma RunGoesOn(s: string, st: State)
    requires st.pos < |s| && Run(s, st).Parsed?
    ensures Step(s, st).More? && Step(s, st).st.pos == GetNextNode(s, st).1.pos
    ensures !GetNextNode(s, st).0.Error? && !GetNextNode(s, st).0.Undefined?
  {
    hide GetNextNode;
  }

  lemma NothingMore()
    ensures Pieces("", [])
  {
    assert AllWritten([], []);
    assert Flat([]) == "" && Kept([]) == [];
  }

  ghost predicate DeclText(w: string) {
    && |w| >= 2 && Matches(w, 0, "<?xml ") && Matches(w, |w| - 2, "?>")
    && forall k | 0 <= k < |w| - 2 :: !Matches(w, k, "?>")
  }

  /** White space, perhaps the declaration of XML, and a gap. */
  ghost predicate PrologText(w: string) {
    exists j, k | 0 <= j <= k <= |w| :: White(w[..j]) && (j == k || DeclText(w[j..k])) && Gap(w[k..])
  }

  lemma DeclWritten(s: string, p: nat)
    requires p <= |s| && Matches(s, p, "<?xml ") && Find(s, p, "?>").Some?
    ensures var e := Find(s, p, "?>").value + 2; p < e <= |s| && DeclText(s[p..e])
  {
    hide Find, Matches;
    FoundFirst(s, p, "?>");
    var e := Find(s, p, "?>").value + 2;
    MatchesTwice(s, e - 2);
    DeclLater(s, p, e - 2);
    var w := s[p..e];
    Cut(s, p, e, 0, "<?xml ");
    Cut(s, p, e, |w| - 2, "?>");
    forall k | 0 <= k < |w| - 2 ensures !Matches(w, k, "?>") { Cut(s, p, e, k, "?>"); }
  }

  lemma DeclLater(s: string, p: nat, q: nat)
    requires Matches(s, p, "<?xml ") && Matches(s, q, "?>") && p <= q
    ensures p + 6 <= q
  {
    AtIs(s, p, "<?xml ");
    AtIs(s, q, "?>");
    var d, m := "<?xml ", "?>";
    assert At(s, q + 0) == m[0] && At(s, q + 1) == m[1];
    assert At(s, p + 0) == d[0] && At(s, p + 1) == d[1] && At(s, p + 2) == d[2] && At(s, p + 3) == d[3];
    assert At(s, p + 4) == d[4] && At(s, p + 5) == d[5];
  }

  lemma PrologWritten(s: string)
    requires Prolog(s).0.None?
    ensures PrologText(s[..Prolog(s).1]) && !Matches(s, Prolog(s).1, "<!DOCTYPE")
  {
    hide Matches, SkipSpaces, SkipMisc, Find, White, Gap, DeclText;
    PrologStops(s);
    var j := SkipSpaces(s, 0);
    SpacesWhite(s, 0);
    SpacesPassed(s, 0);
    var e := Prolog(s).1;
    var w := s[..e];
    if Matches(s, j, "<?xml ") {
      var k := Find(s, j, "?>").value + 2;
      DeclWritten(s, j);
      var q := SkipSpaces(s, k);
      SpacesWhite(s, k);
      SpacesPassed(s, k);
      MiscStops(s, q);
      SkippedIsGap(s, q);
      WhiteBefore(s[k..q], s[q..e]);
      assert s[k..e] == s[k..q] + s[q..e];
      assert w[..j] == s[0..j] && w[j..k] == s[j..k] && w[k..] == s[k..e];
      assert White(w[..j]) && DeclText(w[j..k]) && Gap(w[k..]);
    } else {
      MiscStops(s, j);
      SkippedIsGap(s, j);
      assert w[..j] == s[0..j] && w[j..] == s[j..e];
      assert White(w[..j]) && j == j && Gap(w[j..]);
    }
  }

  /** Every text that is accepted is a prolog and the written forms of the tree's events, in order. */
  lemma AcceptedText(s: string)
    requires Parse(s).Parsed?
    ensures var p := Prolog(s).1; PrologText(s[..p]) && Pieces(s[p..], ForestEvents(Parse(s).roots))
  {
    hide Run, Prolog, ForestEvents, Pieces, PrologText, Trace;
    PrologWritten(s);
    RunWritten(s, Start(Prolog(s).1));
    AcceptedDocument(s);
  }
}
