/** Reading a document however it is written: the parse loop on each piece of its text. */
module XmlReading {
  import opened Wrappers
  import opened XmlChars
  import opened XmlText
  import opened XmlReferences
  import opened XmlSyntax
  import opened XmlTokens
  import opened XmlNesting
  import opened XmlForms

  // ---- Places in the text ----

  lemma MatchesFirst(s: string, i: nat, w: string)
    requires w != "" && Matches(s, i, w)
    ensures i < |s| && At(s, i) == s[i] == w[0]
  {
    assert s[i..i + |w|][0] == w[0];
  }

  lemma MatchesTwo(s: string, i: nat, w: string)
    requires |w| == 2 && Matches(s, i, w)
    ensures i + 1 < |s| && s[i] == w[0] && s[i + 1] == At(s, i + 1) == w[1]
  {
    assert s[i..i + 2][1] == w[1] && s[i..i + 2][0] == w[0];
  }

  /** White space in front of something else is skipped. */
  lemma {:induction false} SpacesEnd(s: string, p: nat, w: string)
    requires Matches(s, p, w) && White(w) && !IsSpace(At(s, p + |w|))
    ensures p + |w| <= |s| && SkipSpaces(s, p) == p + |w|
    decreases |w|
  {
    if w != "" {
      assert w == [w[0]] + w[1..];
      MatchesAppend(s, p, [w[0]], w[1..]);
      MatchesFirst(s, p, [w[0]]);
      assert White(w[1..]);
      SpacesEnd(s, p + 1, w[1..]);
    }
  }

  lemma AfterSpaces(s: string, p: nat, w: string)
    requires White(w) && Matches(s, p, w)
    ensures w != "" ==> p < |s| && IsSpace(s[p]) && IsDelimiter(At(s, p)) && At(s, p) != '<'
  {
    if w != "" { MatchesFirst(s, p, w); }
  }

  /** The key is found where it first stands. */
  lemma {:induction false} FindAt(s: string, p: nat, q: nat, key: string)
    requires key != "" && p <= q && Matches(s, q, key) && forall k | p <= k < q :: !Matches(s, k, key)
    ensures Find(s, p, key) == Some(q)
    decreases q - p
  {
    if p < q {
      assert p < |s|;
      FindAt(s, p + 1, q, key);
    }
  }

  // ---- The loop ----

  predicate Loop(s: string, a: State, b: State) {
    a.pos <= |s| && b.pos <= |s| && Run(s, a) == Run(s, b)
  }

  lemma LoopTrans(s: string, a: State, b: State, c: State)
    requires Loop(s, a, b) && Loop(s, b, c)
    ensures Loop(s, a, c)
  {
    hide Run;
  }

  lemma LoopStep(s: string, a: State)
    requires a.pos <= |s| && Step(s, a).More?
    ensures Loop(s, a, Step(s, a).st)
  {
    hide Step;
  }

  lemma LoopSelf(s: string, st: State)
    requires st.pos <= |s|
    ensures Loop(s, st, st)
  {
  }

  // ---- What comes next inside a start tag ----

  datatype Ahead = Ends | Closes | Names(n: string)

  /** Behind the name or value that ends at q comes m at p, with white space between. */
  predicate Upcoming(s: string, q: nat, p: nat, m: Ahead) {
    q <= p < |s| && SkipSpaces(s, q) == p && IsDelimiter(At(s, q)) && (At(s, q) != '<' || q < p) &&
    match m
    case Ends => s[p] == '>'
    case Closes => s[p] == '/' && At(s, p + 1) == '>'
    case Names(n) => q < p && IsName(n) && Matches(s, p, n) && IsDelimiter(At(s, p + |n|))
  }

  lemma NameIsNoMark(m: string)
    requires IsName(m)
    ensures m != "" && m != ">" && m != "/>" && m != "<" && m != "</" && m[0] != '>' && m[0] != '<'
  {
    hide IsName;
    NameStart(m);
  }

  lemma LookAhead(s: string, q: nat, p: nat, m: Ahead)
    requires Upcoming(s, q, p, m)
    ensures m.Ends? ==> NextToken(s, q) == Token(">", p + 1)
    ensures m.Closes? ==> NextToken(s, q) == Token("/>", p + 2) && SkipMisc(s, q) == Skip(true, p)
    ensures m.Names? ==> var t := NextToken(s, q).text; t != "" && t != ">" && t != "/>" && t != "<"
  {
    hide NextToken, IsName, SkipMisc;
    match m
    case Ends => TokenMark(s, q, p);
    case Closes => TokenClose(s, q, p);
    case Names(n) =>
      TokenName(s, q, p, n);
      NameIsNoMark(n);
  }

  /** The states the two lookaheads leave. */
  function AfterStart(st: State, q: nat, p: nat, m: Ahead): State {
    match m
    case Ends => st.(pos := p + 1, mode := ContentMode)
    case Closes => st.(pos := p, mode := ElementMode)
    case Names(_) => st.(pos := q, mode := AttributeMode)
  }

  function AfterValue(st: State, q: nat, p: nat, m: Ahead): State {
    match m
    case Ends => st.(pos := p + 1, mode := ContentMode)
    case Closes => st.(pos := p)
    case Names(_) => st.(pos := q)
  }

  /** A start tag up to its name. */
  lemma StartRead(s: string, st: State, p: nat, n: string, r: nat, m: Ahead)
    requires st.mode == ElementMode && st.pos == p
    requires p < |s| && s[p] == '<' && IsName(n) && ':' !in n && Matches(s, p + 1, n)
    requires Upcoming(s, p + 1 + |n|, r, m)
    ensures Step(s, st) == Enter(AfterStart(st.(lastElem := Some(n)), p + 1 + |n|, r, m), n)
  {
    hide NextToken, IsName, SkipMisc;
    var q := p + 1 + |n|;
    var st1 := st.(pos := p + 1);
    SkipOneSpace(s, p, p);
    TokenStartOpen(s, p, n);
    NameStartAt(s, p + 1, n);
    SkipOneSpace(s, p + 1, p + 1);
    TokenName(s, p + 1, p + 1, n);
    LookAhead(s, q, r, m);
    NameIsNoMark(n);
    hide Upcoming, Matches;
    var st2 := AfterStart(st.(lastElem := Some(n)), q, r, m);
    assert STag(s, st1) == (StartNode(n), st2);
    hide STag;
    assert GetNextNode(s, st) == OnToken(s, st1, "<");
    hide GetNextNode;
  }

  lemma LoopStart(s: string, st: State, p: nat, n: string, r: nat, m: Ahead)
    requires st.mode == ElementMode && st.pos == p && (st.hasTop ==> st.stack != [])
    requires p < |s| && s[p] == '<' && IsName(n) && ':' !in n && Matches(s, p + 1, n)
    requires Upcoming(s, p + 1 + |n|, r, m)
    ensures Loop(s, st, Enter(AfterStart(st.(lastElem := Some(n)), p + 1 + |n|, r, m), n).st)
  {
    hide Step, IsName, Upcoming, Matches;
    StartRead(s, st, p, n, r, m);
    LoopStep(s, st);
  }

  // ---- Attributes ----

  /** Where the parts of an attribute that begins at e stand. */
  datatype AttrPlaces = AttrPlaces(name: nat, nameEnd: nat, equals: nat, quote: nat, value: nat, end: nat)

  function PlacesOf(a: AttrForm, e: nat): AttrPlaces {
    var p := e + |a.lead|;
    var q := p + |a.name|;
    var r := q + |a.before|;
    var t := r + 1 + |a.after|;
    AttrPlaces(p, q, r, t, t + 1, t + 1 + |a.text.Raw()|)
  }

  lemma AttrPieces(s: string, e: nat, a: AttrForm)
    requires Matches(s, e, AttrRaw(a))
    ensures var l := PlacesOf(a, e);
            && e + |AttrRaw(a)| == l.end + 1 && l.end < |s|
            && Matches(s, e, a.lead) && Matches(s, l.name, a.name) && Matches(s, l.nameEnd, a.before)
            && s[l.equals] == '=' && Matches(s, l.equals + 1, a.after) && s[l.quote] == a.quote
            && Matches(s, l.value, a.text.Raw()) && s[l.end] == a.quote
  {
    hide Matches, Flat;
    var l := PlacesOf(a, e);
    var raw := a.text.Raw() + [a.quote];
    MatchesAppend(s, e, a.lead, a.name + (a.before + ("=" + (a.after + ([a.quote] + raw)))));
    MatchesAppend(s, l.name, a.name, a.before + ("=" + (a.after + ([a.quote] + raw))));
    MatchesAppend(s, l.nameEnd, a.before, "=" + (a.after + ([a.quote] + raw)));
    MatchesAppend(s, l.equals, "=", a.after + ([a.quote] + raw));
    MatchesAppend(s, l.equals + 1, a.after, [a.quote] + raw);
    MatchesAppend(s, l.quote, [a.quote], raw);
    MatchesAppend(s, l.value, a.text.Raw(), [a.quote]);
    MatchesFirst(s, l.equals, "=");
    MatchesFirst(s, l.quote, [a.quote]);
    MatchesFirst(s, l.end, [a.quote]);
  }

  /** What stands around a name, and where the white space ends. */
  lemma NameBetween(s: string, e: nat, lead: string, n: string, after: string)
    requires White(lead) && White(after) && IsName(n) && Matches(s, e, lead) && Matches(s, e + |lead|, n)
    requires var q := e + |lead| + |n|; Matches(s, q, after) && q + |after| < |s| && s[q + |after|] == '='
    ensures var q := e + |lead| + |n|;
            && e + |lead| < |s| && SkipSpaces(s, e) == e + |lead| && SkipSpaces(s, q) == q + |after|
            && IsDelimiter(At(s, q))
  {
    hide IsName, SkipSpaces, White;
    var p := e + |lead|;
    var q := p + |n|;
    NameStartAt(s, p, n);
    hide Matches;
    SpacesEnd(s, e, lead);
    SpacesEnd(s, q, after);
    AfterSpaces(s, q, after);
  }

  /** The name, the sign and the opening quote are the three tokens. */
  lemma AttrTokens(s: string, e: nat, a: AttrForm)
    requires ProperAttr(a) && Matches(s, e, AttrRaw(a))
    ensures var l := PlacesOf(a, e);
            && l.end < |s| && SkipSpaces(s, e) == l.name
            && NextToken(s, l.name) == Token(a.name, l.nameEnd)
            && NextToken(s, l.nameEnd) == Token("=", l.equals + 1)
            && NextToken(s, l.equals + 1) == Token([a.quote], l.value)
  {
    hide NextToken, IsName, Written.Raw, Written.Meant, Written.Spelt, Trims, White, SkipSpaces, AttrRaw, Flat,
         Matches, IsDelimiter;
    var l := PlacesOf(a, e);
    AttrPieces(s, e, a);
    NameBetween(s, e, a.lead, a.name, a.before);
    SpacesEnd(s, l.equals + 1, a.after);
    TokenNamedAt(s, l.name, a.name);
    TokenMark(s, l.nameEnd, l.equals);
    TokenMark(s, l.equals + 1, l.quote);
  }

  lemma TokenNamedAt(s: string, p: nat, n: string)
    requires p < |s| && IsName(n) && Matches(s, p, n) && IsDelimiter(At(s, p + |n|))
    ensures NextToken(s, p) == Token(n, p + |n|)
  {
    hide NextToken, IsName;
    NameStartAt(s, p, n);
    SkipOneSpace(s, p, p);
    TokenName(s, p, p, n);
  }

  lemma NoQuote(s: string, v: nat, raw: string, c: char)
    requires Matches(s, v, raw) && c !in raw && At(s, v + |raw|) == c != '\0'
    ensures Find(s, v, [c]) == Some(v + |raw|)
  {
    var e := v + |raw|;
    assert e < |s| && s[e..e + 1] == [c];
    forall k | v <= k < e ensures !Matches(s, k, [c]) {
      assert s[v..e][k - v] == raw[k - v] == s[k];
      if Matches(s, k, [c]) { MatchesFirst(s, k, [c]); }
    }
    FindAt(s, v, e, [c]);
  }

  lemma {:induction false} NoLess(s: string, v: nat, i: nat, e: nat)
    requires v <= i && v <= e <= |s| && '<' !in s[v..e]
    ensures NoBareLess(s, i, e)
    decreases e - i
  {
    if i < e {
      assert s[v..e][i - v] == s[i];
      NoLess(s, v, if s[i] == '&' then i + 2 else i + 1, e);
    }
  }

  /** Trimming, from the text on. */
  lemma {:induction false} TrimStartIs(w: string, i: nat, k: nat)
    requires i <= k < |w| && (forall j | i <= j < k :: IsBlank(w[j]) && w[j] != '\n')
    requires !IsBlank(w[k]) || w[k] == '\n'
    ensures TrimStart(w, i) == k
    decreases k - i
  {
    if i < k { TrimStartIs(w, i + 1, k); }
  }

  lemma TrimmedTo(w: string, v: string)
    requires Trims(w, v)
    ensures Trim(w) == Some(v)
  {
    var k: nat :| TrimsAt(w, v, k);
    TrimStartIs(w, 0, k);
  }

  /** The value between the quotes. */
  lemma QuotedIs(s: string, v: nat, a: AttrForm)
    requires ProperAttr(a) && Matches(s, v, a.text.Raw()) && At(s, v + |a.text.Raw()|) == a.quote
    ensures var e := v + |a.text.Raw()|;
            && Find(s, v, [a.quote]) == Some(e) && e <= |s| && NoBareLess(s, v, e)
            && QuotedValue(s, v, e) == (NoNode, a.value)
  {
    hide Trim, CopyToken, Find, NoBareLess, Flat, Utf8Of, Denotes, Trims, IsName;
    var raw := a.text.Raw();
    NoQuote(s, v, raw, a.quote);
    NoLess(s, v, v, v + |raw|);
    if a.text.rs == [] {
      NothingFlat();
    } else {
      TextCopied(s, v, a.text.rs, a.text.cs);
      TrimmedTo(a.text.Meant(), a.value.value);
      assert raw != "" by { SomeFlat(a.text); }
    }
  }

  lemma NothingFlat()
    ensures Flat([]) == ""
  {
  }

  lemma SomeFlat(t: Written)
    requires t.Spelt() && t.rs != []
    ensures t.Raw() != ""
  {
    var s := t.Raw();
    assert s[0..|s|] == s;
    TextCopied(s, 0, t.rs, t.cs);
  }

  lemma NotNamespace(a: AttrForm)
    requires ProperAttr(a)
    ensures !IsNamespaceDecl(a.name)
  {
  }

  /** XMLParserProcessAttribute on the text after the name. */
  lemma AttributeIs(s: string, st: State, e: nat, a: AttrForm, r: nat, m: Ahead)
    requires st.mode == AttributeMode && st.pos == PlacesOf(a, e).nameEnd
    requires ProperAttr(a) && Matches(s, e, AttrRaw(a)) && Upcoming(s, e + |AttrRaw(a)|, r, m)
    ensures st.pos <= |s|
    ensures Attribute(s, st, a.name) == (AttrNode(a.name, a.value), AfterValue(st, e + |AttrRaw(a)|, r, m))
  {
    hide NextToken, IsName, Matches, Upcoming, Utf8ToInt, IsNameChar, IsNamespaceDecl, AfterQuote, ProperAttr,
         Written.Raw, AttrRaw;
    var l := PlacesOf(a, e);
    AttrPieces(s, e, a);
    AttrTokens(s, e, a);
    assert IsNameChar(Utf8ToInt(a.name, 0), false) by { ProperName(a); NameFirst(a.name); }
    AfterQuoteIs(s, st.(pos := l.value), a, l.value, r, m);
    QuoteMarks(a);
  }

  lemma ProperName(a: AttrForm)
    requires ProperAttr(a)
    ensures IsName(a.name)
  {
  }

  lemma QuoteMarks(a: AttrForm)
    requires ProperAttr(a)
    ensures a.quote == '"' || a.quote == '\''
  {
  }

  lemma AfterQuoteIs(s: string, st: State, a: AttrForm, v: nat, r: nat, m: Ahead)
    requires st.mode == AttributeMode && st.pos == v && ProperAttr(a)
    requires v + |a.text.Raw()| < |s| && Matches(s, v, a.text.Raw()) && s[v + |a.text.Raw()|] == a.quote
    requires Upcoming(s, v + |a.text.Raw()| + 1, r, m)
    ensures AfterQuote(s, st, a.name, [a.quote]) ==
            (AttrNode(a.name, a.value), AfterValue(st, v + |a.text.Raw()| + 1, r, m))
  {
    hide NextToken, Matches, Upcoming, NoBareLess, Find, QuotedValue, IsNamespaceDecl, ProperAttr, Written.Raw,
         SkipMisc;
    var q := v + |a.text.Raw()| + 1;
    QuotedIs(s, v, a);
    NotNamespace(a);
    LookAhead(s, q, r, m);
    assert AfterAttribute(s, st.(pos := q)) == (true, AfterValue(st, q, r, m));
    hide AfterAttribute;
  }

  /** One attribute, from the white space before it. */
  lemma AttrRead(s: string, st: State, e: nat, a: AttrForm, r: nat, m: Ahead)
    requires st.mode == AttributeMode && st.pos == e
    requires ProperAttr(a) && Matches(s, e, AttrRaw(a)) && Upcoming(s, e + |AttrRaw(a)|, r, m)
    ensures st.pos <= |s| && Step(s, st) == AddAttr(AfterValue(st, e + |AttrRaw(a)|, r, m), a.name, a.value)
  {
    hide NextToken, IsName, Matches, Upcoming, Attribute, ProperAttr, AttrRaw, HasAttr, IsNamespaceDecl, Written.Raw;
    var l := PlacesOf(a, e);
    var st1 := st.(pos := l.nameEnd);
    var st2 := AfterValue(st, e + |AttrRaw(a)|, r, m);
    AttrPieces(s, e, a);
    AttrTokens(s, e, a);
    AttributeIs(s, st1, e, a, r, m);
    ProperName(a);
    NameIsNoMark(a.name);
    assert OnToken(s, st1, a.name) == (AttrNode(a.name, a.value), st2);
    hide OnToken;
    assert GetNextNode(s, st) == OnToken(s, st1, a.name);
    hide GetNextNode;
  }

  lemma LoopAttr(s: string, st: State, e: nat, a: AttrForm, r: nat, m: Ahead)
    requires st.mode == AttributeMode && st.pos == e && st.path != [] && !HasAttr(st.path[0].attrs, a.name)
    requires ProperAttr(a) && Matches(s, e, AttrRaw(a)) && Upcoming(s, e + |AttrRaw(a)|, r, m)
    ensures Loop(s, st, AddAttr(AfterValue(st, e + |AttrRaw(a)|, r, m), a.name, a.value).st)
  {
    hide Step, Matches, Upcoming, ProperAttr, AttrRaw, HasAttr;
    AttrRead(s, st, e, a, r, m);
    LoopStep(s, st);
  }

  // ---- All attributes of a tag ----

  function Mark(m: Ahead): string {
    if m.Ends? then ">" else "/>"
  }

  function AheadOf(attrs: seq<AttrForm>, m: Ahead): Ahead {
    if attrs == [] then m else Names(attrs[0].name)
  }

  function PlaceOf(attrs: seq<AttrForm>, q: nat, tail: string): nat {
    q + if attrs == [] then |tail| else |attrs[0].lead|
  }

  lemma FirstAttr(s: string, q: nat, attrs: seq<AttrForm>, more: string)
    requires attrs != [] && Matches(s, q, AttrsRaw(attrs) + more)
    ensures Matches(s, q, AttrRaw(attrs[0]))
    ensures Matches(s, q + |AttrRaw(attrs[0])|, AttrsRaw(attrs[1..]) + more)
    ensures |AttrsRaw(attrs)| == |AttrRaw(attrs[0])| + |AttrsRaw(attrs[1..])|
  {
    hide AttrRaw;
    var first, rest := AttrRaw(attrs[0]), AttrsRaw(attrs[1..]);
    assert AttrsRaw(attrs) + more == first + (rest + more);
    MatchesAppend(s, q, first, rest + more);
  }

  /** What comes next, behind the name or a value. */
  lemma ComesNext(s: string, q: nat, attrs: seq<AttrForm>, tail: string, m: Ahead)
    requires (forall k | 0 <= k < |attrs| :: ProperAttr(attrs[k])) && White(tail) && !m.Names?
    requires Matches(s, q, AttrsRaw(attrs) + (tail + Mark(m)))
    ensures Upcoming(s, q, PlaceOf(attrs, q, tail), AheadOf(attrs, m))
  {
    hide Matches, Upcoming, ProperAttr, AttrsRaw;
    if attrs == [] {
      NoAttrs(attrs);
      assert AttrsRaw(attrs) + (tail + Mark(m)) == tail + Mark(m);
      EndComes(s, q, tail, m);
    } else {
      FirstAttr(s, q, attrs, tail + Mark(m));
      AttrComes(s, q, attrs[0]);
    }
  }

  lemma EndComes(s: string, q: nat, tail: string, m: Ahead)
    requires White(tail) && !m.Names? && Matches(s, q, tail + Mark(m))
    ensures Upcoming(s, q, q + |tail|, m)
  {
    hide Matches, SkipSpaces, White;
    MatchesAppend(s, q, tail, Mark(m));
    MatchesFirst(s, q + |tail|, Mark(m));
    if m.Closes? { MatchesTwo(s, q + |tail|, Mark(m)); }
    SpacesEnd(s, q, tail);
    AfterSpaces(s, q, tail);
  }

  lemma AttrComes(s: string, q: nat, a: AttrForm)
    requires ProperAttr(a) && Matches(s, q, AttrRaw(a))
    ensures Upcoming(s, q, q + |a.lead|, Names(a.name))
  {
    hide Matches, SkipSpaces, White, AttrRaw, IsName, Written.Raw, Written.Spelt, Trims;
    var l := PlacesOf(a, q);
    AttrPieces(s, q, a);
    NameStartAt(s, l.name, a.name);
    SpacesEnd(s, q, a.lead);
    AfterSpaces(s, q, a.lead);
    AfterSpaces(s, l.nameEnd, a.before);
  }

  function WithAttrs(st: State, attrs: seq<Attr>): State
    requires st.path != []
  {
    st.(path := [st.path[0].(attrs := st.path[0].attrs + attrs)] + st.path[1..])
  }

  predicate FreshAttrs(had: seq<Attr>, attrs: seq<AttrForm>) {
    && (forall j, k | 0 <= j < k < |attrs| :: attrs[j].name != attrs[k].name)
    && forall k | 0 <= k < |attrs| :: !HasAttr(had, attrs[k].name)
  }

  lemma FreshTail(had: seq<Attr>, attrs: seq<AttrForm>)
    requires attrs != [] && FreshAttrs(had, attrs)
    ensures !HasAttr(had, attrs[0].name)
    ensures FreshAttrs(had + [Attr(attrs[0].name, attrs[0].value)], attrs[1..])
  {
    var more := had + [Attr(attrs[0].name, attrs[0].value)];
    forall k | 0 <= k < |attrs| - 1 ensures !HasAttr(more, attrs[1..][k].name) {
      assert attrs[0].name != attrs[k + 1].name && !HasAttr(had, attrs[k + 1].name);
    }
  }

  /** All attributes, from the white space behind the element's name to the end of the tag. */
  /** An attribute and those after it are the attributes. */
  lemma AttrsJoined(st: State, q: nat, attrs: seq<AttrForm>, e: nat, p: nat, m: Ahead)
    requires st.path != [] && attrs != []
    ensures var a := Attr(attrs[0].name, attrs[0].value);
            WithAttrs(AfterValue(WithAttrs(st.(pos := q), [a]), e, p, m), AttrList(attrs[1..]))
            == WithAttrs(AfterValue(st, e, p, m), AttrList(attrs))
  {
    var a := Attr(attrs[0].name, attrs[0].value);
    assert [a] + AttrList(attrs[1..]) == AttrList(attrs);
    assert st.path[0].attrs + [a] + AttrList(attrs[1..]) == st.path[0].attrs + AttrList(attrs);
  }

  lemma {:induction false} LoopAttrs(s: string, st: State, attrs: seq<AttrForm>, tail: string, m: Ahead)
    requires st.mode == AttributeMode && st.path != [] && attrs != [] && White(tail) && !m.Names?
    requires (forall k | 0 <= k < |attrs| :: ProperAttr(attrs[k])) && FreshAttrs(st.path[0].attrs, attrs)
    requires Matches(s, st.pos, AttrsRaw(attrs) + (tail + Mark(m)))
    ensures var e := st.pos + |AttrsRaw(attrs)|;
            Loop(s, st, WithAttrs(AfterValue(st, e, e + |tail|, m), AttrList(attrs)))
    decreases |attrs|
  {
    hide Matches, ProperAttr, HasAttr, FreshAttrs, AttrRaw, AttrsRaw, Loop, Upcoming, SkipSpaces, White;
    var a := attrs[0];
    var q := st.pos + |AttrRaw(a)|;
    FirstAttr(s, st.pos, attrs, tail + Mark(m));
    ComesNext(s, q, attrs[1..], tail, m);
    FreshTail(st.path[0].attrs, attrs);
    var r, n := PlaceOf(attrs[1..], q, tail), AheadOf(attrs[1..], m);
    LoopAttr(s, st, st.pos, a, r, n);
    var e := st.pos + |AttrsRaw(attrs)|;
    if |attrs| == 1 {
      assert AttrList(attrs) == [Attr(a.name, a.value)];
      NoAttrs(attrs[1..]);
    } else {
      var st1 := WithAttrs(st.(pos := q), [Attr(a.name, a.value)]);
      LoopAttrs(s, st1, attrs[1..], tail, m);
      AttrsJoined(st, q, attrs, e, e + |tail|, m);
      LoopTrans(s, st, st1, WithAttrs(AfterValue(st, e, e + |tail|, m), AttrList(attrs)));
    }
  }

  lemma NoAttrs(attrs: seq<AttrForm>)
    ensures attrs == [] ==> AttrsRaw(attrs) == ""
  {
  }

  // ---- Start tags ----

  /** The element e open and empty, at its `>` or before its `/>`. */
  function Opened(st: State, pos: nat, mode: Mode, e: Elem): State {
    st.(pos := pos, mode := mode, lastElem := Some(e.name), hasTop := true,
        stack := [e.name] + st.stack, path := [Open(e.name, AttrList(e.attrs), [])] + st.path)
  }

  function MarkOf(e: Elem): Ahead {
    if e.Full? then Ends else Closes
  }

  /** The mode in which the loop goes on behind the tag, or before the `/>`. */
  function ModeOf(e: Elem): Mode {
    if e.Full? then ContentMode else if e.attrs == [] then ElementMode else AttributeMode
  }

  function TagRaw(e: Elem): string {
    "<" + (e.name + (AttrsRaw(e.attrs) + e.tail))
  }

  lemma TagPieces(s: string, p: nat, e: Elem)
    requires Matches(s, p, TagRaw(e) + Mark(MarkOf(e)))
    ensures p < |s| && s[p] == '<' && Matches(s, p + 1, e.name)
    ensures Matches(s, p + 1 + |e.name|, AttrsRaw(e.attrs) + (e.tail + Mark(MarkOf(e))))
  {
    hide AttrsRaw;
    var more := AttrsRaw(e.attrs) + (e.tail + Mark(MarkOf(e)));
    assert TagRaw(e) + Mark(MarkOf(e)) == "<" + (e.name + more);
    MatchesAppend(s, p, "<", e.name + more);
    MatchesAppend(s, p + 1, e.name, more);
    MatchesFirst(s, p, "<");
  }

  /** A start tag, attributes and all. */
  lemma LoopTag(s: string, st: State, p: nat, e: Elem)
    requires ProperElem(e) && st.mode == ElementMode && st.pos == p && (st.hasTop ==> st.stack != [])
    requires Matches(s, p, TagRaw(e) + Mark(MarkOf(e)))
    ensures Loop(s, st, Opened(st, p + |TagRaw(e)| + (if e.Full? then 1 else 0), ModeOf(e), e))
  {
    hide Loop, IsName, Upcoming, AttrsRaw, ProperAttr, Matches, FreshAttrs, ProperItems, White;
    var q, m := p + 1 + |e.name|, MarkOf(e);
    TagPieces(s, p, e);
    ComesNext(s, q, e.attrs, e.tail, m);
    var r, n := PlaceOf(e.attrs, q, e.tail), AheadOf(e.attrs, m);
    LoopStart(s, st, p, e.name, r, n);
    var st1 := Enter(AfterStart(st.(lastElem := Some(e.name)), q, r, n), e.name).st;
    var done := Opened(st, p + |TagRaw(e)| + (if e.Full? then 1 else 0), ModeOf(e), e);
    if e.attrs == [] {
      NoAttrs(e.attrs);
      assert AttrList(e.attrs) == [];
      assert st1 == done;
    } else {
      assert FreshAttrs([], e.attrs) by { AllFresh(e.attrs); }
      LoopAttrs(s, st1, e.attrs, e.tail, m);
      assert [] + AttrList(e.attrs) == AttrList(e.attrs);
      LoopTrans(s, st, st1, done);
    }
  }

  lemma AllFresh(attrs: seq<AttrForm>)
    requires ProperAttrs(attrs)
    ensures FreshAttrs([], attrs)
  {
    hide ProperAttr;
  }

  // ---- Notes ----

  lemma Differs(w: string, k: nat, key: string, i: nat)
    requires i < |key| && (k + i < |w| ==> w[k + i] != key[i])
    ensures !Matches(w, k, key)
  {
    if k + |key| <= |w| {
      assert w[k..k + |key|][i] == w[k + i];
    }
  }

  lemma SameInside(s: string, p: nat, w: string, k: nat, key: string)
    requires Matches(s, p, w) && k + |key| <= |w|
    ensures Matches(s, p + k, key) <==> Matches(w, k, key)
  {
    var here, there := s[p + k..p + k + |key|], w[k..k + |key|];
    forall i | 0 <= i < |key| ensures here[i] == there[i] {
      assert s[p..p + |w|][k + i] == w[k + i] == there[i];
    }
    assert here == there;
  }

  /** A key that first stands at j in w. */
  lemma FindIn(s: string, p: nat, w: string, j: nat, key: string)
    requires key != "" && Matches(s, p, w) && Matches(w, j, key) && forall k | 0 <= k < j :: !Matches(w, k, key)
    ensures Find(s, p, key) == Some(p + j) && p + j + |key| <= p + |w| <= |s|
  {
    hide Find;
    SameInside(s, p, w, j, key);
    forall k | p <= k < p + j ensures !Matches(s, k, key) {
      SameInside(s, p, w, k - p, key);
    }
    FindAt(s, p, p + j, key);
  }

  /** The end mark of a comment stands nowhere before its end. */
  lemma CommentText(body: string, k: nat)
    requires ProperNote(Comment(body)) && k < 4 + |body|
    ensures !Matches("<!--" + body + "-->", k, "-->")
  {
    var w := "<!--" + body + "-->";
    if k < 2 {
      Differs(w, k, "-->", 0);
    } else if k == 2 {
      Differs(w, k, "-->", 2);
    } else if k == 3 {
      if |body| == 1 {
        Differs(w, k, "-->", 2);
      } else {
        assert w[4] == body[0] && w[5] == body[1];
        if body[0] == '-' {
          assert body[0..2] == [body[0], body[1]] && "->" == ['-', '>'];
          Differs(w, k, "-->", 2);
        } else {
          Differs(w, k, "-->", 1);
        }
      }
    } else if k - 4 + 3 <= |body| {
      assert w[k..k + 3] == body[k - 4..k - 4 + 3];
      assert !Matches(body, k - 4, "-->");
    } else {
      Differs(w, k, "-->", 2);
    }
  }

  lemma InstructionText(body: string, k: nat)
    requires ProperNote(Instruction(body)) && k < 2 + |body|
    ensures !Matches("<?" + body + "?>", k, "?>")
  {
    var w := "<?" + body + "?>";
    if k == 0 {
      Differs(w, k, "?>", 0);
    } else if k == 1 {
      Differs(w, k, "?>", 1);
    } else if k - 2 + 2 <= |body| {
      assert w[k..k + 2] == body[k - 2..k - 2 + 2];
      assert !Matches(body, k - 2, "?>");
    } else {
      Differs(w, k, "?>", 1);
    }
  }

  /** A comment is passed over. */
  lemma CommentEnd(s: string, p: nat, body: string)
    requires ProperNote(Comment(body)) && Matches(s, p, NoteRaw(Comment(body)))
    ensures SkipComment(s, p) == Some(p + |body| + 7) && p + |body| + 7 <= |s|
  {
    hide Find;
    var w := "<!--" + body + "-->";
    var j := 4 + |body|;
    assert w == NoteRaw(Comment(body));
    forall k | 0 <= k < j ensures !Matches(w, k, "-->") { CommentText(body, k); }
    assert w[j..j + 3] == "-->";
    FindIn(s, p, w, j, "-->");
    AtIs(s, p, w);
    assert At(s, p + (j - 1)) == w[j - 1] == body[|body| - 1];
  }

  lemma NoDeclaration(s: string, p: nat, body: string)
    requires Matches(s, p, "<?" + body + "?>") && (|body| >= 3 ==> !AnyCase(body[..3], "xml"))
    ensures !AtXmlDecl(s, p)
  {
    var w := "<?" + body + "?>";
    var i: nat :=
      if |body| < 3 then 2 + |body|
      else if NotLetter(body[0], 'x') then 2
      else if NotLetter(body[1], 'm') then 3
      else 4;
    AtIs(s, p, w);
    assert At(s, p + i) == w[i];
    if |body| >= 3 {
      assert w[2] == body[0] && w[3] == body[1] && w[4] == body[2];
      assert NotLetter(w[i], "<?xml "[i]) by { SomeDiffers(body); }
    }
    FoldDiffers(s, p, "<?xml ", i);
    FoldDiffers(s, p, "<?xml?", i);
  }

  predicate NotLetter(c: char, l: char) {
    Lower(c) != l
  }

  lemma SomeDiffers(body: string)
    requires |body| >= 3 && !AnyCase(body[..3], "xml")
    ensures NotLetter(body[0], 'x') || NotLetter(body[1], 'm') || NotLetter(body[2], 'l')
  {
  }

  /** An instruction is passed over. */
  lemma InstructionEnd(s: string, p: nat, body: string)
    requires ProperNote(Instruction(body)) && Matches(s, p, NoteRaw(Instruction(body)))
    ensures p + |body| + 4 <= |s| && Find(s, p, "?>") == Some(p + |body| + 2) && !AtXmlDecl(s, p)
    ensures MatchesFold(s, p, "<?") && !MatchesFold(s, p, "<!--")
  {
    var w := "<?" + body + "?>";
    var j := 2 + |body|;
    assert w == NoteRaw(Instruction(body));
    forall k | 0 <= k < j ensures !Matches(w, k, "?>") { InstructionText(body, k); }
    assert w[j..j + 2] == "?>";
    FindIn(s, p, w, j, "?>");
    hide Find;
    AtIs(s, p, w);
    assert w[0] == '<' && w[1] == '?';
    assert At(s, p + 0) == '<' && At(s, p + 1) == '?';
    FoldDiffers(s, p, "<!--", 1);
    NoDeclaration(s, p, body);
    FoldOfMatchAt(s, p);
  }

  lemma FoldOfMatchAt(s: string, p: nat)
    requires At(s, p) == '<' && At(s, p + 1) == '?'
    ensures MatchesFold(s, p, "<?")
  {
    forall k | 0 <= k < 2 ensures Lower(At(s, p + k)) == "<?"[k] {
      if k == 0 { assert At(s, p + k) == '<'; } else { assert At(s, p + k) == '?'; }
    }
  }

  lemma NoteStart(s: string, p: nat, n: Note)
    requires Matches(s, p, NoteRaw(n))
    ensures p + 1 < |s| && s[p] == '<' && !IsSpace(s[p]) && At(s, p + 1) == (if n.Comment? then '!' else '?')
    ensures n.Comment? ==> Matches(s, p, "<!--") && !Matches(s, p, "<![CDATA[")
    ensures n.Instruction? ==> Matches(s, p, "<?") && !Matches(s, p, "<![CDATA[") && !Matches(s, p, "<!--")
  {
    match n
    case Comment(body) =>
      MatchesAppend(s, p, "<!--", body + "-->");
      AtIs(s, p, "<!--");
      assert At(s, p + 0) == '<' && At(s, p + 1) == '!' && At(s, p + 2) == '-';
      Differs(s, p, "<![CDATA[", 2);
    case Instruction(body) =>
      MatchesAppend(s, p, "<?", body + "?>");
      AtIs(s, p, "<?");
      assert At(s, p + 0) == '<' && At(s, p + 1) == '?';
      NoSpecial(s, p, "<![CDATA[");
      NoSpecial(s, p, "<!--");
  }

  lemma NoSpecial(s: string, p: nat, w: string)
    requires |w| > 1 && At(s, p + 1) != w[1]
    ensures !Matches(s, p, w)
  {
    if Matches(s, p, w) {
      AtIs(s, p, w);
    }
  }

  lemma StepOfContent(s: string, st: State)
    requires st.mode == ContentMode && st.pos < |s| && Content(s, st).0 == NoNode
    ensures Step(s, st) == More(Content(s, st).1)
  {
    hide Content;
  }

  /** A note between nodes leaves nothing behind. */
  lemma LoopAside(s: string, st: State, lead: string, note: Note)
    requires st.mode == ContentMode && White(lead) && ProperNote(note) && Matches(s, st.pos, lead + NoteRaw(note))
    ensures Loop(s, st, st.(pos := st.pos + |lead| + |NoteRaw(note)|))
  {
    hide Step, GetNextNode, SkipSpaces, White, ProperNote, TextEnd, CopyToken, Trim, Matches, SkipComment, SkipPI;
    var p := st.pos + |lead|;
    MatchesAppend(s, st.pos, lead, NoteRaw(note));
    NoteStart(s, p, note);
    SpacesEnd(s, st.pos, lead);
    match note
    case Comment(body) =>
      CommentEnd(s, p, body);
      StepOfContent(s, st);
      LoopStep(s, st);
    case Instruction(body) =>
      InstructionSkipped(s, p, body);
      StepOfContent(s, st);
      LoopStep(s, st);
  }

  lemma InstructionSkipped(s: string, p: nat, body: string)
    requires ProperNote(Instruction(body)) && Matches(s, p, NoteRaw(Instruction(body)))
    ensures p <= |s| && SkipPI(s, p) == Some(p + |body| + 4) && p + |body| + 4 <= |s|
  {
    hide Find, AtXmlDecl, MatchesFold, ProperNote;
    InstructionEnd(s, p, body);
  }

  // ---- Character data ----

  function WithChildren(st: State, kids: seq<Node>): State
    requires st.path != []
  {
    st.(path := [st.path[0].(children := st.path[0].children + kids)] + st.path[1..])
  }

  /** Character data stops at the `<` after it. */
  lemma {:induction false} TextEndAt(s: string, p: nat, v: string, k: nat)
    requires k <= |v| && Matches(s, p, v) && At(s, p + |v|) == '<' && '<' !in v
    requires forall j | 0 <= j <= |v| :: !Matches(v, j, "]]>")
    ensures TextEnd(s, p + k) == p + |v|
    decreases |v| - k
  {
    if k < |v| {
      assert s[p..p + |v|][k] == v[k] != '<';
      NoCDataEnd(s, p, v, k);
      TextEndAt(s, p, v, k + 1);
    }
  }

  lemma NoCDataEnd(s: string, p: nat, v: string, k: nat)
    requires k < |v| && Matches(s, p, v) && At(s, p + |v|) == '<' && !Matches(v, k, "]]>")
    ensures !Matches(s, p + k, "]]>")
  {
    if k + 3 <= |v| {
      SameInside(s, p, v, k, "]]>");
    } else {
      Differs(s, p + k, "]]>", |v| - k);
    }
  }

  /** White space in front of it ends inside it. */
  lemma {:induction false} SpaceInside(s: string, p: nat, v: string)
    requires Matches(s, p, v) && !White(v)
    ensures p <= SkipSpaces(s, p) < p + |v| <= |s| && s[SkipSpaces(s, p)] in v
    decreases |v|
  {
    assert v == [v[0]] + v[1..];
    MatchesAppend(s, p, [v[0]], v[1..]);
    MatchesFirst(s, p, [v[0]]);
    if IsSpace(s[p]) {
      assert !White(v[1..]);
      SpaceInside(s, p + 1, v[1..]);
    }
  }

  lemma TextRead(s: string, st: State, text: Written, value: string)
    requires st.mode == ContentMode && ProperItem(Chunk(text, value))
    requires Matches(s, st.pos, text.Raw()) && At(s, st.pos + |text.Raw()|) == '<'
    ensures st.pos <= |s| && Step(s, st) == AddText(st.(pos := st.pos + |text.Raw()|), value)
  {
    hide Trim, CopyToken, Denotes, Flat, Utf8Of, White, Trims, SkipSpaces, TextEnd;
    var raw := text.Raw();
    var e := st.pos + |raw|;
    SpaceInside(s, st.pos, raw);
    TextEndAt(s, st.pos, raw, 0);
    assert raw != "" by { NoWhite(); }
    assert text.rs != [] by { NothingFlat(); }
    TextCopied(s, st.pos, text.rs, text.cs);
    TrimmedTo(text.Meant(), value);
    Differs(s, e, "]]>", 0);
    hide Matches;
    assert Content(s, st) == (TextNode(value), st.(pos := e));
    hide Content;
  }

  lemma LoopText(s: string, st: State, text: Written, value: string)
    requires st.mode == ContentMode && st.path != [] && ProperItem(Chunk(text, value))
    requires Matches(s, st.pos, text.Raw()) && At(s, st.pos + |text.Raw()|) == '<'
    ensures Loop(s, st, WithChildren(st.(pos := st.pos + |text.Raw()|), [Text(value)]))
  {
    hide Step, Matches, Written.Raw, ProperItem;
    TextRead(s, st, text, value);
    LoopStep(s, st);
  }

  // ---- Ends of elements ----

  /** White space and a `<` that starts no note. */
  lemma LoopToMarkup(s: string, st: State, p: nat)
    requires st.mode == ContentMode && st.pos <= p < |s| && SkipSpaces(s, st.pos) == p
    requires s[p] == '<' && At(s, p + 1) != '!' && At(s, p + 1) != '?'
    ensures Loop(s, st, st.(pos := p, mode := ElementMode))
  {
    hide Step, GetNextNode, SkipSpaces, Matches, SkipComment, SkipPI, TextEnd, CopyToken, Trim;
    NoSpecial(s, p, "<![CDATA[");
    NoSpecial(s, p, "<!--");
    NoSpecial(s, p, "<?");
    assert Content(s, st) == (NoNode, st.(pos := p, mode := ElementMode));
    hide Content;
    StepOfContent(s, st);
    LoopStep(s, st);
  }

  function EndTag(n: string, close: string): string {
    "</" + (n + (close + ">"))
  }

  lemma EndTokens(s: string, p: nat, n: string, close: string)
    requires IsName(n) && White(close) && Matches(s, p, EndTag(n, close))
    ensures var e := p + 2 + |n|;
            var q := e + |close|;
            && q < |s| && p + 1 < |s| && s[p] == '<' && s[p + 1] == '/'
            && NextToken(s, p + 2) == Token(n, e) && SkipSpaces(s, e) == q && NextToken(s, q) == Token(">", q + 1)
  {
    hide NextToken, IsName, Matches, White, SkipSpaces;
    var e := p + 2 + |n|;
    var q := e + |close|;
    MatchesAppend(s, p, "</", n + (close + ">"));
    MatchesAppend(s, p + 2, n, close + ">");
    MatchesAppend(s, e, close, ">");
    MatchesTwo(s, p, "</");
    MatchesFirst(s, q, ">");
    AfterSpaces(s, e, close);
    SpacesEnd(s, e, close);
    NameStartAt(s, p + 2, n);
    TokenNamedAt(s, p + 2, n);
    SpacesEnd(s, q, "") by { assert White("") by { NoWhite(); } assert Matches(s, q, "") by { Nothing(s, q); } }
    TokenMark(s, q, q);
  }

  lemma NoWhite()
    ensures White("")
  {
  }

  lemma Nothing(s: string, q: nat)
    requires q <= |s|
    ensures Matches(s, q, "")
  {
  }

  lemma EndRead(s: string, st: State, p: nat, n: string, close: string)
    requires st.mode == ElementMode && st.pos == p && IsName(n) && White(close) && Matches(s, p, EndTag(n, close))
    ensures st.pos <= |s| && Step(s, st) == Leave(st.(pos := p + |EndTag(n, close)|), n)
  {
    hide NextToken, IsName, Leave, White, SkipSpaces;
    EndTokens(s, p, n, close);
    hide Matches;
    SkipOneSpaceAt(s, p);
    TokenEndOpen(s, p);
    var st1 := st.(pos := p + 2);
    NameIsNoMark(n);
    assert ETag(s, st1) == (EndNode(n), st.(pos := p + |EndTag(n, close)|));
    hide ETag;
    assert GetNextNode(s, st) == OnToken(s, st1, "</");
    hide GetNextNode;
  }

  lemma LoopEnd(s: string, st: State, p: nat, n: string, close: string)
    requires st.mode == ElementMode && st.pos == p && IsName(n) && White(close) && Matches(s, p, EndTag(n, close))
    requires Leave(st.(pos := p + |EndTag(n, close)|), n).More?
    ensures Loop(s, st, Leave(st.(pos := p + |EndTag(n, close)|), n).st)
  {
    hide Step, IsName, Leave, White, Matches;
    EndRead(s, st, p, n, close);
    LoopStep(s, st);
  }

  lemma SkipOneSpaceAt(s: string, p: nat)
    requires p < |s| && !IsSpace(s[p])
    ensures SkipSpaces(s, p) == p
  {
  }

  /** The mark at the end of an element with one tag closes it through lastElem. */
  lemma LoopClose(s: string, st: State, p: nat, n: string)
    requires st.mode != ContentMode && st.pos == p && p < |s| && s[p] == '/' && At(s, p + 1) == '>'
    requires st.lastElem == Some(n) && Leave(st.(pos := p + 2), n).More?
    ensures Loop(s, st, Leave(st.(pos := p + 2), n).st)
  {
    hide NextToken, Leave, SkipSpaces, SkipMisc;
    SkipOneSpaceAt(s, p);
    TokenClose(s, p, p);
    var st1 := st.(pos := p + 2);
    assert OnToken(s, st1, "/>") == (EndNode(n), st1);
    hide OnToken;
    assert GetNextNode(s, st) == OnToken(s, st1, "/>");
    hide GetNextNode;
    assert Step(s, st) == Leave(st1, n);
    hide Step;
    LoopStep(s, st);
  }

  // ---- Elements and what they hold ----

  /** A state between two nodes. */
  predicate Inside(st: State) {
    StackNamesPath(st) && (st.hasTop <==> st.roots != [] || st.path != [])
  }

  function Appended(st: State, pos: nat, last: Option<string>, kids: seq<Node>): State
    requires st.path != []
  {
    WithChildren(st.(pos := pos, mode := ContentMode, lastElem := last), kids)
  }

  lemma AppendedTwice(st: State, p: nat, l: Option<string>, a: seq<Node>, q: nat, m: Option<string>, b: seq<Node>)
    requires st.path != []
    ensures Appended(Appended(st, p, l, a), q, m, b) == Appended(st, q, m, a + b)
  {
    assert st.path[0].children + a + b == st.path[0].children + (a + b);
  }

  lemma AppendedNone(st: State, q: nat)
    requires st.path != [] && st.mode == ContentMode
    ensures Appended(st, q, st.lastElem, []) == st.(pos := q)
  {
    assert st.path[0].children + [] == st.path[0].children;
  }

  lemma AppendedFields(st: State, q: nat, last: Option<string>, kids: seq<Node>)
    requires st.path != [] && Inside(st)
    ensures var st2 := Appended(st, q, last, kids);
            st2.pos == q && st2.mode == ContentMode && st2.path != [] && Inside(st2)
  {
  }

  lemma OpenedInside(st: State, b: nat, mode: Mode, e: Elem)
    requires Inside(st)
    ensures Inside(Opened(st, b, mode, e))
  {
  }

  /** The element closes into its place under its parent. */
  lemma LeaveOpened(st: State, e: Elem, o: State, q: nat)
    requires Inside(st)
    requires o.path == [Open(e.name, AttrList(e.attrs), if e.Full? then ItemTrees(e.items) else [])] + st.path
    requires o.stack == [e.name] + st.stack && o.roots == st.roots && o.hasTop
    ensures Leave(o.(pos := q), e.name) ==
            More(Attach(st.(pos := q, mode := ContentMode, hasTop := true, lastElem := o.lastElem), ElemTree(e)))
  {
    hide AttrList, ItemTrees;
    assert o.path[1..] == st.path && o.stack[1..] == st.stack;
    assert Closed(o.path[0]) == ElemTree(e);
  }

  /** An element inside another, appended to its children. */
  lemma AttachInside(st: State, q: nat, last: Option<string>, n: Node)
    requires st.path != [] && st.hasTop
    ensures Attach(st.(pos := q, mode := ContentMode, hasTop := true, lastElem := last), n)
            == Appended(st, q, last, [n])
  {
  }

  lemma ElemStart(s: string, p: nat, e: Elem)
    requires ProperElem(e) && Matches(s, p, ElemRaw(e))
    ensures Matches(s, p, TagRaw(e) + Mark(MarkOf(e)))
    ensures p + 1 < |s| && s[p] == '<' && At(s, p + 1) != '!' && At(s, p + 1) != '?'
    ensures e.Full? ==>
              && Matches(s, p + |TagRaw(e)| + 1, ItemsRaw(e.items) + (e.last + EndTag(e.name, e.close)))
              && |ElemRaw(e)| == |TagRaw(e)| + 1 + |ItemsRaw(e.items)| + |e.last| + |EndTag(e.name, e.close)|
    ensures e.Empty? ==> |ElemRaw(e)| == |TagRaw(e)| + 2
  {
    hide Matches, AttrsRaw, ItemsRaw, ProperAttrs, ProperItems, IsName, White;
    assert ElemRaw(e) == TagRaw(e) + RestRaw(e);
    if e.Full? {
      var more := ItemsRaw(e.items) + (e.last + EndTag(e.name, e.close));
      assert RestRaw(e) == ">" + more;
      assert TagRaw(e) + (">" + more) == (TagRaw(e) + ">") + more;
      MatchesAppend(s, p, TagRaw(e) + ">", more);
    }
    TagPieces(s, p, e);
    NameStartAt(s, p + 1, e.name);
  }

  /** A note's or an element's text begins with `<`. */
  lemma ItemStart(s: string, p: nat, i: Item)
    requires ProperItem(i) && !i.Chunk? && i.lead == "" && Matches(s, p, ItemRaw(i))
    ensures At(s, p) == '<'
  {
    hide ElemRaw, NoteRaw, ProperElem, ProperNote;
    match i
    case Aside(lead, note) =>
      assert ItemRaw(i) == NoteRaw(note);
      NoteStart(s, p, note);
    case Child(lead, elem) =>
      assert ItemRaw(i) == ElemRaw(elem);
      ElemStart(s, p, elem);
  }

  lemma ItemPieces(s: string, p: nat, items: seq<Item>, more: string)
    requires items != [] && Matches(s, p, ItemsRaw(items) + more)
    ensures Matches(s, p, ItemRaw(items[0]))
    ensures Matches(s, p + |ItemRaw(items[0])|, ItemsRaw(items[1..]) + more)
    ensures |ItemsRaw(items)| == |ItemRaw(items[0])| + |ItemsRaw(items[1..])|
  {
    hide ItemRaw;
    var first, rest := ItemRaw(items[0]), ItemsRaw(items[1..]);
    assert ItemsRaw(items) + more == first + (rest + more);
    MatchesAppend(s, p, first, rest + more);
  }

  /** Behind character data comes a mark. */
  lemma MarkBehind(s: string, q: nat, i: Item, items: seq<Item>, last: string, more: string)
    requires i.Chunk? && Joins(i, items, last) && ProperItems(items, last)
    requires more != "" && more[0] == '<' && Matches(s, q, ItemsRaw(items) + (last + more))
    ensures At(s, q) == '<'
  {
    hide ItemRaw, ProperItem;
    if items == [] {
      assert ItemsRaw(items) + (last + more) == more;
      MatchesFirst(s, q, more);
    } else {
      ItemPieces(s, q, items, last + more);
      ItemStart(s, q, items[0]);
    }
  }

  lemma FirstTree(items: seq<Item>)
    requires items != []
    ensures ItemTrees(items) == ItemTree(items[0]) + ItemTrees(items[1..])
  {
  }

  /** What an element holds, up to the white space before its end tag. */
  lemma {:induction false} LoopItems(s: string, st: State, items: seq<Item>, last: string, more: string)
    returns (c: nat, l: Option<string>)
    requires st.mode == ContentMode && st.path != [] && Inside(st) && ProperItems(items, last)
    requires more != "" && more[0] == '<' && Matches(s, st.pos, ItemsRaw(items) + (last + more))
    ensures c <= |s| && SkipSpaces(s, c) == st.pos + |ItemsRaw(items)| + |last|
    ensures Loop(s, st, Appended(st, c, l, ItemTrees(items)))
    decreases items, 0
  {
    hide Matches, Loop, ProperItem, ItemRaw, ItemTree, Appended, SkipSpaces, Inside, White;
    if items == [] {
      c, l := st.pos, st.lastElem;
      ItemsOver(s, st.pos, items, last, more);
      AppendedNone(st, c);
      assert st.(pos := c) == st;
      LoopSelf(s, st);
    } else {
      ItemPieces(s, st.pos, items, last + more);
      var q := st.pos + |ItemRaw(items[0])|;
      var l1 := LoopItem(s, st, items, last, more);
      var st1 := Appended(st, q, l1, ItemTree(items[0]));
      AppendedFields(st, q, l1, ItemTree(items[0]));
      c, l := LoopItems(s, st1, items[1..], last, more);
      AppendedTwice(st, q, l1, ItemTree(items[0]), c, l, ItemTrees(items[1..]));
      FirstTree(items);
      LoopTrans(s, st, st1, Appended(st, c, l, ItemTrees(items)));
    }
  }

  lemma ItemsOver(s: string, p: nat, items: seq<Item>, last: string, more: string)
    requires items == [] && White(last) && more != "" && more[0] == '<'
    requires Matches(s, p, ItemsRaw(items) + (last + more))
    ensures p <= |s| && SkipSpaces(s, p) == p + |ItemsRaw(items)| + |last| && ItemTrees(items) == []
  {
    hide Matches, SkipSpaces, White;
    assert ItemsRaw(items) + (last + more) == last + more;
    MatchesAppend(s, p, last, more);
    MatchesFirst(s, p + |last|, more);
    SpacesEnd(s, p, last);
  }

  /** The first thing an element holds. */
  lemma {:induction false} LoopItem(s: string, st: State, items: seq<Item>, last: string, more: string)
    returns (l: Option<string>)
    requires st.mode == ContentMode && st.path != [] && Inside(st) && items != [] && ProperItems(items, last)
    requires more != "" && more[0] == '<' && Matches(s, st.pos, ItemsRaw(items) + (last + more))
    ensures Loop(s, st, Appended(st, st.pos + |ItemRaw(items[0])|, l, ItemTree(items[0])))
    decreases items[0], 3
  {
    hide Matches, Loop, ItemsRaw, ProperItems, Inside, White, ElemRaw, NoteRaw, ProperElem, ProperNote, ElemTree,
         Denotes;
    var i := items[0];
    ItemPieces(s, st.pos, items, last + more);
    FirstProper(items, last);
    match i
    case Aside(lead, note) =>
      LoopAside(s, st, lead, note);
      l := st.lastElem;
      AppendedNone(st, st.pos + |ItemRaw(i)|);
    case Chunk(text, value) =>
      MarkBehind(s, st.pos + |ItemRaw(i)|, i, items[1..], last, more);
      LoopText(s, st, text, value);
      l := st.lastElem;
    case Child(lead, elem) =>
      l := LoopChild(s, st, lead, elem);
  }

  lemma FirstProper(items: seq<Item>, last: string)
    requires items != [] && ProperItems(items, last)
    ensures ProperItem(items[0]) && Joins(items[0], items[1..], last) && ProperItems(items[1..], last)
  {
    hide ProperItem;
  }

  lemma {:induction false} LoopChild(s: string, st: State, lead: string, e: Elem) returns (l: Option<string>)
    requires st.mode == ContentMode && st.path != [] && Inside(st) && White(lead) && ProperElem(e)
    requires Matches(s, st.pos, lead + ElemRaw(e))
    ensures Loop(s, st, Appended(st, st.pos + |lead| + |ElemRaw(e)|, l, [ElemTree(e)]))
    decreases e, 2
  {
    hide Matches, Loop, White, ElemRaw, ProperElem, ElemTree, SkipSpaces;
    var p := st.pos + |lead|;
    MatchesAppend(s, st.pos, lead, ElemRaw(e));
    ElemStart(s, p, e);
    SpacesEnd(s, st.pos, lead);
    LoopToMarkup(s, st, p);
    var st1 := st.(pos := p, mode := ElementMode);
    l := LoopElem(s, st1, p, e);
    var q := p + |ElemRaw(e)|;
    AttachInside(st1, q, l, ElemTree(e));
    LoopTrans(s, st, st1, Appended(st, q, l, [ElemTree(e)]));
  }

  /** A whole element, with two tags or one. */
  lemma {:induction false} LoopElem(s: string, st: State, p: nat, e: Elem) returns (l: Option<string>)
    requires ProperElem(e) && st.mode == ElementMode && st.pos == p && Inside(st) && (st.hasTop ==> st.path != [])
    requires Matches(s, p, ElemRaw(e))
    ensures Loop(s, st, Attach(st.(pos := p + |ElemRaw(e)|, mode := ContentMode, hasTop := true, lastElem := l),
                               ElemTree(e)))
    decreases e, 1
  {
    hide Matches, Loop, ElemRaw, ElemTree, Leave, Attach, TagRaw, Opened, SkipSpaces, ItemsRaw;
    ElemStart(s, p, e);
    LoopTag(s, st, p, e);
    var b := p + |TagRaw(e)|;
    if e.Empty? {
      l := LoopEmpty(s, st, p, e, b);
    } else {
      l := LoopFull(s, st, p, e, b + 1);
    }
  }

  lemma LoopEmpty(s: string, st: State, p: nat, e: Elem, b: nat) returns (l: Option<string>)
    requires ProperElem(e) && e.Empty? && Inside(st) && (st.hasTop ==> st.path != []) && st.pos == p
    requires Matches(s, p, ElemRaw(e)) && b == p + |TagRaw(e)|
    requires Loop(s, st, Opened(st, b, ModeOf(e), e))
    ensures Loop(s, st, Attach(st.(pos := p + |ElemRaw(e)|, mode := ContentMode, hasTop := true, lastElem := l),
                               ElemTree(e)))
  {
    hide Matches, Loop, ElemTree, Leave, Attach, AttrList, AttrsRaw;
    l := Some(e.name);
    ElemStart(s, p, e);
    ClosesAt(s, p, e);
    var o := Opened(st, b, ModeOf(e), e);
    LeaveOpened(st, e, o, b + 2);
    LoopClose(s, o, b, e.name);
    LoopTrans(s, st, o, Leave(o.(pos := b + 2), e.name).st);
  }

  lemma ClosesAt(s: string, p: nat, e: Elem)
    requires e.Empty? && Matches(s, p, TagRaw(e) + Mark(MarkOf(e)))
    ensures var b := p + |TagRaw(e)|; b < |s| && s[b] == '/' && At(s, b + 1) == '>'
  {
    hide Matches, TagRaw;
    MatchesAppend(s, p, TagRaw(e), "/>");
    MatchesTwo(s, p + |TagRaw(e)|, "/>");
  }

  lemma {:induction false} LoopFull(s: string, st: State, p: nat, e: Elem, b: nat) returns (l: Option<string>)
    requires ProperElem(e) && e.Full? && Inside(st) && (st.hasTop ==> st.path != []) && st.pos == p
    requires Matches(s, p, ElemRaw(e)) && b == p + |TagRaw(e)| + 1
    requires Loop(s, st, Opened(st, b, ContentMode, e))
    ensures Loop(s, st, Attach(st.(pos := p + |ElemRaw(e)|, mode := ContentMode, hasTop := true, lastElem := l),
                               ElemTree(e)))
    decreases e, 0
  {
    hide Matches, Loop, ElemTree, ElemRaw, Leave, Attach, AttrList, TagRaw, ItemsRaw, ItemTrees, Inside, SkipSpaces;
    var end := EndTag(e.name, e.close);
    ElemStart(s, p, e);
    var o := Opened(st, b, ContentMode, e);
    OpenedInside(st, b, ContentMode, e);
    var c;
    c, l := LoopItems(s, o, e.items, e.last, end);
    var o1 := Appended(o, c, l, ItemTrees(e.items));
    LoopTrans(s, st, o, o1);
    var q := b + |ItemsRaw(e.items)| + |e.last|;
    EndStands(s, b, e);
    hide EndTag;
    LoopToMarkup(s, o1, q);
    var o2 := o1.(pos := q, mode := ElementMode);
    LoopTrans(s, st, o1, o2);
    assert [] + ItemTrees(e.items) == ItemTrees(e.items);
    LeaveOpened(st, e, o2, q + |end|);
    LoopEnd(s, o2, q, e.name, e.close);
    LoopTrans(s, st, o2, Leave(o2.(pos := q + |end|), e.name).st);
  }

  lemma EndStands(s: string, b: nat, e: Elem)
    requires e.Full? && Matches(s, b, ItemsRaw(e.items) + (e.last + EndTag(e.name, e.close)))
    ensures var q := b + |ItemsRaw(e.items)| + |e.last|;
            && Matches(s, q, EndTag(e.name, e.close))
            && q + 1 < |s| && s[q] == '<' && At(s, q + 1) == '/'
  {
    hide Matches, ItemsRaw;
    var end := EndTag(e.name, e.close);
    MatchesAppend(s, b, ItemsRaw(e.items), e.last + end);
    MatchesAppend(s, b + |ItemsRaw(e.items)|, e.last, end);
    var q := b + |ItemsRaw(e.items)| + |e.last|;
    MatchesAppend(s, q, "</", e.name + (e.close + ">"));
    MatchesTwo(s, q, "</");
  }

  // ---- The prolog ----

  lemma NoteAt(s: string, p: nat, n: Note)
    requires ProperNote(n) && Matches(s, p, NoteRaw(n))
    ensures var q := p + |NoteRaw(n)|; p < q <= |s| && SkipMisc(s, p) == SkipMisc(s, SkipSpaces(s, q))
  {
    hide Matches, ProperNote, SkipMisc, SkipSpaces;
    match n
    case Comment(body) => CommentAt(s, p, body);
    case Instruction(body) => InstructionAt(s, p, body);
  }

  lemma CommentAt(s: string, p: nat, body: string)
    requires ProperNote(Comment(body)) && Matches(s, p, NoteRaw(Comment(body)))
    ensures var q := p + |body| + 7; q <= |s| && SkipMisc(s, p) == SkipMisc(s, SkipSpaces(s, q))
  {
    hide Matches, SkipSpaces, MatchesFold, ProperNote, SkipMisc, SkipComment, NoteRaw;
    NoteStart(s, p, Comment(body));
    CommentFold(s, p);
    CommentEnd(s, p, body);
    OverComment(s, p, p + |body| + 7);
  }

  lemma InstructionAt(s: string, p: nat, body: string)
    requires ProperNote(Instruction(body)) && Matches(s, p, NoteRaw(Instruction(body)))
    ensures var q := p + |body| + 4; q <= |s| && SkipMisc(s, p) == SkipMisc(s, SkipSpaces(s, q))
  {
    hide Matches, Find, SkipSpaces, MatchesFold, AtXmlDecl, ProperNote, SkipMisc, NoteRaw;
    InstructionEnd(s, p, body);
    OverInstruction(s, p, p + |body| + 2);
  }

  lemma OverComment(s: string, p: nat, q: nat)
    requires p < q <= |s| && MatchesFold(s, p, "<!--") && SkipComment(s, p) == Some(q)
    ensures SkipMisc(s, p) == SkipMisc(s, SkipSpaces(s, q))
  {
    hide SkipComment, MatchesFold, AtXmlDecl, SkipSpaces;
  }

  lemma OverInstruction(s: string, p: nat, q: nat)
    requires p <= q && q + 2 <= |s| && !MatchesFold(s, p, "<!--") && !AtXmlDecl(s, p)
    requires MatchesFold(s, p, "<?") && Find(s, p, "?>") == Some(q)
    ensures SkipMisc(s, p) == SkipMisc(s, SkipSpaces(s, q + 2))
  {
    hide SkipComment, MatchesFold, AtXmlDecl, SkipSpaces, Find;
  }

  lemma CommentFold(s: string, p: nat)
    requires Matches(s, p, "<!--")
    ensures MatchesFold(s, p, "<!--")
  {
    FoldOfMatch(s, p, "<!--");
  }

  /** The notes in front of the root are passed over. */
  lemma {:induction false} BeforeSkipped(s: string, p: nat, ns: seq<(Note, string)>, e: Elem)
    requires (forall k | 0 <= k < |ns| :: ProperNote(ns[k].0) && White(ns[k].1)) && ProperElem(e)
    requires Matches(s, p, BeforeRaw(ns) + ElemRaw(e))
    ensures var q := p + |BeforeRaw(ns)|; q <= |s| && p <= |s| && !IsSpace(At(s, p)) && SkipMisc(s, p) == Skip(true, q)
    decreases |ns|
  {
    hide Matches, ProperNote, ProperElem, ElemRaw, NoteRaw, SkipMisc, SkipSpaces, White;
    if ns == [] {
      assert BeforeRaw(ns) + ElemRaw(e) == ElemRaw(e);
      ElemStart(s, p, e);
      SkipMiscPlain(s, p);
      SkipOneSpaceAt(s, p);
    } else {
      var n, w, rest := ns[0].0, ns[0].1, BeforeRaw(ns[1..]) + ElemRaw(e);
      assert BeforeRaw(ns) + ElemRaw(e) == NoteRaw(n) + (w + rest);
      MatchesAppend(s, p, NoteRaw(n), w + rest);
      var q := p + |NoteRaw(n)|;
      MatchesAppend(s, q, w, rest);
      NoteStart(s, p, n);
      NoteAt(s, p, n);
      BeforeSkipped(s, q + |w|, ns[1..], e);
      SpacesEnd(s, q, w);
    }
  }

  lemma DeclarationPieces(s: string, p: nat, v: string, gap: string, rest: string)
    requires Matches(s, p, "<?xml " + (v + ("?>" + gap)) + rest) && rest != ""
    ensures Matches(s, p, "<?xml ") && Matches(s, p, "<?xml " + v + "?>") && Matches(s, p + 8 + |v|, gap)
    ensures var q := p + 8 + |v| + |gap|; q < |s| && At(s, q) == rest[0]
  {
    hide Matches;
    var w := "<?xml " + v + "?>";
    assert "<?xml " + (v + ("?>" + gap)) + rest == w + (gap + rest);
    assert w == "<?xml " + (v + "?>");
    MatchesAppend(s, p, w, gap + rest);
    MatchesAppend(s, p + |w|, gap, rest);
    MatchesFirst(s, p + |w| + |gap|, rest);
    MatchesAppend(s, p, "<?xml ", v + "?>");
  }

  /** The declaration of XML, with the white space around it, is passed over. */
  lemma DeclarationSkipped(s: string, p: nat, d: Document, rest: string)
    requires ProperDocument(d) && d.declaration.Some? && rest != "" && !IsSpace(rest[0])
    requires Matches(s, p, DeclarationRaw(d) + rest)
    ensures p <= |s| && Matches(s, p, "<?xml ")
    ensures SkipString(s, p, "?>").ok && SkipSpaces(s, SkipString(s, p, "?>").pos) == p + |DeclarationRaw(d)|
  {
    hide Matches, ProperElem, ProperNote, SkipSpaces, Find, White, IsSpace, SkipString;
    DeclarationOver(s, p, d.declaration.value, d.gap, rest);
  }

  lemma DeclarationOver(s: string, p: nat, v: string, gap: string, rest: string)
    requires White(gap) && rest != "" && !IsSpace(rest[0]) && forall k | 0 <= k <= |v| :: !Matches(v, k, "?>")
    requires Matches(s, p, "<?xml " + (v + ("?>" + gap)) + rest)
    ensures p <= |s| && Matches(s, p, "<?xml ") && SkipString(s, p, "?>").ok
    ensures SkipSpaces(s, SkipString(s, p, "?>").pos) == p + 8 + |v| + |gap|
  {
    hide Matches, SkipSpaces, Find, White, IsSpace, SkipString;
    DeclarationPieces(s, p, v, gap, rest);
    DeclarationEnd(s, p, v);
    SpacesEnd(s, p + 8 + |v|, gap);
    SkippedTo(s, p, p + 6 + |v|, "?>");
  }

  lemma SkippedTo(s: string, p: nat, q: nat, key: string)
    requires p <= |s| && key != "" && Find(s, p, key) == Some(q)
    ensures SkipString(s, p, key).ok && SkipString(s, p, key).pos == q + |key|
  {
    hide Find;
  }

  lemma DeclarationEnd(s: string, p: nat, v: string)
    requires Matches(s, p, "<?xml " + v + "?>") && forall k | 0 <= k <= |v| :: !Matches(v, k, "?>")
    ensures Find(s, p, "?>") == Some(p + 6 + |v|) && p + 8 + |v| <= |s|
  {
    var w := "<?xml " + v + "?>";
    var j := 6 + |v|;
    forall k | 0 <= k < j ensures !Matches(w, k, "?>") {
      if k < 6 {
        if k == 1 { Differs(w, k, "?>", 1); } else { Differs(w, k, "?>", 0); }
      } else if k - 6 + 2 <= |v| {
        assert w[k..k + 2] == v[k - 6..k - 6 + 2];
        assert !Matches(v, k - 6, "?>");
      } else {
        Differs(w, k, "?>", 1);
      }
    }
    assert w[j..j + 2] == "?>";
    FindIn(s, p, w, j, "?>");
  }

  lemma NoteIsNoDeclaration(s: string, p: nat, n: Note)
    requires ProperNote(n) && Matches(s, p, NoteRaw(n))
    ensures !Matches(s, p, "<?xml ")
  {
    hide ProperNote, AtXmlDecl, Matches;
    NoteStart(s, p, n);
    match n
    case Comment(body) => NoSpecial(s, p, "<?xml ");
    case Instruction(body) =>
      InstructionEnd(s, p, body);
      DeclarationFold(s, p);
  }

  /** The first note's text, and what is behind it. */
  lemma FirstBefore(s: string, p: nat, ns: seq<(Note, string)>, more: string)
    requires ns != [] && Matches(s, p, BeforeRaw(ns) + more)
    ensures Matches(s, p, NoteRaw(ns[0].0))
  {
    hide NoteRaw, Matches;
    assert BeforeRaw(ns) + more == NoteRaw(ns[0].0) + (ns[0].1 + BeforeRaw(ns[1..]) + more);
    MatchesAppend(s, p, NoteRaw(ns[0].0), ns[0].1 + BeforeRaw(ns[1..]) + more);
  }

  lemma ElementIsNoDeclaration(s: string, p: nat, e: Elem)
    requires ProperElem(e) && Matches(s, p, ElemRaw(e))
    ensures !Matches(s, p, "<?xml ")
  {
    hide Matches, ProperElem, ElemRaw;
    ElemStart(s, p, e);
    NoSpecial(s, p, "<?xml ");
  }

  /** A note or the root in first place is no declaration. */
  lemma NoDeclarationFirst(s: string, p: nat, ns: seq<(Note, string)>, e: Elem)
    requires (forall k | 0 <= k < |ns| :: ProperNote(ns[k].0) && White(ns[k].1)) && ProperElem(e)
    requires Matches(s, p, BeforeRaw(ns) + ElemRaw(e))
    ensures !Matches(s, p, "<?xml ")
  {
    hide Matches, ProperNote, ProperElem, ElemRaw, NoteRaw, White;
    if ns == [] {
      assert BeforeRaw(ns) + ElemRaw(e) == ElemRaw(e);
      ElementIsNoDeclaration(s, p, e);
    } else {
      hide BeforeRaw;
      FirstBefore(s, p, ns, ElemRaw(e));
      NoteIsNoDeclaration(s, p, ns[0].0);
    }
  }

  lemma DeclarationFold(s: string, p: nat)
    ensures Matches(s, p, "<?xml ") ==> AtXmlDecl(s, p)
  {
    if Matches(s, p, "<?xml ") { FoldOfMatch(s, p, "<?xml "); }
  }

  lemma PrologIs(s: string, d: Document)
    requires ProperDocument(d) && s == DocumentRaw(d)
    ensures var p := |d.lead| + |DeclarationRaw(d)| + |BeforeRaw(d.before)|;
            && Prolog(s) == (None, p) && p <= |s| && Matches(s, p, ElemRaw(d.root) + (AfterRaw(d.after) + d.last))
  {
    hide Matches, ProperElem, ProperNote, ElemRaw, SkipMisc, SkipSpaces, SkipString, BeforeRaw, AfterRaw, White;
    var more := AfterRaw(d.after) + d.last;
    var core := BeforeRaw(d.before) + ElemRaw(d.root);
    assert s == d.lead + (DeclarationRaw(d) + (core + more));
    Whole(s);
    MatchesAppend(s, 0, d.lead, DeclarationRaw(d) + (core + more));
    var p0 := |d.lead|;
    MatchesAppend(s, p0, DeclarationRaw(d), core + more);
    var p1 := p0 + |DeclarationRaw(d)|;
    MatchesAppend(s, p1, core, more);
    MatchesAppend(s, p1, BeforeRaw(d.before), ElemRaw(d.root));
    var p := p1 + |BeforeRaw(d.before)|;
    MatchesAppend(s, p, ElemRaw(d.root), more);
    BeforeSkipped(s, p1, d.before, d.root);
    RootStands(s, p, d.root);
    if d.declaration.Some? {
      CoreStarts(s, p1, core);
      MatchesAppend(s, p0, DeclarationRaw(d), core);
      DeclarationSkipped(s, p0, d, core);
      DeclarationStarts(s, p0, d);
    } else {
      NoDeclarationFirst(s, p0, d.before, d.root);
    }
    SpacesEnd(s, 0, d.lead);
  }

  lemma CoreStarts(s: string, p: nat, core: string)
    requires core != "" && Matches(s, p, core) && !IsSpace(At(s, p))
    ensures !IsSpace(core[0])
  {
    MatchesFirst(s, p, core);
  }

  lemma DeclarationStarts(s: string, p: nat, d: Document)
    requires Matches(s, p, "<?xml ")
    ensures !IsSpace(At(s, p))
  {
    MatchesFirst(s, p, "<?xml ");
  }

  lemma Whole(s: string)
    ensures Matches(s, 0, s)
  {
  }

  lemma RootStands(s: string, p: nat, e: Elem)
    requires ProperElem(e) && Matches(s, p, ElemRaw(e))
    ensures ElemRaw(e) != "" && SkipMisc(s, p) == Skip(true, p) && !Matches(s, p, "<!DOCTYPE")
  {
    hide ProperElem, ElemRaw, SkipMisc, SkipSpaces, Matches;
    ElemStart(s, p, e);
    SkipMiscPlain(s, p);
    SkipOneSpaceAt(s, p);
    NoSpecial(s, p, "<!DOCTYPE");
    Nonempty(e);
  }

  lemma Nonempty(e: Elem)
    ensures ElemRaw(e) != ""
  {
  }

  // ---- Behind the root ----

  lemma {:induction false} LoopAfter(s: string, st: State, ns: seq<(string, Note)>, last: string)
    requires st.mode == ContentMode && st.stack == [] && White(last)
    requires forall k | 0 <= k < |ns| :: White(ns[k].0) && ProperNote(ns[k].1)
    requires Matches(s, st.pos, AfterRaw(ns) + last) && st.pos + |AfterRaw(ns) + last| == |s|
    ensures Run(s, st) == Parsed(st.roots)
    decreases |ns|
  {
    hide Matches, ProperNote, White, NoteRaw, Run;
    if ns == [] {
      assert AfterRaw(ns) + last == last;
      AtEnd(s, st, last);
    } else {
      var n, rest := ns[0].0 + NoteRaw(ns[0].1), AfterRaw(ns[1..]) + last;
      assert AfterRaw(ns) + last == n + rest;
      MatchesAppend(s, st.pos, n, rest);
      LoopAside(s, st, ns[0].0, ns[0].1);
      var st1 := st.(pos := st.pos + |n|);
      LoopAfter(s, st1, ns[1..], last);
    }
  }

  lemma AtEnd(s: string, st: State, last: string)
    requires st.mode == ContentMode && st.stack == [] && White(last)
    requires Matches(s, st.pos, last) && st.pos + |last| == |s|
    ensures Run(s, st) == Parsed(st.roots)
  {
    SpacesEnd(s, st.pos, last);
    var st1 := st.(pos := |s|);
    if st.pos < |s| {
      assert Content(s, st) == (NoNode, st1);
    }
    hide Content;
    assert Step(s, st1) == Finished;
    assert st.pos < |s| ==> Step(s, st) == More(st1);
    hide Step;
    assert Run(s, st1) == Parsed(st.roots);
  }

  // ---- The theorem ----

  /** However a document is written, reading it gives its tree. */
  lemma ReadDocument(d: Document)
    requires ProperDocument(d)
    ensures Parse(DocumentRaw(d)) == Parsed([ElemTree(d.root)])
  {
    hide Matches, ProperElem, ProperNote, ElemRaw, White, Run, Prolog, BeforeRaw, AfterRaw, DeclarationRaw, ElemTree;
    var s := DocumentRaw(d);
    PrologIs(s, d);
    var p := |d.lead| + |DeclarationRaw(d)| + |BeforeRaw(d.before)|;
    var more := AfterRaw(d.after) + d.last;
    MatchesAppend(s, p, ElemRaw(d.root), more);
    var st := Start(p);
    var l := LoopElem(s, st, p, d.root);
    var q := p + |ElemRaw(d.root)|;
    var st1 := st.(pos := q, mode := ContentMode, hasTop := true, lastElem := l, roots := [ElemTree(d.root)]);
    assert Attach(st.(pos := q, mode := ContentMode, hasTop := true, lastElem := l), ElemTree(d.root)) == st1;
    LoopAfter(s, st1, d.after, d.last);
  }

  /** An empty element is the same with one tag as with two, anywhere in a document. */
  lemma EitherTag(d: Document, e: Document, name: string, attrs: seq<AttrForm>, tail: string, w: string, close: string)
    requires ProperDocument(d) && ProperDocument(e)
    requires d.root == Empty(name, attrs, tail) && e.root == Full(name, attrs, tail, [], w, close)
    ensures Parse(DocumentRaw(d)) == Parse(DocumentRaw(e))
    ensures Parse(DocumentRaw(d)) == Parsed([Element(name, None, AttrList(attrs), [])])
  {
    hide Parse, DocumentRaw, ProperDocument;
    ReadDocument(d);
    ReadDocument(e);
    NoItems();
  }

  lemma NoItems()
    ensures ItemTrees([]) == []
  {
  }

  // ---- What is refused, wherever it stands ----

  lemma StopsThere(s: string, st: State, rc: Rc)
    requires st.pos <= |s| && Step(s, st) == Fail(rc)
    ensures Run(s, st) == Rejected(rc)
  {
    hide Step;
  }

  /** An end tag with another name than the element that is open. */
  lemma WrongEnd(s: string, st: State, n: string, close: string)
    requires st.mode == ElementMode && IsName(n) && White(close) && Matches(s, st.pos, EndTag(n, close))
    requires st.stack != [] && st.stack[0] != n
    ensures st.pos <= |s| && Run(s, st) == Rejected(SyntaxErr)
  {
    hide Step, IsName, White, Matches;
    EndRead(s, st, st.pos, n, close);
    StopsThere(s, st, SyntaxErr);
  }

  /** A second root. */
  lemma SecondRoot(s: string, st: State, n: string, r: nat, m: Ahead)
    requires st.mode == ElementMode && st.pos < |s| && s[st.pos] == '<' && IsName(n) && ':' !in n
    requires Matches(s, st.pos + 1, n) && Upcoming(s, st.pos + 1 + |n|, r, m)
    requires st.hasTop && st.stack == []
    ensures Run(s, st) == Rejected(SyntaxErr)
  {
    hide Step, IsName, Upcoming, Matches;
    StartRead(s, st, st.pos, n, r, m);
    StopsThere(s, st, SyntaxErr);
  }

  /** An attribute with the name of one before it. */
  lemma RepeatedAttr(s: string, st: State, a: AttrForm, r: nat, m: Ahead)
    requires st.mode == AttributeMode && st.path != [] && HasAttr(st.path[0].attrs, a.name)
    requires ProperAttr(a) && Matches(s, st.pos, AttrRaw(a)) && Upcoming(s, st.pos + |AttrRaw(a)|, r, m)
    ensures st.pos <= |s| && Run(s, st) == Rejected(SyntaxErr)
  {
    hide Step, Matches, Upcoming, ProperAttr, AttrRaw, HasAttr;
    AttrRead(s, st, st.pos, a, r, m);
    StopsThere(s, st, SyntaxErr);
  }

  /** Character data outside the root. */
  lemma StrayText(s: string, st: State, text: Written, value: string)
    requires st.mode == ContentMode && st.path == [] && ProperItem(Chunk(text, value))
    requires Matches(s, st.pos, text.Raw()) && At(s, st.pos + |text.Raw()|) == '<'
    ensures st.pos <= |s| && Run(s, st) == Rejected(HierarchyErr)
  {
    hide Step, Matches, Written.Raw, ProperItem;
    TextRead(s, st, text, value);
    StopsThere(s, st, HierarchyErr);
  }

  /** An end of the text while an element is open. */
  lemma LeftOpen(s: string, st: State)
    requires st.pos == |s| && st.stack != []
    ensures Run(s, st) == Rejected(SyntaxErr)
  {
    assert Step(s, st) == Finished;
  }
}
