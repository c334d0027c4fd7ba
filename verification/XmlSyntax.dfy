/** The XML parser of libxmlet/src/parser.c as functions on its state: the lookahead
    tokens, the three node readers and one turn of the parse loop.

    The document is a C string, so it holds no NUL; a position at its length stands
    for a pointer to the terminator.  The tree under construction is the open path
    from the current node up to the document, innermost element first. */
module XmlSyntax {
  import opened Wrappers
  import opened XmlChars
  import opened XmlText

  datatype Attr = Attr(name: string, value: Option<string>)

  /** A DOM node; `value` is the nodeValue of an element, which the parser leaves null. */
  datatype Node =
    | Element(name: string, value: Option<string>, attrs: seq<Attr>, children: seq<Node>)
    | Text(text: string)

  datatype Mode = ElementMode | AttributeMode | ContentMode

  /** An element whose end tag has not been read. */
  datatype Open = Open(name: string, attrs: seq<Attr>, children: seq<Node>)

  /** `stack` is pCurElement and its links; `path` leads from currentNodePtr to the document. */
  datatype State = State(
    pos: nat,
    mode: Mode,
    stack: seq<string>,
    path: seq<Open>,
    roots: seq<Node>,
    lastElem: Option<string>,
    hasTop: bool)

  /** Return codes; `Outside` marks inputs the C gives no meaning to, or this model leaves out. */
  datatype Rc = SyntaxErr | Failed | HierarchyErr | Outside

  datatype Result = Parsed(roots: seq<Node>) | Rejected(rc: Rc)

  /** What one call of XMLParserGetNextNode hands to the parse loop. */
  datatype Next =
    | FileDone
    | NoNode
    | StartNode(name: string)
    | TextNode(text: string)
    | AttrNode(name: string, value: Option<string>)
    | EndNode(name: string)
    | Error
    | Undefined

  // ---- Skipping (parser.c 1427-1436, 1638-1891) ----

  predicate IsSpace(c: char) {
    c == '\n' || c == '\t' || c == '\r' || c == ' '
  }

  /** XMLParserSkipWhiteSpaces. */
  function SkipSpaces(s: string, i: nat): (j: nat)
    ensures i <= j && (i <= |s| ==> j <= |s|)
    decreases |s| - i
  {
    if i < |s| && IsSpace(s[i]) then SkipSpaces(s, i + 1) else i
  }

  /** strstr(s + i, key) for a key that is not empty. */
  function Find(s: string, i: nat, key: string): (r: Option<nat>)
    requires key != ""
    ensures r.Some? ==> i <= r.value && Matches(s, r.value, key)
    decreases |s| - i
  {
    if Matches(s, i, key) then Some(i)
    else if i < |s| then Find(s, i + 1, key)
    else None
  }

  /** XMLParserSkipComment. */
  function SkipComment(s: string, i: nat): (r: Option<nat>)
    ensures r.Some? ==> i < r.value <= |s|
  {
    match Find(s, i, "-->")
    case Some(j) => if j != i && s[j - 1] != '-' then Some(j + 3) else None
    case None => None
  }

  predicate AtXmlDecl(s: string, i: nat) {
    MatchesFold(s, i, "<?xml ") || MatchesFold(s, i, "<?xml?")
  }

  /** XMLParserSkipPI. */
  function SkipPI(s: string, i: nat): (r: Option<nat>)
    requires i <= |s|
    ensures r.Some? ==> i <= r.value <= |s|
    ensures r.Some? && MatchesFold(s, i, "<?") ==> i < r.value
  {
    if AtXmlDecl(s, i) then None
    else if MatchesFold(s, i, "<?") then
      match Find(s, i, "?>")
      case Some(j) => if j != i then Some(j + 2) else None
      case None => None
    else Some(i)
  }

  /** Whether skipping succeeded, and where the pointer was left. */
  datatype Skip = Skip(ok: bool, pos: nat)

  /** XMLParserSkipString: a missing key leaves the pointer at the end. */
  function SkipString(s: string, i: nat, key: string): (r: Skip)
    requires i <= |s| && key != ""
    ensures i <= r.pos <= |s| && (r.ok ==> i < r.pos)
  {
    match Find(s, i, key)
    case Some(j) => Skip(true, j + |key|)
    case None => Skip(false, |s|)
  }

  /** XMLParserSkipMisc. */
  function SkipMisc(s: string, i: nat): (r: Skip)
    requires i <= |s|
    ensures i <= r.pos <= |s|
    decreases |s| - i
  {
    if MatchesFold(s, i, "<!--") then
      match SkipComment(s, i)
      case Some(j) => SkipMisc(s, SkipSpaces(s, j))
      case None => Skip(false, SkipSpaces(s, i))
    else if AtXmlDecl(s, i) then Skip(false, SkipSpaces(s, i))
    else if MatchesFold(s, i, "<?") then
      var r := SkipString(s, i, "?>");
      if r.ok then SkipMisc(s, SkipSpaces(s, r.pos)) else Skip(false, SkipSpaces(s, r.pos))
    else Skip(true, SkipSpaces(s, i))
  }

  // ---- Tokens (parser.c 1900-1997) ----

  /** A token and the pointer after it; the empty text stands for the result 0. */
  datatype Token = Token(text: string, pos: nat)

  /** The end of the name characters that start at i. */
  function NameEnd(s: string, i: nat): (e: nat)
    requires i <= |s|
    ensures i <= e <= |s|
    decreases |s| - i
  {
    var d := Utf8ToInt(s, i);
    if i < |s| && IsNameChar(d, true) then NameEnd(s, i + d.len) else i
  }

  /** The length of the token at p, or -1 where XMLParserGetNextToken gives up. */
  function TokenLength(s: string, p: nat): (n: int)
    requires p <= |s|
    ensures n <= |s| - p
  {
    var c := At(s, p);
    if c == '"' || c == '\'' then 1
    else if c == '<' then
      var d := Utf8ToInt(s, p + 1);
      if d.Code? && d.c == '/' as int then
        assert p + 1 < |s|;
        2
      else if IsNameChar(d, false) then 1
      else -1
    else if c == '=' then 1
    else if c == '/' then if At(s, p + 1) == '>' then 2 else 0
    else if c == '>' then 1
    else
      var d := Utf8ToInt(s, p);
      if p < |s| && IsNameChar(d, false) then NameEnd(s, p + d.len) - p else -1
  }

  /** XMLParserGetNextToken. */
  function NextToken(s: string, i: nat): (t: Token)
    requires i <= |s|
    ensures i <= t.pos <= |s| && (t.text != "" ==> i < t.pos)
  {
    if i == |s| then Token("", i)
    else
      var m := SkipMisc(s, i);
      if !m.ok then Token("", m.pos)
      else
        var n := TokenLength(s, m.pos);
        match CopyToken(s, m.pos, n)
        case Some(w) => Token(w, m.pos + n)
        case None => Token("", m.pos)
  }

  // ---- Values (inc/xmlparser.h 155-183) ----

  /** *p <= ' ' for a plain, signed char. */
  predicate IsBlank(c: char) {
    c as int <= 0x20 || c as int >= 0x80
  }

  /** The first position from i that XmlStrduptrim does not step over. */
  function TrimStart(s: string, i: nat): (p: nat)
    ensures i <= p && (i <= |s| ==> p <= |s|)
    decreases |s| - i
  {
    if i < |s| && IsBlank(s[i]) && s[i] != '\n' then TrimStart(s, i + 1) else i
  }

  /** XmlStrduptrim; None where it runs off its 1024-byte buffer. */
  function Trim(s: string): Option<string> {
    var p := TrimStart(s, 0);
    if |s| > 1023 || p >= |s| then None
    else if s[p] == '\n' then Some("\n")
    else Some(s[p..])
  }

  // ---- Tags and content (parser.c 2349-2845, 2994-3158) ----

  /** ParserProcessSTag, after the `<`.  The lookahead is taken back, to a `/>` itself or else to
      the end of the name. */
  function STag(s: string, st: State): (r: (Next, State))
    requires st.pos <= |s|
    ensures st.pos <= r.1.pos <= |s| && r.1 == st.(pos := r.1.pos, mode := r.1.mode, lastElem := r.1.lastElem)
    ensures r.0.StartNode? || r.0.Error? || r.0.Undefined?
  {
    var t := NextToken(s, st.pos);
    if t.text == "" then (Error, st.(pos := t.pos))
    else if ':' in t.text then (Undefined, st)
    else
      var st1 := st.(lastElem := Some(t.text), pos := t.pos);
      var u := NextToken(s, t.pos);
      if u.text == "" then (Error, st1.(pos := u.pos))
      else if u.text == "/>" then (StartNode(t.text), st1.(mode := ElementMode, pos := SkipMisc(s, t.pos).pos))
      else if u.text == ">" then (StartNode(t.text), st1.(mode := ContentMode, pos := u.pos))
      else (StartNode(t.text), st1.(mode := AttributeMode))
  }

  /** ParserProcessETag, after the `</`. */
  function ETag(s: string, st: State): (r: (Next, State))
    requires st.pos <= |s|
    ensures st.pos <= r.1.pos <= |s| && r.1 == st.(pos := r.1.pos)
    ensures r.0.EndNode? || r.0.Error?
  {
    var t := NextToken(s, st.pos);
    if t.text == "" then (Error, st.(pos := t.pos))
    else
      var u := NextToken(s, SkipSpaces(s, t.pos));
      if u.text != ">" then (Error, st.(pos := u.pos)) else (EndNode(t.text), st.(pos := u.pos))
  }

  /** Whether the scan for a bare `<` between the quotes passes; it steps over the byte after a `&`. */
  predicate NoBareLess(s: string, i: nat, e: nat)
    requires e <= |s|
    decreases e - i
  {
    i >= e || (s[i] != '<' && NoBareLess(s, if s[i] == '&' then i + 2 else i + 1, e))
  }

  /** The value between the quotes: null when they enclose nothing. */
  function QuotedValue(s: string, i: nat, e: nat): (Next, Option<string>)
    requires i <= e <= |s|
  {
    if i == e then (NoNode, None)
    else
      match CopyToken(s, i, e - i)
      case None => (Error, None)
      case Some(w) => if Trim(w).None? then (Undefined, None) else (NoNode, Trim(w))
  }

  /** The lookahead that ends XMLParserProcessAttribute, taken back likewise. */
  function AfterAttribute(s: string, st: State): (r: (bool, State))
    requires st.pos <= |s|
    ensures st.pos <= r.1.pos <= |s| && r.1 == st.(pos := r.1.pos, mode := r.1.mode)
    ensures r.1.mode == st.mode || r.1.pos > st.pos
  {
    var t := NextToken(s, st.pos);
    if t.text == "" || t.text == "<" then (false, st.(pos := t.pos))
    else if t.text == ">" then (true, st.(mode := ContentMode, pos := t.pos))
    else if t.text == "/>" then (true, st.(pos := SkipMisc(s, st.pos).pos))
    else (true, st)
  }

  predicate IsNamespaceDecl(name: string) {
    name == "xmlns" || Matches(name, 0, "xmlns:")
  }

  /** The part of XMLParserProcessAttribute after the opening quote. */
  function AfterQuote(s: string, st: State, name: string, quote: string): (r: (Next, State))
    requires st.pos <= |s| && quote != ""
    ensures st.pos <= r.1.pos <= |s| && r.1 == st.(pos := r.1.pos, mode := r.1.mode)
    ensures r.1.mode == st.mode || r.1.pos > st.pos
    ensures r.0.AttrNode? || r.0.Error? || r.0.Undefined?
  {
    match Find(s, st.pos, quote)
    case None => (Error, st)
    case Some(e) =>
      if !NoBareLess(s, st.pos, e) then (Error, st)
      else
        var v := QuotedValue(s, st.pos, e);
        if !v.0.NoNode? then (if v.0.Error? then Error else Undefined, st)
        else if IsNamespaceDecl(name) then (Undefined, st.(pos := e + 1))
        else
          var a := AfterAttribute(s, st.(pos := e + 1));
          (if a.0 then AttrNode(name, v.1) else Error, a.1)
  }

  /** XMLParserProcessAttribute on the token `name` already read. */
  function Attribute(s: string, st: State, name: string): (r: (Next, State))
    requires st.pos <= |s|
    ensures st.pos <= r.1.pos <= |s| && r.1 == st.(pos := r.1.pos, mode := r.1.mode)
    ensures r.1.mode == st.mode || r.1.pos > st.pos
    ensures r.0.AttrNode? || r.0.Error? || r.0.Undefined?
  {
    if !IsNameChar(Utf8ToInt(name, 0), false) then (Error, st)
    else
      var eq := NextToken(s, st.pos);
      if eq.text == "" || eq.text[0] != '=' then (Error, st.(pos := eq.pos))
      else
        var q := NextToken(s, eq.pos);
        if q.text == "" || (q.text[0] != '"' && q.text[0] != '\'') then (Error, st.(pos := q.pos))
        else AfterQuote(s, st.(pos := q.pos), name, q.text)
  }

  /** Where character data stops: at `<`, at `]]>` or at the end. */
  function TextEnd(s: string, i: nat): (e: nat)
    requires i <= |s|
    ensures i <= e <= |s|
    decreases |s| - i
  {
    if i < |s| && s[i] != '<' && !Matches(s, i, "]]>") then TextEnd(s, i + 1) else i
  }

  /** ParserProcessContent; the whole run from `pos`, leading spaces included, is the text. */
  function Content(s: string, st: State): (r: (Next, State))
    requires st.pos < |s| && st.mode == ContentMode
    ensures st.pos <= r.1.pos <= |s| && r.1 == st.(pos := r.1.pos, mode := r.1.mode)
    ensures r.0.NoNode? || r.0.TextNode? ==> st.pos < r.1.pos || r.1.mode == ElementMode
    ensures r.0.NoNode? || r.0.TextNode? || r.0.Error? || r.0.Undefined?
  {
    var p := SkipSpaces(s, st.pos);
    if p == |s| then (NoNode, st.(pos := p))
    else if s[p] == '<' then
      if Matches(s, p, "<![CDATA[") then (Undefined, st.(pos := p))
      else if Matches(s, p, "<!--") then
        match SkipComment(s, p)
        case Some(j) => (NoNode, st.(pos := j))
        case None => (Error, st.(pos := p))
      else if Matches(s, p, "<?") then
        FoldOfMatch(s, p, "<?");
        match SkipPI(s, p)
        case Some(j) => (NoNode, st.(pos := j))
        case None => (Error, st.(pos := p))
      else (NoNode, st.(pos := p, mode := ElementMode))
    else
      var e := TextEnd(s, st.pos);
      if Matches(s, e, "]]>") then (Error, st)
      else
        match CopyToken(s, st.pos, e - st.pos)
        case None => (Error, st)
        case Some(w) =>
          if Trim(w).None? then (Undefined, st) else (TextNode(Trim(w).value), st.(pos := e))
  }

  /** What the parse loop still has to read. */
  function Measure(s: string, st: State): nat
    requires st.pos <= |s|
  {
    2 * (|s| - st.pos) + if st.mode == ContentMode then 1 else 0
  }

  /** XMLParserGetNextNode outside character data, once its token is read. */
  function OnToken(s: string, st: State, text: string): (r: (Next, State))
    requires st.pos <= |s| && st.mode != ContentMode && text != ""
    ensures st.pos <= r.1.pos <= |s|
    ensures r.1 == st.(pos := r.1.pos, mode := r.1.mode, lastElem := r.1.lastElem)
    ensures r.0.AttrNode? ==> st.mode == AttributeMode
    ensures !r.0.FileDone?
  {
    hide STag, ETag, Attribute;
    if text[0] == '>' then (NoNode, st)
    else if text == "</" then ETag(s, st)
    else if text[0] == '<' then STag(s, st)
    else if text == "/>" then
      (if st.lastElem.None? then Error else EndNode(st.lastElem.value), st)
    else if st.mode == AttributeMode then Attribute(s, st, text)
    else (Error, st)
  }

  /** XMLParserGetNextNode (parser.c 3168-3279). */
  function GetNextNode(s: string, st: State): (r: (Next, State))
    requires st.pos <= |s|
    ensures st.pos <= r.1.pos <= |s|
    ensures r.1 == st.(pos := r.1.pos, mode := r.1.mode, lastElem := r.1.lastElem)
    ensures r.0.FileDone? || r.0.Error? || r.0.Undefined? || Measure(s, r.1) < Measure(s, st)
    ensures r.0.EndNode? ==> Measure(s, r.1.(mode := ContentMode)) < Measure(s, st)
    ensures r.0.AttrNode? ==> st.mode == AttributeMode
    ensures r.0.FileDone? <==> st.pos == |s|
  {
    if st.pos == |s| then (FileDone, st)
    else if st.mode == ContentMode then Content(s, st)
    else
      var t := NextToken(s, SkipSpaces(s, st.pos));
      var st1 := st.(pos := t.pos);
      if t.text == "" then
        if st.stack == [] && t.pos == |s| then (NoNode, st1) else (Error, st1)
      else OnToken(s, st1, t.text)
  }

  // ---- The parse loop (parser.c 833-1065, 1117-1317) ----

  datatype Turn = More(st: State) | Finished | Fail(rc: Rc)

  predicate HasAttr(attrs: seq<Attr>, name: string) {
    exists k | 0 <= k < |attrs| :: attrs[k].name == name
  }

  /** ParserProcessElementName: a new open element, unless the document has its root. */
  function Enter(st: State, name: string): Turn {
    if st.hasTop && st.stack == [] then Fail(SyntaxErr)
    else More(st.(hasTop := true, stack := [name] + st.stack, path := [Open(name, [], [])] + st.path))
  }

  /** A text child; the document takes none. */
  function AddText(st: State, text: string): Turn {
    if st.path == [] then Fail(HierarchyErr)
    else More(st.(path := [st.path[0].(children := st.path[0].children + [Text(text)])] + st.path[1..]))
  }

  /** XMLParserProcessAttributeName. */
  function AddAttr(st: State, name: string, value: Option<string>): Turn {
    if st.path == [] then Fail(Outside)
    else if HasAttr(st.path[0].attrs, name) then Fail(SyntaxErr)
    else More(st.(path := [st.path[0].(attrs := st.path[0].attrs + [Attr(name, value)])] + st.path[1..]))
  }

  function Closed(o: Open): Node {
    Element(o.name, None, o.attrs, o.children)
  }

  /** The element o closed, in its place under its parent. */
  function Attach(st: State, n: Node): State {
    if st.path == [] then st.(roots := st.roots + [n])
    else st.(path := [st.path[0].(children := st.path[0].children + [n])] + st.path[1..])
  }

  /** ParserETagVerification, and the move of currentNodePtr to its parent. */
  function Leave(st: State, name: string): Turn {
    if st.stack == [] then Fail(Outside)
    else if st.stack[0] != name then Fail(SyntaxErr)
    else if st.path == [] || st.path[0].name != name then Fail(SyntaxErr)
    else
      More(Attach(st.(stack := st.stack[1..], path := st.path[1..], mode := ContentMode), Closed(st.path[0])))
  }

  /** One turn of the loop of XMLParserParseDocument. */
  function Step(s: string, st: State): (r: Turn)
    requires st.pos <= |s|
    ensures r.More? ==> r.st.pos <= |s| && Measure(s, r.st) < Measure(s, st)
  {
    var (n, st1) := GetNextNode(s, st);
    match n
    case FileDone => Finished
    case NoNode => More(st1)
    case StartNode(name) => Enter(st1, name)
    case TextNode(text) => AddText(st1, text)
    case AttrNode(name, value) => AddAttr(st1, name, value)
    case EndNode(name) => Leave(st1, name)
    case Error => Fail(Failed)
    case Undefined => Fail(Outside)
  }

  /** The loop run to its end. */
  function Run(s: string, st: State): Result
    requires st.pos <= |s|
    decreases Measure(s, st)
  {
    match Step(s, st)
    case More(st1) => Run(s, st1)
    case Finished => if st.stack == [] then Parsed(st.roots) else Rejected(SyntaxErr)
    case Fail(rc) => Rejected(rc)
  }

  /** XMLParserSkipProlog. */
  function Prolog(s: string): (r: (Option<Rc>, nat))
    ensures r.1 <= |s|
  {
    var p := SkipSpaces(s, 0);
    var d := if Matches(s, p, "<?xml ") then SkipString(s, p, "?>") else Skip(true, p);
    if !d.ok then (Some(SyntaxErr), d.pos)
    else
      var m := SkipMisc(s, if Matches(s, p, "<?xml ") then SkipSpaces(s, d.pos) else p);
      if !m.ok then (Some(SyntaxErr), m.pos)
      else if Matches(s, m.pos, "<!DOCTYPE") then (Some(Outside), m.pos)
      else
        var m2 := SkipMisc(s, m.pos);
        (if m2.ok then None else Some(SyntaxErr), m2.pos)
  }

  /** Nothing that SkipMisc passes over stands at i. */
  predicate PastMisc(s: string, i: nat) {
    SkipSpaces(s, i) == i && !MatchesFold(s, i, "<!--") && !MatchesFold(s, i, "<?")
  }

  lemma {:induction false} SpacesPassed(s: string, i: nat)
    ensures SkipSpaces(s, SkipSpaces(s, i)) == SkipSpaces(s, i)
    decreases |s| - i
  {
    if i < |s| && IsSpace(s[i]) {
      SpacesPassed(s, i + 1);
    }
  }

  /** Away from spaces, skipping stops only past everything it skips, and again moves nothing. */
  lemma {:induction false} MiscStops(s: string, i: nat)
    requires i <= |s| && SkipSpaces(s, i) == i
    ensures SkipMisc(s, i).ok ==> PastMisc(s, SkipMisc(s, i).pos) &&
                                  SkipMisc(s, SkipMisc(s, i).pos) == SkipMisc(s, i)
    decreases |s| - i
  {
    hide SkipSpaces, SkipComment, SkipString;
    if MatchesFold(s, i, "<!--") {
      var j := SkipComment(s, i);
      if j.Some? {
        SpacesPassed(s, j.value);
        MiscStops(s, SkipSpaces(s, j.value));
      }
    } else if !AtXmlDecl(s, i) && MatchesFold(s, i, "<?") {
      var r := SkipString(s, i, "?>");
      if r.ok {
        SpacesPassed(s, r.pos);
        MiscStops(s, SkipSpaces(s, r.pos));
      }
    } else {
      DeclIsInstruction(s, i);
    }
  }

  lemma DeclIsInstruction(s: string, i: nat)
    ensures AtXmlDecl(s, i) ==> MatchesFold(s, i, "<?")
  {
    if AtXmlDecl(s, i) {
      var w := if MatchesFold(s, i, "<?xml ") then "<?xml " else "<?xml?";
      assert Lower(At(s, i + 0)) == w[0] && Lower(At(s, i + 1)) == w[1];
    }
  }

  /** A prolog passed over ends at the root's tag or at whatever stands in its place. */
  lemma PrologStops(s: string)
    requires Prolog(s).0.None?
    ensures PastMisc(s, Prolog(s).1) && !Matches(s, Prolog(s).1, "<!DOCTYPE")
  {
    hide SkipSpaces, SkipMisc, SkipString, PastMisc, Matches;
    var p := SkipSpaces(s, 0);
    SpacesPassed(s, 0);
    if Matches(s, p, "<?xml ") {
      var d := SkipString(s, p, "?>");
      SpacesPassed(s, d.pos);
      MiscStops(s, SkipSpaces(s, d.pos));
    } else {
      MiscStops(s, p);
    }
  }

  function Start(pos: nat): State {
    State(pos, ElementMode, [], [], [], None, false)
  }

  /** XmlParserLoadDocument on a buffer. */
  function Parse(s: string): Result {
    var (rc, p) := Prolog(s);
    if rc.Some? then Rejected(rc.value) else Run(s, Start(p))
  }
}
