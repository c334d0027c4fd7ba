/** The parser object of libxmlet/src/parser.c: its methods move the pointers, the token
    buffer and the element stack, link the nodes of the document, and compute what XmlSyntax says. */
module XmlParser {
  import opened Wrappers
  import opened XmlChars
  import opened XmlText
  import opened XmlSyntax
  import opened XmlTokens
  import opened XmlNesting
  import opened XmlBuild
  import Dom
  import DomTrees

  /** A name token is always copied whole: every name character is an XML character. */
  lemma {:induction false} NameDecodes(s: string, p: nat, inside: bool)
    requires p < |s| && IsNameChar(Utf8ToInt(s, p), inside)
    ensures GetChar(s, p) == Utf8ToInt(s, p)
  {
    hide Tails, Gather;
    NameCharIsXmlChar(Utf8ToInt(s, p), inside);
    hide IsHighLetter, IsHighMark;
    Utf8Bytes(s, p);
    assert At(s, p) != '&';
  }

  lemma {:induction false} RunDecodes(s: string, p: nat)
    requires p <= |s|
    ensures Decode(s, p, NameEnd(s, p)).Some?
    decreases |s| - p
  {
    hide Utf8ToInt, GetChar, IsNameChar;
    if p < |s| && IsNameChar(Utf8ToInt(s, p), true) {
      NameIsCode(Utf8ToInt(s, p), true);
      NameDecodes(s, p, true);
      RunDecodes(s, p + Utf8ToInt(s, p).len);
    }
  }

  /** `<` and a slash in overlong form: taken for an end tag, but its copy overshoots. */
  predicate OverlongSlash(s: string, p: nat) {
    At(s, p) == '<' && At(s, p + 1) != '/' && Utf8ToInt(s, p + 1).Code? && Utf8ToInt(s, p + 1).c == '/' as int
  }

  /** Whatever other token is recognised is copied without failure. */
  lemma TokenCopies(s: string, p: nat)
    requires p < |s| && TokenLength(s, p) > 0 && !OverlongSlash(s, p)
    ensures CopyToken(s, p, TokenLength(s, p)).Some?
  {
    hide *;
    if s[p] in {'"', '\'', '<', '=', '/', '>'} {
      MarkCopies(s, p);
    } else {
      NameCopies(s, p);
    }
  }

  lemma NameCopies(s: string, p: nat)
    requires p < |s| && TokenLength(s, p) > 0 && s[p] !in {'"', '\'', '<', '=', '/', '>'}
    ensures CopyToken(s, p, TokenLength(s, p)).Some?
  {
    hide GetChar, Utf8ToInt, IsNameChar, Decode, NameEnd;
    NameIsCode(Utf8ToInt(s, p), false);
    NameDecodes(s, p, false);
    RunDecodes(s, p + Utf8ToInt(s, p).len);
    DecodeMore(s, p, p + TokenLength(s, p));
  }

  lemma MarkCopies(s: string, p: nat)
    requires p < |s| && TokenLength(s, p) > 0 && !OverlongSlash(s, p)
    requires s[p] in {'"', '\'', '<', '=', '/', '>'}
    ensures CopyToken(s, p, TokenLength(s, p)).Some?
  {
    hide GetChar, Utf8ToInt, IsNameChar, CopyToken;
    if TokenLength(s, p) == 2 {
      CopyAscii2(s, p);
    } else {
      CopyAscii(s, p);
    }
  }

  lemma DecodeMore(s: string, p: nat, e: nat)
    requires p < e && GetChar(s, p).Code? && Decode(s, p + GetChar(s, p).len, e).Some?
    ensures Decode(s, p, e).Some?
  {
    hide GetChar;
  }

  /** The overlong slash: nothing is copied in the end, and a second try fails the same way. */
  lemma OverlongFails(s: string, p: nat)
    requires p < |s| && OverlongSlash(s, p)
    ensures TokenLength(s, p) == 2 && CopyToken(s, p, 2).None? && NextToken(s, p).text == ""
    ensures GetChar(s, p) == Code('<' as int, 1) && GetChar(s, p + 1) == Code('/' as int, Utf8ToInt(s, p + 1).len)
    ensures Appended(s, p, p + 2) == "</"
  {
    SlashBytes(s, p + 1);
    CopyAscii(s, p);
    hide Utf8ToInt, GetChar, SkipMisc;
    assert Decode(s, p + 1, p + 2).None?;
    assert Copied(GetChar(s, p + 1)) == "/" && Appended(s, p + 1, p + 2) == "/" + "" && "<" + "/" == "</";
    SkipMiscPlain(s, p);
    SkipOneSpace(s, p, p);
  }

  lemma SlashBytes(s: string, i: nat)
    requires At(s, i) != '/' && Utf8ToInt(s, i).Code? && Utf8ToInt(s, i).c == '/' as int
    ensures i < |s| && At(s, i) != '!' && At(s, i) != '?' && Utf8ToInt(s, i).len > 1
    ensures GetChar(s, i) == Utf8ToInt(s, i)
  {
    hide Tails, Gather;
  }

  /** What XMLParserCopyToken appends, whether or not it succeeds in the end. */
  function Appended(s: string, i: nat, e: nat): (w: string)
    ensures Decode(s, i, e).Some? ==> Decode(s, i, e).value == w
    decreases e - i
  {
    if i >= e || GetChar(s, i).Bad? then ""
    else Copied(GetChar(s, i)) + Appended(s, i + GetChar(s, i).len, e)
  }

  /** What the character data at p is read as. */
  function TextAt(s: string, p: nat): (n: Next)
    requires p <= |s|
    ensures n.TextNode? || n.Error? || n.Undefined?
  {
    var e := TextEnd(s, p);
    if Matches(s, e, "]]>") then Error
    else
      match XmlText.CopyToken(s, p, e - p)
      case None => Error
      case Some(w) => if Trim(w).None? then Undefined else TextNode(Trim(w).value)
  }

  lemma TextAtCases(s: string, p: nat)
    requires p <= |s|
    ensures var e := TextEnd(s, p);
            && (Matches(s, e, "]]>") ==> TextAt(s, p) == Error)
            && (!Matches(s, e, "]]>") ==>
                  var w := XmlText.CopyToken(s, p, e - p);
                  && (w.None? ==> TextAt(s, p) == Error)
                  && (w.Some? && Trim(w.value).None? ==> TextAt(s, p) == Undefined)
                  && (w.Some? && Trim(w.value).Some? ==> TextAt(s, p) == TextNode(Trim(w.value).value)))
  {
    hide TextEnd, Matches, XmlText.CopyToken, Trim;
  }

  // ---- The object ----

  class XmlParser {
    const data: string
    var curPtr: nat
    var savePtr: nat
    var mode: Mode
    var tokenBuf: string
    var lastElem: Option<string>
    var pCurElement: seq<string>
    ghost var path: seq<Open>
    ghost var roots: seq<Node>
    var bHasTopLevel: bool

    /** ParserInit and XmlParserLoadDocument on a buffer. */
    constructor (xml: string)
      ensures data == xml && St() == Start(0) && tokenBuf == ""
    {
      data := xml;
      curPtr, savePtr, mode, tokenBuf := 0, 0, ElementMode, "";
      lastElem, pCurElement, path, roots, bHasTopLevel := None, [], [], [], false;
    }

    /** The part of the object that outlives one call of GetNextNode. */
    ghost function St(): State
      reads this
    {
      State(curPtr, mode, pCurElement, path, roots, lastElem, bHasTopLevel)
    }

    method SkipWhiteSpaces()
      requires curPtr <= |data|
      modifies this`curPtr
      ensures curPtr == SkipSpaces(data, old(curPtr))
    {
      while curPtr < |data| && IsSpace(data[curPtr])
        invariant curPtr <= |data| && SkipSpaces(data, curPtr) == SkipSpaces(data, old(curPtr))
        decreases |data| - curPtr
      {
        curPtr := curPtr + 1;
      }
    }

    /** strstr from position i. */
    method StrStr(i: nat, key: string) returns (r: Option<nat>)
      requires i <= |data| && key != ""
      ensures r == Find(data, i, key)
    {
      var j := i;
      while !Matches(data, j, key)
        invariant i <= j <= |data| && Find(data, j, key) == Find(data, i, key)
        decreases |data| - j
      {
        if j == |data| {
          return None;
        }
        j := j + 1;
      }
      return Some(j);
    }

    method SkipComment() returns (ok: bool)
      requires curPtr <= |data|
      modifies this`curPtr
      ensures ok == XmlSyntax.SkipComment(data, old(curPtr)).Some?
      ensures curPtr == if ok then XmlSyntax.SkipComment(data, old(curPtr)).value else old(curPtr)
    {
      var found := StrStr(curPtr, "-->");
      if found.Some? && found.value != curPtr && data[found.value - 1] != '-' {
        curPtr := found.value + 3;
        return true;
      }
      return false;
    }

    method SkipString(key: string) returns (ok: bool)
      requires curPtr <= |data| && key != ""
      modifies this`curPtr
      ensures Skip(ok, curPtr) == XmlSyntax.SkipString(data, old(curPtr), key)
    {
      while curPtr < |data| && !Matches(data, curPtr, key)
        invariant curPtr <= |data| && Find(data, curPtr, key) == Find(data, old(curPtr), key)
        decreases |data| - curPtr
      {
        curPtr := curPtr + 1;
      }
      if curPtr == |data| {
        return false;
      }
      curPtr := curPtr + |key|;
      return true;
    }

    method SkipMisc() returns (ok: bool)
      requires curPtr <= |data|
      modifies this`curPtr
      ensures Skip(ok, curPtr) == XmlSyntax.SkipMisc(data, old(curPtr))
    {
      hide Find, Matches, SkipSpaces, MatchesFold;
      var done := false;
      ok := true;
      while !done && ok
        invariant curPtr <= |data|
        invariant (if done || !ok then Skip(ok, curPtr) else XmlSyntax.SkipMisc(data, curPtr)) ==
                  XmlSyntax.SkipMisc(data, old(curPtr))
        decreases !done && ok, |data| - curPtr
      {
        if MatchesFold(data, curPtr, "<!--") {
          ok := SkipComment();
        } else if AtXmlDecl(data, curPtr) {
          ok := false;
        } else if MatchesFold(data, curPtr, "<?") {
          ok := SkipString("?>");
        } else {
          done := true;
        }
        SkipWhiteSpaces();
      }
    }

    /** The digits of a numeric reference (the two loops of XMLParserGetChar). */
    method NumericRef(src: nat, p: nat, hex: bool) returns (d: Decoded)
      requires src < p
      ensures d == XmlText.NumericRef(data, src, p, hex)
    {
      var pnum, sum := p, 0;
      var base := if hex then 16 else 10;
      while IsDigit(At(data, pnum), hex)
        invariant p <= pnum && DigitsEnd(data, pnum, hex) == DigitsEnd(data, p, hex)
        invariant forall k | p <= k < pnum :: IsDigit(At(data, k), true)
        invariant sum == Number(data, p, pnum, base)
        decreases |data| - pnum
      {
        sum := sum * base + DigitValue(At(data, pnum));
        pnum := pnum + 1;
      }
      if At(data, pnum) != ';' || !IsXmlChar(sum) {
        return Bad;
      }
      return Code(sum, pnum - src + 1);
    }

    /** XMLParserGetChar. */
    method NextChar(src: nat) returns (d: Decoded)
      ensures d == GetChar(data, src)
    {
      hide MatchesFold, Utf8ToInt, XmlText.NumericRef;
      if At(data, src) != '&' {
        if 0 < At(data, src) as int < 0x80 && IsXmlChar(At(data, src) as int) {
          return Code(At(data, src) as int, 1);
        }
        d := Utf8ToInt(data, src);
        return if d.Code? && IsXmlChar(d.c) then d else Bad;
      }
      if MatchesFold(data, src, "&quot;") {
        return Code('"' as int, 6);
      } else if MatchesFold(data, src, "&lt;") {
        return Code('<' as int, 4);
      } else if MatchesFold(data, src, "&gt;") {
        return Code('>' as int, 4);
      } else if MatchesFold(data, src, "&apos;") {
        return Code('\'' as int, 6);
      } else if MatchesFold(data, src, "&amp;") {
        return Code('&' as int, 5);
      } else if MatchesFold(data, src, "&#x") {
        d := NumericRef(src, src + 3, true);
      } else if MatchesFold(data, src, "&#") {
        d := NumericRef(src, src + 2, false);
      } else {
        return Bad;
      }
    }

    /** XMLParserCopyToken: the bytes are appended as they are decoded. */
    method CopyToken(src: nat, len: int) returns (ok: bool)
      modifies this`tokenBuf
      ensures ok == XmlText.CopyToken(data, src, len).Some?
      ensures tokenBuf == old(tokenBuf) + (if len <= 0 then "" else Appended(data, src, src + len))
    {
      hide GetChar, Copied;
      if len <= 0 {
        return false;
      }
      var psrc, pend := src, src + len;
      while psrc < pend
        invariant src <= psrc
        invariant Decode(data, src, pend).Some? == Decode(data, psrc, pend).Some?
        invariant tokenBuf + Appended(data, psrc, pend) == old(tokenBuf) + Appended(data, src, pend)
        decreases pend - psrc
      {
        var d := NextChar(psrc);
        if d.Bad? {
          return false;
        }
        Assoc(tokenBuf, Copied(d), Appended(data, psrc + d.len, pend));
        tokenBuf := tokenBuf + Copied(d);
        psrc := psrc + d.len;
      }
      return psrc == pend;
    }

    /** The choice of token in XMLParserGetNextToken; -1 where it gives up. */
    method RecogniseToken() returns (n: int)
      requires curPtr <= |data|
      modifies this`savePtr
      ensures n == TokenLength(data, curPtr)
      ensures savePtr == if At(data, curPtr) == '/' && At(data, curPtr + 1) == '>' then curPtr else old(savePtr)
    {
      hide Utf8ToInt, IsNameChar;
      var c := At(data, curPtr);
      if c == '"' {
        return 1;
      } else if c == '\'' {
        return 1;
      } else if c == '<' {
        var d := Utf8ToInt(data, curPtr + 1);
        if d.Code? && d.c == '/' as int {
          return 2;
        } else if IsNameChar(d, false) {
          return 1;
        }
        return -1;
      } else if c == '=' {
        return 1;
      } else if c == '/' {
        if At(data, curPtr + 1) == '>' {
          savePtr := curPtr;
          return 2;
        }
        return 0;
      } else if c == '>' {
        return 1;
      }
      var d := Utf8ToInt(data, curPtr);
      if curPtr == |data| || !IsNameChar(d, false) {
        return -1;
      }
      n := RecogniseName(d);
    }

    /** The length of the name at the pointer, whose first character is d. */
    method RecogniseName(first: Decoded) returns (n: nat)
      requires curPtr < |data| && first == Utf8ToInt(data, curPtr) && IsNameChar(first, false)
      ensures first.Code? && curPtr + first.len <= |data|
      ensures curPtr + n == NameEnd(data, curPtr + first.len)
    {
      hide Utf8ToInt, IsNameChar;
      NameIsCode(first, false);
      var iIndex := first.len;
      var d := Utf8ToInt(data, curPtr + iIndex);
      while curPtr + iIndex < |data| && IsNameChar(d, true)
        invariant curPtr + iIndex <= |data| && d == Utf8ToInt(data, curPtr + iIndex)
        invariant NameEnd(data, curPtr + iIndex) == NameEnd(data, curPtr + first.len)
        decreases |data| - iIndex
      {
        NameIsCode(d, true);
        iIndex := iIndex + d.len;
        d := Utf8ToInt(data, curPtr + iIndex);
      }
      return iIndex;
    }

    /** XMLParserGetNextToken.  A failed copy can leave `</` behind, and then a second try fails too. */
    method GetNextToken() returns (len: nat)
      requires curPtr <= |data|
      modifies this`curPtr, this`savePtr, this`tokenBuf
      ensures curPtr == NextToken(data, old(curPtr)).pos
      ensures len == 0 <==> NextToken(data, old(curPtr)).text == ""
      ensures len > 0 ==> tokenBuf == NextToken(data, old(curPtr)).text
      ensures len == 0 ==> tokenBuf == "" || (tokenBuf == "</" && curPtr < |data| && NextToken(data, curPtr).text == "")
      ensures len > 0 && tokenBuf == "/>" ==> savePtr == XmlSyntax.SkipMisc(data, old(curPtr)).pos
      ensures len > 0 && tokenBuf != "/>" ==> savePtr == old(savePtr)
    {
      hide TokenLength, XmlText.CopyToken, XmlSyntax.SkipMisc, Appended, OverlongSlash;
      tokenBuf := "";
      if curPtr == |data| {
        return 0;
      }
      var ok := SkipMisc();
      if !ok {
        return 0;
      }
      var tokenLength := RecogniseToken();
      ghost var p := curPtr;
      if tokenLength < 0 {
        NoToken(data, p);
        return 0;
      }
      ok := CopyToken(curPtr, tokenLength);
      TokenOutcome(data, p);
      if !ok {
        return 0;
      }
      curPtr := curPtr + tokenLength;
      return tokenLength;
    }

    // ---- The node readers ----

    /** The node reader succeeded. */
    static predicate Reads(n: Next) {
      n.NoNode? || n.StartNode? || n.TextNode? || n.AttrNode? || n.EndNode?
    }

    /** ParserProcessSTag. */
    method ProcessSTag() returns (n: Next)
      requires curPtr <= |data|
      modifies this`curPtr, this`savePtr, this`tokenBuf, this`mode, this`lastElem
      ensures n == STag(data, old(St())).0
      ensures Reads(n) ==> St() == STag(data, old(St())).1
    {
      hide NextToken;
      var len := GetNextToken();
      if len == 0 {
        return Error;
      }
      var nodeName := tokenBuf;
      if ':' in nodeName {
        return Undefined;
      }
      lastElem := Some(nodeName);
      savePtr := curPtr;
      len := GetNextToken();
      if len == 0 {
        return Error;
      }
      if tokenBuf == "/>" {
        mode := ElementMode;
        curPtr := savePtr;
      } else if tokenBuf == ">" {
        mode := ContentMode;
      } else {
        mode := AttributeMode;
        curPtr := savePtr;
      }
      return StartNode(nodeName);
    }

    /** ParserProcessETag. */
    method ProcessETag() returns (n: Next)
      requires curPtr <= |data|
      modifies this`curPtr, this`savePtr, this`tokenBuf
      ensures n == ETag(data, old(St())).0
      ensures Reads(n) ==> St() == ETag(data, old(St())).1
    {
      hide NextToken;
      var len := GetNextToken();
      if len == 0 {
        return Error;
      }
      var nodeName := tokenBuf;
      SkipWhiteSpaces();
      len := GetNextToken();
      if len == 0 {
        return Error;
      }
      if tokenBuf != ">" {
        return Error;
      }
      return EndNode(nodeName);
    }

    /** The scan of XMLParserProcessAttribute for illegal bytes before the closing quote. */
    method CheckQuoted(e: nat) returns (ok: bool)
      requires curPtr <= e <= |data|
      ensures ok == NoBareLess(data, curPtr, e)
    {
      var pCur := curPtr;
      while pCur < e
        invariant NoBareLess(data, pCur, e) == NoBareLess(data, curPtr, e)
        decreases e - pCur
      {
        if data[pCur] == '<' {
          return false;
        }
        if data[pCur] == '&' {
          pCur := pCur + 1;
        }
        pCur := pCur + 1;
      }
      return true;
    }

    /** The value between curPtr and the closing quote at e. */
    method CopyQuoted(e: nat) returns (n: Next, value: Option<string>)
      requires curPtr <= e <= |data|
      modifies this`tokenBuf
      ensures (n, value) == QuotedValue(data, curPtr, e)
    {
      hide XmlText.CopyToken, Trim, Appended;
      tokenBuf := "";
      if e == curPtr {
        return NoNode, None;
      }
      var ok := CopyToken(curPtr, e - curPtr);
      if !ok {
        return Error, None;
      }
      CopiedIsAppended(data, curPtr, e);
      value := Trim(tokenBuf);
      return if value.None? then Undefined else NoNode, value;
    }

    /** The lookahead at the end of XMLParserProcessAttribute. */
    method LookAhead() returns (ok: bool)
      requires curPtr <= |data|
      modifies this`curPtr, this`savePtr, this`tokenBuf, this`mode
      ensures ok == AfterAttribute(data, old(St())).0
      ensures ok ==> St() == AfterAttribute(data, old(St())).1
    {
      hide NextToken;
      savePtr := curPtr;
      var len := GetNextToken();
      if len == 0 {
        return false;
      }
      if tokenBuf == "<" {
        return false;
      } else if tokenBuf != ">" {
        curPtr := savePtr;
      } else {
        mode := ContentMode;
      }
      return true;
    }

    /** XMLParserProcessAttribute on the name in the token buffer. */
    method ProcessAttribute() returns (n: Next)
      requires curPtr <= |data|
      modifies this`curPtr, this`savePtr, this`tokenBuf, this`mode
      ensures n == Attribute(data, old(St()), old(tokenBuf)).0
      ensures Reads(n) ==> St() == Attribute(data, old(St()), old(tokenBuf)).1
    {
      hide NextToken, AfterQuote, Utf8ToInt, IsNameChar;
      var nodeName := tokenBuf;
      if !IsNameChar(Utf8ToInt(nodeName, 0), false) {
        return Error;
      }
      var len := GetNextToken();
      if len == 0 || tokenBuf[0] != '=' {
        return Error;
      }
      len := GetNextToken();
      if len == 0 || (tokenBuf[0] != '"' && tokenBuf[0] != '\'') {
        return Error;
      }
      n := ProcessValue(nodeName);
    }

    /** The rest of XMLParserProcessAttribute, with the opening quote in the token buffer. */
    method ProcessValue(nodeName: string) returns (n: Next)
      requires curPtr <= |data| && tokenBuf != ""
      modifies this`curPtr, this`savePtr, this`tokenBuf, this`mode
      ensures n == AfterQuote(data, old(St()), nodeName, old(tokenBuf)).0
      ensures Reads(n) ==> St() == AfterQuote(data, old(St()), nodeName, old(tokenBuf)).1
    {
      hide NoBareLess, Find, QuotedValue, AfterAttribute, IsNamespaceDecl, Matches;
      var strEndQuote := StrStr(curPtr, tokenBuf);
      if strEndQuote.None? {
        return Error;
      }
      var e := strEndQuote.value;
      EndInside(data, e, tokenBuf);
      var ok := CheckQuoted(e);
      if !ok {
        return Error;
      }
      var value: Option<string>;
      n, value := CopyQuoted(e);
      if !n.NoNode? {
        return if n.Error? then Error else Undefined;
      }
      curPtr := e + 1;
      if IsNamespaceDecl(nodeName) {
        return Undefined;
      }
      ok := LookAhead();
      return if ok then AttrNode(nodeName, value) else Error;
    }

    /** The end of the character data from the pointer on. */
    method ContentEnd() returns (p: nat)
      requires curPtr <= |data|
      ensures curPtr <= p <= |data| && p == TextEnd(data, curPtr)
    {
      hide TextEnd, Matches;
      p := curPtr;
      while p < |data| && data[p] != '<' && !Matches(data, p, "]]>")
        invariant curPtr <= p <= |data| && TextEnd(data, p) == TextEnd(data, curPtr)
        decreases |data| - p
      {
        TextEndStep(data, p);
        p := p + 1;
      }
      TextEndStep(data, p);
    }

    /** ParserProcessContent. */
    method ProcessContent() returns (n: Next)
      requires curPtr < |data| && mode == ContentMode
      modifies this`curPtr, this`savePtr, this`tokenBuf, this`mode
      ensures n == Content(data, old(St())).0
      ensures Reads(n) ==> St() == Content(data, old(St())).1
    {
      hide SkipSpaces, TextEnd, Matches, XmlText.CopyToken, Trim, SkipPI, XmlSyntax.SkipComment, Appended;
      savePtr := curPtr;
      SkipWhiteSpaces();
      if curPtr == |data| {
        return NoNode;
      }
      if data[curPtr] == '<' {
        if Matches(data, curPtr, "<![CDATA[") {
          return Undefined;
        } else if Matches(data, curPtr, "<!--") {
          var ok := SkipComment();
          return if ok then NoNode else Error;
        } else if Matches(data, curPtr, "<?") {
          var ok := SkipInstruction();
          return if ok then NoNode else Error;
        }
        mode := ElementMode;
        return NoNode;
      }
      curPtr := savePtr;
      n := CharacterData();
    }

    /** The part of ParserProcessContent for character data. */
    method CharacterData() returns (n: Next)
      requires curPtr <= |data|
      modifies this`curPtr, this`tokenBuf
      ensures n == TextAt(data, old(curPtr))
      ensures n.TextNode? ==> curPtr == TextEnd(data, old(curPtr))
    {
      hide TextEnd, TextAt, Matches, XmlText.CopyToken, Trim, Appended;
      var pEndContent := ContentEnd();
      TextAtCases(data, curPtr);
      if Matches(data, pEndContent, "]]>") {
        return Error;
      }
      tokenBuf := "";
      var ok := CopyToken(curPtr, pEndContent - curPtr);
      if !ok {
        return Error;
      }
      CopiedIsAppended(data, curPtr, pEndContent);
      var value := Trim(tokenBuf);
      if value.None? {
        return Undefined;
      }
      curPtr := pEndContent;
      return TextNode(value.value);
    }

    /** XMLParserSkipPI. */
    method SkipInstruction() returns (ok: bool)
      requires curPtr <= |data|
      modifies this`curPtr
      ensures ok == SkipPI(data, old(curPtr)).Some?
      ensures curPtr == if ok then SkipPI(data, old(curPtr)).value else old(curPtr)
    {
      hide Find, MatchesFold;
      if AtXmlDecl(data, curPtr) {
        return false;
      }
      if MatchesFold(data, curPtr, "<?") {
        var pEnd := StrStr(curPtr, "?>");
        if pEnd.None? || pEnd.value == curPtr {
          return false;
        }
        curPtr := pEnd.value + 2;
      }
      return true;
    }

    /** XMLParserGetNextNode. */
    method NextNode() returns (n: Next)
      requires curPtr <= |data|
      modifies this`curPtr, this`savePtr, this`tokenBuf, this`mode, this`lastElem
      ensures n == GetNextNode(data, old(St())).0
      ensures Reads(n) ==> St() == GetNextNode(data, old(St())).1
    {
      hide NextToken, STag, ETag, Attribute, Content, SkipSpaces;
      if curPtr == |data| {
        return FileDone;
      }
      if mode == ContentMode {
        n := ProcessContent();
        return n;
      }
      SkipWhiteSpaces();
      var len := GetNextToken();
      if len == 0 && pCurElement == [] && curPtr == |data| {
        return NoNode;
      } else if |tokenBuf| == 0 {
        return Error;
      }
      if len == 0 {
        EndTagFails(data, St());
        n := ProcessETag();
        return n;
      }
      if tokenBuf[0] == '>' {
        return NoNode;
      } else if tokenBuf == "</" {
        n := ProcessETag();
      } else if tokenBuf[0] == '<' {
        n := ProcessSTag();
      } else if tokenBuf == "/>" {
        return if lastElem.None? then Error else EndNode(lastElem.value);
      } else if mode == AttributeMode {
        n := ProcessAttribute();
      } else {
        return Error;
      }
    }

    // ---- The parse loop ----

    /** tree holds what has been read, and pCurElement the names of its open elements. */
    ghost predicate Building(tree: Builder)
      reads this, tree, tree.h.nodes
    {
      tree.Builds(path, roots) && StackNamesPath(St())
    }

    /** ParserProcessElementName. */
    method ProcessElementName(name: string, tree: Builder) returns (ok: bool)
      requires Building(tree)
      modifies this`bHasTopLevel, this`pCurElement, this`path, tree, tree.h.nodes
      ensures Enter(old(St()), name) == if ok then More(St()) else Fail(SyntaxErr)
      ensures ok ==> Building(tree) && fresh(tree.h.nodes - old(tree.h.nodes))
    {
      hide Builder.Builds;
      if bHasTopLevel {
        if pCurElement == [] {
          return false;
        }
      } else {
        bHasTopLevel := true;
      }
      tree.AddElement(name, path, roots);
      path := [Open(name, [], [])] + path;
      pCurElement := [name] + pCurElement;
      return true;
    }

    /** XMLParserProcessAttributeName; an attribute of the document itself is left out. */
    method ProcessAttributeName(name: string, value: Option<string>, tree: Builder) returns (rc: Option<Rc>)
      requires Building(tree) && Trimmed(value)
      modifies this`path, tree
      ensures AddAttr(old(St()), name, value) == if rc.None? then More(St()) else Fail(rc.value)
      ensures rc.None? ==> Building(tree) && tree.h == old(tree.h)
    {
      hide Dom.Formed, DomTrees.Spine, HasAttr, Trimmed;
      var atDocument := tree.AtDocument(path, roots);
      if atDocument {
        return Some(Outside);
      }
      var dup := tree.IsDuplicate(name, path, roots);
      if dup {
        return Some(SyntaxErr);
      }
      tree.AddAttribute(name, value, path, roots);
      path := [path[0].(attrs := path[0].attrs + [Attr(name, value)])] + path[1..];
      return None;
    }

    /** ParserETagVerification. */
    method VerifyETag(name: string, tree: Builder) returns (ok: bool)
      requires Building(tree) && pCurElement != []
      modifies this`pCurElement, this`path, this`roots, tree
      ensures Leave(old(St()), name) == if ok then More(St().(mode := ContentMode)) else Fail(SyntaxErr)
      ensures ok ==> Building(tree) && tree.h == old(tree.h)
    {
      hide Dom.Formed, DomTrees.Spine;
      if pCurElement[0] != name {
        return false;
      }
      ghost var st := Attach(Start(0).(path := path[1..], roots := roots), Closed(path[0]));
      pCurElement := pCurElement[1..];
      ok := tree.Leave(name, path, roots);
      path, roots := st.path, st.roots;
    }

    /** The text case of the parse loop. */
    method ProcessText(text: string, tree: Builder) returns (ok: bool)
      requires Building(tree) && Trimmed(Some(text))
      modifies this`path, tree, tree.h.nodes
      ensures XmlSyntax.AddText(old(St()), text) == if ok then More(St()) else Fail(HierarchyErr)
      ensures ok ==> Building(tree) && fresh(tree.h.nodes - old(tree.h.nodes))
    {
      hide Builder.Builds, Trimmed;
      ok := tree.AddText(text, path, roots);
      if ok {
        path := [path[0].(children := path[0].children + [Text(text)])] + path[1..];
      }
    }

    /** The cases of the parse loop. */
    method Handle(n: Next, tree: Builder) returns (rc: Option<Rc>)
      requires Building(tree) && Reads(n) && ReadsTrimmed(n)
      modifies this`bHasTopLevel, this`pCurElement, this`path, this`roots, this`mode, tree, tree.h.nodes
      ensures Handled(old(St()), n) == if rc.None? then More(St()) else Fail(rc.value)
      ensures rc.None? ==> Building(tree) && fresh(tree.h.nodes - old(tree.h.nodes))
    {
      hide Trimmed, Enter, Leave, AddAttr, XmlSyntax.AddText, Builder.Builds;
      match n
      case StartNode(name) =>
        var ok := ProcessElementName(name, tree);
        return if ok then None else Some(SyntaxErr);
      case TextNode(text) =>
        var ok := ProcessText(text, tree);
        return if ok then None else Some(HierarchyErr);
      case AttrNode(name, value) =>
        rc := ProcessAttributeName(name, value, tree);
      case EndNode(name) =>
        if pCurElement == [] {
          NothingOpen(St(), name);
          return Some(Outside);
        }
        var ok := VerifyETag(name, tree);
        if ok {
          mode := ContentMode;
          return None;
        }
        return Some(SyntaxErr);
      case _ =>
        return None;
    }

    /** XMLParserSkipProlog. */
    method SkipProlog() returns (rc: Option<Rc>)
      requires curPtr == 0
      modifies this`curPtr
      ensures (rc, curPtr) == Prolog(data)
    {
      hide SkipSpaces, XmlSyntax.SkipString, XmlSyntax.SkipMisc, Matches;
      SkipWhiteSpaces();
      var ok := true;
      if Matches(data, curPtr, "<?xml ") {
        ok := SkipString("?>");
        if !ok {
          return Some(SyntaxErr);
        }
        SkipWhiteSpaces();
      }
      ok := SkipMisc();
      if !ok {
        return Some(SyntaxErr);
      }
      if Matches(data, curPtr, "<!DOCTYPE") {
        return Some(Outside);
      }
      ok := SkipMisc();
      return if ok then None else Some(SyntaxErr);
    }

    /** XMLParserParseDocument on a fresh parser: a document whose nodes are linked as a forest and
        hold the trees of Parse, or the return code. */
    method ParseDocument() returns (rc: Option<Rc>, doc: Builder?)
      requires St() == Start(0)
      modifies this
      ensures rc.Some? ==> Parse(data) == Rejected(rc.value)
      ensures rc.None? ==> doc != null && fresh(doc) && fresh(doc.h.nodes)
      ensures rc.None? ==> Parse(data).Parsed? && doc.Holds(Parse(data).roots)
    {
      hide Run, Prolog, Step, GetNextNode, Handled, Builder.Builds, Builder.Holds, ReadsTrimmed;
      rc, doc := None, null;
      var tree := new Builder();
      rc := SkipProlog();
      if rc.Some? {
        return;
      }
      ghost var start := Start(curPtr);
      while true
        invariant curPtr <= |data| && Run(data, St()) == Run(data, start)
        invariant Building(tree) && fresh(tree) && fresh(tree.h.nodes)
        decreases Measure(data, St())
      {
        ghost var before := St();
        var n := NextNode();
        StepByCases(data, before);
        ValueTrimmed(data, before);
        if n.FileDone? {
          break;
        } else if n.Error? {
          return Some(Failed), null;
        } else if n.Undefined? {
          return Some(Outside), null;
        }
        rc := Handle(n, tree);
        if rc.Some? {
          return;
        }
      }
      if pCurElement != [] {
        return Some(SyntaxErr), null;
      }
      tree.BuildIsDone(roots);
      return None, tree;
    }
  }

  /** What the parse loop does with a node that was read. */
  function Handled(st: State, n: Next): Turn {
    match n
    case StartNode(name) => Enter(st, name)
    case TextNode(text) => AddText(st, text)
    case AttrNode(name, value) => AddAttr(st, name, value)
    case EndNode(name) => Leave(st, name)
    case _ => More(st)
  }

  lemma NothingOpen(st: State, name: string)
    requires st.stack == []
    ensures XmlSyntax.Leave(st, name) == Fail(Outside)
  {
  }

  lemma StepByCases(s: string, st: State)
    requires st.pos <= |s|
    ensures var (n, st1) := GetNextNode(s, st);
            && (n.FileDone? ==> Run(s, st) == if st.stack == [] then Parsed(st.roots) else Rejected(SyntaxErr))
            && (n.Error? ==> Run(s, st) == Rejected(Failed))
            && (n.Undefined? ==> Run(s, st) == Rejected(Outside))
            && (XmlParser.Reads(n) && Handled(st1, n).More? ==>
                  Handled(st1, n).st.pos <= |s| && Measure(s, Handled(st1, n).st) < Measure(s, st) &&
                  Run(s, st) == Run(s, Handled(st1, n).st))
            && (XmlParser.Reads(n) && Handled(st1, n).Fail? ==> Run(s, st) == Rejected(Handled(st1, n).rc))
  {
    hide GetNextNode, Enter, AddText, AddAttr, Leave;
    var (n, st1) := GetNextNode(s, st);
    if XmlParser.Reads(n) {
      assert Step(s, st) == Handled(st1, n);
      hide Handled;
    }
  }

  lemma EndTagFails(s: string, st: State)
    requires st.pos <= |s| && NextToken(s, st.pos).text == ""
    ensures ETag(s, st).0 == Error
  {
    hide NextToken;
  }

  lemma CopiedIsAppended(s: string, i: nat, e: nat)
    requires CopyToken(s, i, e - i).Some?
    ensures CopyToken(s, i, e - i) == Some(Appended(s, i, e)) && "" + Appended(s, i, e) == Appended(s, i, e)
  {
    hide Appended;
  }

  lemma EndInside(s: string, e: nat, key: string)
    requires key != "" && Matches(s, e, key)
    ensures e < |s|
  {
  }

  lemma TextEndStep(s: string, i: nat)
    requires i <= |s|
    ensures TextEnd(s, i) == if i < |s| && s[i] != '<' && !Matches(s, i, "]]>") then TextEnd(s, i + 1) else i
  {
    hide Matches;
  }

  lemma NoToken(s: string, p: nat)
    requires p <= |s| && TokenLength(s, p) <= 0
    ensures CopyToken(s, p, TokenLength(s, p)).None?
  {
    hide TokenLength;
  }

  /** How the copy of a recognised token can end. */
  lemma TokenOutcome(s: string, p: nat)
    requires p <= |s| && TokenLength(s, p) >= 0
    ensures var n := TokenLength(s, p);
            var t := CopyToken(s, p, n);
            && (t.Some? ==> n > 0 && t.value != "" && t.value == Appended(s, p, p + n))
            && (t.None? && n > 0 ==> Appended(s, p, p + n) == "</" && p < |s| && NextToken(s, p).text == "")
            && (t == Some("/>") <==> At(s, p) == '/' && At(s, p + 1) == '>')
            && (t == Some("/>") ==> n == 2)
  {
    var n := TokenLength(s, p);
    if n > 0 {
      assert p < |s| by { EndIsNoToken(s, p); }
      if OverlongSlash(s, p) {
        OverlongFails(s, p);
      } else {
        TokenCopies(s, p);
        SlashToken(s, p);
      }
    } else {
      NoToken(s, p);
      SlashToken(s, p);
    }
  }

  lemma EndIsNoToken(s: string, p: nat)
    requires p <= |s| && TokenLength(s, p) > 0
    ensures p < |s|
  {
    hide Utf8ToInt, IsNameChar, NameEnd;
  }

  /** Only the token of the two bytes reads as the end of an empty element. */
  lemma SlashToken(s: string, p: nat)
    requires p <= |s| && TokenLength(s, p) >= 0 && !OverlongSlash(s, p)
    ensures var t := CopyToken(s, p, TokenLength(s, p));
            && (t == Some("/>") <==> At(s, p) == '/' && At(s, p + 1) == '>')
            && (t == Some("/>") ==> TokenLength(s, p) == 2)
  {
    if At(s, p) in {'"', '\'', '<', '=', '/', '>'} {
      MarkText(s, p);
    } else if TokenLength(s, p) > 0 {
      EndIsNoToken(s, p);
      NameText(s, p);
    } else {
      NoToken(s, p);
    }
  }

  lemma MarkText(s: string, p: nat)
    requires p < |s| && TokenLength(s, p) >= 0 && !OverlongSlash(s, p)
    requires s[p] in {'"', '\'', '<', '=', '/', '>'}
    ensures var t := CopyToken(s, p, TokenLength(s, p));
            && (t == Some("/>") <==> At(s, p) == '/' && At(s, p + 1) == '>')
            && (t == Some("/>") ==> TokenLength(s, p) == 2)
  {
    hide GetChar, Utf8ToInt, IsNameChar, CopyToken;
    if TokenLength(s, p) == 2 {
      CopyAscii2(s, p);
    } else if TokenLength(s, p) == 1 {
      CopyAscii(s, p);
    } else {
      NoToken(s, p);
    }
  }

  lemma NameText(s: string, p: nat)
    requires p < |s| && TokenLength(s, p) > 0 && s[p] !in {'"', '\'', '<', '=', '/', '>'}
    ensures CopyToken(s, p, TokenLength(s, p)) != Some("/>")
  {
    hide GetChar, Utf8ToInt, IsNameChar, NameEnd, Copied;
    var d := Utf8ToInt(s, p);
    NameDecodes(s, p, false);
    NameIsCode(d, false);
    NameCharIsXmlChar(d, false);
    NameCopy(d);
    var t := CopyToken(s, p, TokenLength(s, p));
    if t.Some? {
      assert t.value == Copied(d) + Decode(s, p + d.len, p + TokenLength(s, p)).value;
      assert t.value[0] == Copied(d)[0];
    }
  }

  lemma NameCopy(d: Decoded)
    requires IsNameChar(d, false) && IsXmlChar(d.c)
    ensures Copied(d)[0] != '/'
  {
    hide IsHighLetter, TailBytes;
  }
}
