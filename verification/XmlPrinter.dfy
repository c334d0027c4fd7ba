/** The printer of libxmlet/src/xmlet.c on linked nodes: a walk along first-child and
    next-sibling links that appends the text of the lists behind them. */
module XmlPrinter {
  import opened Wrappers
  import opened Dom
  import opened DomQuery
  import opened DomTrees
  import opened XmlText
  import opened XmlBuffers
  import P = XmlPrint
  import X = XmlSyntax

  /** What the printer appends for a list of siblings: only elements and attributes go on to the next. */
  ghost function ListText(h: Shape, d: AttrLists, ks: seq<XmlNode>, r: nat): string
    requires Ranked(h) && Under(h, ks, r)
    decreases r, 0, |ks|
  {
    if ks == [] then ""
    else
      assert ks[0] in ks;
      KidsUnder(h, ks[0]);
      match ks[0].nodeType
      case TextNode => Escape(P.ValueText(ks[0].nodeValue))
      case CDataNode => P.ValueText(ks[0].nodeValue)
      case InstructionNode => InstructionText(ks[0])
      case DocumentNode => ListText(h, d, h.Kids(ks[0]), h.Rank(ks[0]))
      case AttributeNode => OwnAttr(ks[0]) + (if |ks| > 1 then " " + ListText(h, d, ks[1..], r) else "")
      case ElementNode => ElementText(h, d, ks[0]) + Close(ks) + ListText(h, d, ks[1..], r)
      case OtherNode => ""
  }

  function InstructionText(n: XmlNode): string {
    "<?" + n.nodeName + " " + P.ValueText(n.nodeValue) + "?>\n"
  }

  function OwnAttr(n: XmlNode): string {
    P.AttrText(X.Attr(n.nodeName, n.nodeValue))
  }

  /** The end of an element's end tag. */
  function Close(ks: seq<XmlNode>): string
    requires ks != []
  {
    if |ks| > 1 && ks[1].nodeType == TextNode then ">" else ">\n"
  }

  /** An element up to the name in its end tag. */
  ghost function ElementText(h: Shape, d: AttrLists, n: XmlNode): string
    requires Ranked(h) && n in h.nodes
    decreases h.Rank(n), 2, 0
  {
    P.StartTag(n.nodeName, AttrsOf(d, n)) + BodyText(h, d, n) + ("</" + n.nodeName)
  }

  ghost function BodyText(h: Shape, d: AttrLists, n: XmlNode): string
    requires Ranked(h) && n in h.nodes
    decreases h.Rank(n), 1, 0
  {
    var ks := h.Kids(n);
    KidsUnder(h, n);
    if ks != [] && ks[0].nodeType == ElementNode then "\n" + ListText(h, d, ks, h.Rank(n))
    else P.ValueText(n.nodeValue)
  }

  /** Nodes of the other kinds end the list: their siblings are not printed.  A text is escaped,
      a CDATA section is printed bare, without its marks. */
  lemma LastPrinted(h: Shape, d: AttrLists, ks: seq<XmlNode>, r: nat)
    requires Ranked(h) && Under(h, ks, r) && ks != []
    requires ks[0].nodeType !in {ElementNode, AttributeNode, DocumentNode}
    ensures Under(h, [ks[0]], r) && ListText(h, d, ks, r) == ListText(h, d, [ks[0]], r)
    ensures ks[0].nodeType == TextNode && ks[0].nodeValue == Some("<x>") ==> ListText(h, d, ks, r) == "&lt;x&gt;"
    ensures ks[0].nodeType == CDataNode && ks[0].nodeValue == Some("<x>") ==> ListText(h, d, ks, r) == "<x>"
    ensures ks[0].nodeType == InstructionNode && ks[0].nodeName == "t" && ks[0].nodeValue == Some("v w") ==>
              ListText(h, d, ks, r) == "<?t v w?>\n"
    ensures ks[0].nodeType == OtherNode ==> ListText(h, d, ks, r) == ""
  {
    assert ks[0] in ks;
    if ks[0].nodeValue == Some("<x>") { assert Escape("<x>") == "&lt;x&gt;"; }
  }

  // ---- On elements and texts it is the text of the trees ----

  ghost function TreesOf(h: Shape, d: AttrLists, ks: seq<XmlNode>, r: nat): (ts: seq<X.Node>)
    requires Ranked(h) && Under(h, ks, r)
    ensures |ts| == |ks|
  {
    seq(|ks|, i requires 0 <= i < |ks| => (assert ks[i] in ks; TreeOf(h, d, ks[i])))
  }

  ghost predicate PlainList(ks: seq<XmlNode>) {
    forall c | c in ks :: c.nodeType == ElementNode || c.nodeType == TextNode
  }

  ghost predicate PlainKids(h: Shape) {
    forall n | n in h.nodes :: PlainList(h.Kids(n))
  }

  lemma TreesFirst(h: Shape, d: AttrLists, ks: seq<XmlNode>, r: nat)
    requires Ranked(h) && Under(h, ks, r) && ks != []
    ensures ks[0] in h.nodes && h.Rank(ks[0]) < r && Under(h, ks[1..], r)
    ensures TreesOf(h, d, ks, r)[0] == TreeOf(h, d, ks[0])
    ensures TreesOf(h, d, ks, r)[1..] == TreesOf(h, d, ks[1..], r)
    ensures |ks| > 1 ==> ks[1] in h.nodes && TreesOf(h, d, ks, r)[1] == TreeOf(h, d, ks[1])
  {
    assert ks[0] in ks;
    if |ks| > 1 { assert ks[1] in ks; }
  }

  /** What the printer appends is the printed form of the trees. */
  lemma {:induction false} ListIsTrees(h: Shape, d: AttrLists, ks: seq<XmlNode>, r: nat)
    requires Ranked(h) && Under(h, ks, r) && PlainList(ks) && PlainKids(h)
    ensures ListText(h, d, ks, r) == P.PrintNodes(TreesOf(h, d, ks, r))
    decreases r, 0, |ks|
  {
    hide Ranked, Under, ElementText, P.PrintElement, TreesOf, PlainKids, Escape;
    if ks != [] {
      var ts := TreesOf(h, d, ks, r);
      TreesFirst(h, d, ks, r);
      assert ks[0] in ks;
      if |ks| > 1 { assert ks[1] in ks; }
      if ks[0].nodeType == ElementNode {
        ElementIsTree(h, d, ks[0]);
        ListIsTrees(h, d, ks[1..], r);
        assert Close(ks) == P.TagClose(ts);
      }
    }
  }

  lemma {:induction false} ElementIsTree(h: Shape, d: AttrLists, n: XmlNode)
    requires Ranked(h) && n in h.nodes && n.nodeType == ElementNode && PlainKids(h)
    ensures ElementText(h, d, n) == P.PrintElement(TreeOf(h, d, n))
    decreases h.Rank(n), 2, 0
  {
    hide Ranked, Under, ListText, P.PrintNodes, P.StartTag;
    var ks := h.Kids(n);
    KidsUnder(h, n);
    assert TreesOf(h, d, ks, h.Rank(n)) == Trees(h, d, n) by { KidsTrees(h, d, n); }
    if ks != [] {
      TreesFirst(h, d, ks, h.Rank(n));
      ListIsTrees(h, d, ks, h.Rank(n));
      assert ks[0] in ks;
    }
  }

  lemma KidsTrees(h: Shape, d: AttrLists, n: XmlNode)
    requires Ranked(h) && n in h.nodes
    ensures Under(h, h.Kids(n), h.Rank(n)) && TreesOf(h, d, h.Kids(n), h.Rank(n)) == Trees(h, d, n)
  {
    KidsUnder(h, n);
  }

  // ---- The printer ----

  /** The buffer is none of the nodes. */
  ghost predicate Aside(h: Shape, buf: XmlBuffer)
    reads buf
  {
    forall n | n in h.nodes :: n !in buf.Repr
  }

  /** The values that are copied without a test for null are there. */
  predicate HasValue(n: XmlNode) {
    n.nodeType == CDataNode || n.nodeType == InstructionNode ==> n.nodeValue.Some?
  }

  ghost predicate Valued(h: Shape) {
    forall n | n in h.nodes :: HasValue(n)
  }

  /** XmlPrintDomTreeRecursive. */
  method PrintTree(ghost h: Shape, d: AttrLists, n: XmlNode?, ghost ks: seq<XmlNode>, ghost r: nat, buf: XmlBuffer)
    requires Formed(h) && (n != null ==> n in h.nodes) && Siblings(h, n, ks, r)
    requires buf.Valid() && Aside(h, buf) && Valued(h)
    modifies buf.Repr
    ensures buf.Valid() && fresh(buf.Repr - old(buf.Repr))
    ensures Ranked(h) && Under(h, ks, r) && buf.Text() == old(buf.Text()) + ListText(h, d, ks, r)
    decreases r, 0, |ks|, 1
  {
    hide Formed, Siblings, Ranked, Under, XmlBuffer.Valid, XmlBuffer.Text, ListText, ElementText, Escape,
         InstructionText, OwnAttr;
    FormedRanked(h);
    SiblingsUnder(h, n, ks, r);
    ListParts(h, d, ks, r);
    if n == null {
      return;
    }
    ghost var was := buf.Text();
    NextSiblings(h, n, ks, r);
    NextIs(h, n, ks, r);
    ListMore(h, d, ks, r, was);
    match n.nodeType
    case TextNode =>
      if n.nodeValue.Some? {
        CopyWithEscape(buf, n.nodeValue.value);
      } else {
        NothingEscaped();
      }
    case CDataNode =>
      buf.AppendString(n.nodeValue.value);
    case InstructionNode =>
      PrintInstruction(n, buf);
    case DocumentNode =>
      ListDocument(h, d, ks, r);
      PrintTree(h, d, n.firstChild, h.Kids(n), h.Rank(n), buf);
    case AttributeNode =>
      P.PrintAttr(X.Attr(n.nodeName, n.nodeValue), buf);
      assert buf.Text() == was + OwnAttr(n) by { AttrIs(n); }
      if n.nextSibling != null {
        buf.AppendString(" ");
        PrintTree(h, d, n.nextSibling, ks[1..], r, buf);
        Assoc(was + OwnAttr(n), " ", ListText(h, d, ks[1..], r));
      }
    case ElementNode =>
      PrintElements(h, d, n, ks, r, buf);
    case OtherNode =>
  }

  /** The element case, with the siblings after it. */
  method PrintElements(ghost h: Shape, d: AttrLists, n: XmlNode, ghost ks: seq<XmlNode>, ghost r: nat, buf: XmlBuffer)
    requires Formed(h) && n in h.nodes && Siblings(h, n, ks, r) && n.nodeType == ElementNode
    requires buf.Valid() && Aside(h, buf) && Valued(h)
    modifies buf.Repr
    ensures buf.Valid() && fresh(buf.Repr - old(buf.Repr))
    ensures Ranked(h) && Under(h, ks, r) && buf.Text() == old(buf.Text()) + ListText(h, d, ks, r)
    decreases r, 0, |ks|, 0
  {
    hide Formed, Siblings, Ranked, Under, XmlBuffer.Valid, XmlBuffer.Text, ListText, ElementText;
    FormedRanked(h);
    SiblingsUnder(h, n, ks, r);
    NextSiblings(h, n, ks, r);
    NextIs(h, n, ks, r);
    ListMore(h, d, ks, r, buf.Text());
    PrintElement(h, d, n, buf);
    buf.AppendString(if n.nextSibling != null && n.nextSibling.nodeType == TextNode then ">" else ">\n");
    PrintTree(h, d, n.nextSibling, ks[1..], r, buf);
  }

  lemma NothingEscaped()
    ensures Escape("") == ""
  {
  }

  lemma AttrIs(n: XmlNode)
    ensures OwnAttr(n) == P.AttrText(X.Attr(n.nodeName, n.nodeValue))
  {
  }

  lemma NextIs(h: Shape, n: XmlNode, ks: seq<XmlNode>, r: nat)
    requires Formed(h) && n in h.nodes && Siblings(h, n, ks, r)
    ensures n.nextSibling == At(ks, 1)
  {
    SiblingLink(h, n);
  }

  /** The parts of a list's text, by the kind of its first node. */
  lemma ListParts(h: Shape, d: AttrLists, ks: seq<XmlNode>, r: nat)
    requires Ranked(h) && Under(h, ks, r)
    ensures ks == [] ==> ListText(h, d, ks, r) == ""
    ensures ks != [] && ks[0].nodeType == TextNode ==> ListText(h, d, ks, r) == Escape(P.ValueText(ks[0].nodeValue))
    ensures ks != [] && ks[0].nodeType == CDataNode ==> ListText(h, d, ks, r) == P.ValueText(ks[0].nodeValue)
    ensures ks != [] && ks[0].nodeType == InstructionNode ==> ListText(h, d, ks, r) == InstructionText(ks[0])
    ensures ks != [] && ks[0].nodeType == OtherNode ==> ListText(h, d, ks, r) == ""
  {
    hide Escape, InstructionText;
  }

  lemma ListDocument(h: Shape, d: AttrLists, ks: seq<XmlNode>, r: nat)
    requires Ranked(h) && Under(h, ks, r) && ks != [] && ks[0].nodeType == DocumentNode
    ensures ks[0] in h.nodes && Under(h, h.Kids(ks[0]), h.Rank(ks[0]))
    ensures ListText(h, d, ks, r) == ListText(h, d, h.Kids(ks[0]), h.Rank(ks[0]))
  {
    assert ks[0] in ks;
    KidsUnder(h, ks[0]);
  }

  lemma ListMore(h: Shape, d: AttrLists, ks: seq<XmlNode>, r: nat, was: string)
    requires Ranked(h) && Under(h, ks, r) && ks != []
    ensures ks[0] in h.nodes && Under(h, ks[1..], r)
    ensures ks[0].nodeType == ElementNode ==>
              was + ElementText(h, d, ks[0]) + Close(ks) + ListText(h, d, ks[1..], r) == was + ListText(h, d, ks, r)
    ensures ks[0].nodeType == AttributeNode ==>
              was + OwnAttr(ks[0]) + (if |ks| > 1 then " " + ListText(h, d, ks[1..], r) else "")
              == was + ListText(h, d, ks, r)
  {
    hide Under, Ranked, ElementText, Close, OwnAttr;
    assert ks[0] in h.nodes && Under(h, ks[1..], r) by { TreesFirst(h, d, ks, r); }
    if ks[0].nodeType == ElementNode {
      Assoc(was, ElementText(h, d, ks[0]), Close(ks));
      Assoc(was, ElementText(h, d, ks[0]) + Close(ks), ListText(h, d, ks[1..], r));
    } else if ks[0].nodeType == AttributeNode {
      Assoc(was, OwnAttr(ks[0]), if |ks| > 1 then " " + ListText(h, d, ks[1..], r) else "");
    }
  }

  method PrintInstruction(n: XmlNode, buf: XmlBuffer)
    requires buf.Valid() && n.nodeValue.Some?
    modifies buf.Repr
    ensures buf.Valid() && fresh(buf.Repr - old(buf.Repr))
    ensures buf.Text() == old(buf.Text()) + InstructionText(n)
  {
    hide XmlBuffer.Valid, XmlBuffer.Text;
    ghost var was := buf.Text();
    buf.AppendString("<?");
    buf.AppendString(n.nodeName);
    Assoc(was, "<?", n.nodeName);
    buf.AppendString(" ");
    Assoc(was, "<?" + n.nodeName, " ");
    buf.AppendString(n.nodeValue.value);
    Assoc(was, "<?" + n.nodeName + " ", n.nodeValue.value);
    buf.AppendString("?>\n");
    Assoc(was, "<?" + n.nodeName + " " + n.nodeValue.value, "?>\n");
  }

  /** The element case up to the name in the end tag. */
  method PrintElement(ghost h: Shape, d: AttrLists, n: XmlNode, buf: XmlBuffer)
    requires Formed(h) && n in h.nodes && n.nodeType == ElementNode
    requires buf.Valid() && Aside(h, buf) && Valued(h)
    modifies buf.Repr
    ensures buf.Valid() && fresh(buf.Repr - old(buf.Repr))
    ensures Ranked(h) && buf.Text() == old(buf.Text()) + ElementText(h, d, n)
    decreases h.Rank(n), 2, 0, 0
  {
    hide Formed, Siblings, Ranked, Under, XmlBuffer.Valid, XmlBuffer.Text, BodyText, P.StartTag;
    FormedRanked(h);
    ghost var was, start, body := buf.Text(), P.StartTag(n.nodeName, AttrsOf(d, n)), BodyText(h, d, n);
    P.PrintStart(n.nodeName, AttrsOf(d, n), buf);
    PrintBody(h, d, n, buf);
    Assoc(was, start, body);
    buf.AppendString("</");
    buf.AppendString(n.nodeName);
    Assoc(was + (start + body), "</", n.nodeName);
    Assoc(was, start + body, "</" + n.nodeName);
  }

  method PrintBody(ghost h: Shape, d: AttrLists, n: XmlNode, buf: XmlBuffer)
    requires Formed(h) && n in h.nodes && n.nodeType == ElementNode
    requires buf.Valid() && Aside(h, buf) && Valued(h)
    modifies buf.Repr
    ensures buf.Valid() && fresh(buf.Repr - old(buf.Repr))
    ensures Ranked(h) && buf.Text() == old(buf.Text()) + BodyText(h, d, n)
    decreases h.Rank(n), 1, 0, 0
  {
    hide Formed, Siblings, Ranked, Under, XmlBuffer.Valid, XmlBuffer.Text, ListText;
    FormedRanked(h);
    KidsUnder(h, n);
    KidsAreSiblings(h, n);
    ghost var was, ks := buf.Text(), h.Kids(n);
    if n.firstChild != null && n.firstChild.nodeType == ElementNode {
      buf.AppendString("\n");
      PrintTree(h, d, n.firstChild, ks, h.Rank(n), buf);
      Assoc(was, "\n", ListText(h, d, ks, h.Rank(n)));
    } else if n.nodeValue.Some? {
      buf.AppendString(n.nodeValue.value);
    }
  }

  lemma KidsAreSiblings(h: Shape, n: XmlNode)
    requires Formed(h) && n in h.nodes
    ensures n.firstChild != null ==> n.firstChild in h.nodes
    ensures Siblings(h, n.firstChild, h.Kids(n), h.Rank(n))
    ensures n.firstChild == At(h.Kids(n), 0)
  {
    ChildLink(h, n);
    LinksCeiling(h, n);
    FormedRanked(h);
    KidsUnder(h, n);
  }

  /** XmlPrintDomTree: one node without its siblings. */
  method PrintDomTree(ghost h: Shape, d: AttrLists, n: XmlNode, buf: XmlBuffer)
    requires Formed(h) && n in h.nodes && (n.nodeType == AttributeNode ==> n.nodeValue.Some?)
    requires buf.Valid() && Aside(h, buf) && Valued(h)
    modifies buf.Repr
    ensures buf.Valid() && fresh(buf.Repr - old(buf.Repr))
    ensures Ranked(h) && Under(h, [n], h.Rank(n) + 1)
    ensures buf.Text() == old(buf.Text()) + ListText(h, d, [n], h.Rank(n) + 1)
  {
    hide Formed, Siblings, Ranked, Under, XmlBuffer.Valid, XmlBuffer.Text, ListText, ElementText, OwnAttr;
    FormedRanked(h);
    ghost var was, ks := buf.Text(), [n];
    OneUnder(h, d, n);
    ListMore(h, d, ks, h.Rank(n) + 1, was);
    match n.nodeType
    case AttributeNode =>
      P.PrintAttr(X.Attr(n.nodeName, n.nodeValue), buf);
      AttrIs(n);
    case ElementNode =>
      PrintElement(h, d, n, buf);
      buf.AppendString(">\n");
    case OtherNode =>
      ListParts(h, d, ks, h.Rank(n) + 1);
    case _ =>
      PrintAlone(h, d, n, buf);
  }

  lemma OneUnder(h: Shape, d: AttrLists, n: XmlNode)
    requires Ranked(h) && n in h.nodes
    ensures Under(h, [n], h.Rank(n) + 1) && Under(h, [], h.Rank(n) + 1)
    ensures ListText(h, d, [], h.Rank(n) + 1) == "" && [n][1..] == []
  {
  }

  /** The kinds that print nothing of their siblings. */
  method PrintAlone(ghost h: Shape, d: AttrLists, n: XmlNode, buf: XmlBuffer)
    requires Formed(h) && n in h.nodes && n.nodeType !in {AttributeNode, ElementNode}
    requires buf.Valid() && Aside(h, buf) && Valued(h)
    modifies buf.Repr
    ensures buf.Valid() && fresh(buf.Repr - old(buf.Repr))
    ensures Ranked(h) && Under(h, [n], h.Rank(n) + 1)
    ensures buf.Text() == old(buf.Text()) + ListText(h, d, [n], h.Rank(n) + 1)
  {
    hide Formed, Siblings, Ranked, Under, XmlBuffer.Valid, XmlBuffer.Text, ListText;
    SelfIsSibling(h, n);
    ghost var ks, r := Following(h, n), Ceiling(h, n);
    FormedRanked(h);
    SiblingsUnder(h, n, ks, r);
    OneUnder(h, d, n);
    OnlyFirst(h, d, ks, r, n);
    PrintTree(h, d, n, ks, r, buf);
  }

  lemma SelfIsSibling(h: Shape, n: XmlNode)
    requires Formed(h) && n in h.nodes
    ensures Siblings(h, n, Following(h, n), Ceiling(h, n))
  {
    FormedRanked(h);
    if n.parentNode != null {
      ListOf(h, n);
      KidsUnder(h, n.parentNode);
    }
  }

  lemma OnlyFirst(h: Shape, d: AttrLists, ks: seq<XmlNode>, r: nat, n: XmlNode)
    requires Ranked(h) && Under(h, ks, r) && ks != [] && ks[0] == n && n in h.nodes && Under(h, [n], h.Rank(n) + 1)
    requires n.nodeType !in {AttributeNode, ElementNode}
    ensures ListText(h, d, ks, r) == ListText(h, d, [n], h.Rank(n) + 1)
  {
    hide Ranked, Escape, InstructionText;
  }
}
