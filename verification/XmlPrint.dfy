/** What the DOM printer of libxmlet/src/xmlet.c makes of trees and their attributes. */
module XmlPrint {
  import opened Wrappers
  import opened XmlText
  import opened XmlSyntax
  import opened XmlBuffers

  function ValueText(v: Option<string>): string {
    if v.Some? then v.value else ""
  }

  /** An attribute and its following siblings; values are not escaped. */
  function PrintAttrs(attrs: seq<Attr>): string {
    if attrs == [] then ""
    else AttrText(attrs[0]) + (if |attrs| > 1 then " " + PrintAttrs(attrs[1..]) else "")
  }

  function AttrText(a: Attr): string {
    a.name + "=\"" + ValueText(a.value) + "\""
  }

  function PrintAttrPart(attrs: seq<Attr>): string {
    if attrs == [] then "" else " " + PrintAttrs(attrs)
  }

  /** Children are printed only when the first is an element; otherwise the element's own value is. */
  function PrintBody(n: Node): string
    requires n.Element?
    decreases n.children, 1
  {
    if n.children != [] && n.children[0].Element? then "\n" + PrintNodes(n.children) else ValueText(n.value)
  }

  function StartTag(name: string, attrs: seq<Attr>): string {
    "<" + name + PrintAttrPart(attrs) + ">"
  }

  /** An element up to the name in its end tag. */
  function PrintElement(n: Node): string
    requires n.Element?
    decreases n.children, 2
  {
    StartTag(n.name, n.attrs) + PrintBody(n) + ("</" + n.name)
  }

  /** The end of the end tag: no line break before a text sibling. */
  function TagClose(ns: seq<Node>): string
    requires ns != []
  {
    if |ns| > 1 && ns[1].Text? then ">" else ">\n"
  }

  /** A tree and its following siblings; a text node ends the list. */
  function PrintNodes(ns: seq<Node>): string
    decreases ns, 0
  {
    if ns == [] then ""
    else if ns[0].Text? then Escape(ns[0].text)
    else PrintElement(ns[0]) + TagClose(ns) + PrintNodes(ns[1..])
  }

  method PrintAttrList(attrs: seq<Attr>, buf: XmlBuffer)
    requires attrs != [] && buf.Valid()
    modifies buf.Repr
    ensures buf.Valid() && fresh(buf.Repr - old(buf.Repr))
    ensures buf.Text() == old(buf.Text()) + PrintAttrs(attrs)
  {
    hide XmlBuffer.Valid, XmlBuffer.Text, PrintAttrs;
    ghost var was := buf.Text();
    PrintAttr(attrs[0], buf);
    ghost var head := AttrText(attrs[0]);
    AttrsText(attrs);
    if |attrs| > 1 {
      buf.AppendString(" ");
      PrintAttrList(attrs[1..], buf);
      Assoc(was + head, " ", PrintAttrs(attrs[1..]));
      Assoc(was, head, " " + PrintAttrs(attrs[1..]));
    }
  }

  method PrintAttr(attr: Attr, buf: XmlBuffer)
    requires buf.Valid()
    modifies buf.Repr
    ensures buf.Valid() && fresh(buf.Repr - old(buf.Repr))
    ensures buf.Text() == old(buf.Text()) + AttrText(attr)
  {
    hide XmlBuffer.Valid, XmlBuffer.Text;
    ghost var was := buf.Text();
    buf.AppendString(attr.name);
    buf.AppendString("=\"");
    Assoc(was, attr.name, "=\"");
    if attr.value.Some? {
      buf.AppendString(attr.value.value);
    }
    assert buf.Text() == was + (attr.name + "=\"") + ValueText(attr.value);
    Assoc(was, attr.name + "=\"", ValueText(attr.value));
    buf.AppendString("\"");
    Assoc(was, attr.name + "=\"" + ValueText(attr.value), "\"");
  }

  lemma AttrsText(attrs: seq<Attr>)
    requires attrs != []
    ensures PrintAttrs(attrs) == AttrText(attrs[0]) + (if |attrs| > 1 then " " + PrintAttrs(attrs[1..]) else "")
    ensures AttrText(attrs[0]) + "" == AttrText(attrs[0])
  {
  }

  method PrintAttrSpace(attrs: seq<Attr>, buf: XmlBuffer)
    requires buf.Valid()
    modifies buf.Repr
    ensures buf.Valid() && fresh(buf.Repr - old(buf.Repr))
    ensures buf.Text() == old(buf.Text()) + PrintAttrPart(attrs)
  {
    hide XmlBuffer.Valid, XmlBuffer.Text, PrintAttrs;
    if attrs != [] {
      ghost var was := buf.Text();
      buf.AppendString(" ");
      PrintAttrList(attrs, buf);
      Assoc(was, " ", PrintAttrs(attrs));
    }
  }

  method PrintStart(name: string, attrs: seq<Attr>, buf: XmlBuffer)
    requires buf.Valid()
    modifies buf.Repr
    ensures buf.Valid() && fresh(buf.Repr - old(buf.Repr))
    ensures buf.Text() == old(buf.Text()) + StartTag(name, attrs)
  {
    hide XmlBuffer.Valid, XmlBuffer.Text, PrintAttrPart;
    ghost var was := buf.Text();
    buf.AppendString("<");
    buf.AppendString(name);
    Assoc(was, "<", name);
    PrintAttrSpace(attrs, buf);
    Assoc(was, "<" + name, PrintAttrPart(attrs));
    buf.AppendString(">");
    Assoc(was, "<" + name + PrintAttrPart(attrs), ">");
  }

  /** Texts as they are printed: an attribute without a value as an empty one, a value inside its tags. */
  lemma PrintedLeaves()
    ensures PrintElement(Element("b", Some("v"), [], [])) == "<b>v</b"
    ensures PrintElement(Element("c", None, [Attr("x", Some("1")), Attr("y", None)], []))
            == "<c x=\"1\" y=\"\"></c"
    ensures PrintElement(Element("d", Some("kept"), [], [Text("gone")])) == "<d>kept</d"
  {
    var attrs := [Attr("x", Some("1")), Attr("y", None)];
    assert PrintAttrs(attrs[1..]) == "y=\"\"";
    assert AttrText(attrs[0]) == "x=\"1\"";
  }

  /** Elements end their lines, but not in front of a text, which is escaped and ends the list. */
  lemma PrintedForm()
    ensures var b := Element("b", Some("v"), [], []);
            var c := Element("c", None, [Attr("x", Some("1")), Attr("y", None)], []);
            && PrintNodes([Element("a", Some("gone"), [], [b, c])])
               == "<a>\n" + "<b>v</b>\n<c x=\"1\" y=\"\"></c>\n" + "</a>\n"
            && PrintNodes([b, Text("1 < 2"), c]) == "<b>v</b>1 &lt; 2"
  {
    hide PrintElement, PrintNodes, Escape;
    var b, c := Element("b", Some("v"), [], []), Element("c", None, [Attr("x", Some("1")), Attr("y", None)], []);
    PrintedLeaves();
    PrintedTwo(b, c);
    PrintedParent([b, c]);
    PrintedText(b, "1 < 2", c);
    EscapedLess();
  }

  lemma PrintedTwo(b: Node, c: Node)
    requires b.Element? && c.Element?
    ensures PrintNodes([b, c]) == PrintElement(b) + ">\n" + (PrintElement(c) + ">\n")
  {
    hide PrintElement;
    var ns := [b, c];
    assert ns[1..] == [c];
    OneElement(c);
  }

  lemma PrintedParent(ns: seq<Node>)
    requires ns != [] && ns[0].Element?
    ensures PrintNodes([Element("a", Some("gone"), [], ns)]) == "<a>\n" + PrintNodes(ns) + "</a>\n"
  {
    hide PrintNodes, PrintElement;
    var a := Element("a", Some("gone"), [], ns);
    ParentBody(a);
    assert StartTag("a", []) == "<a>";
    Around(PrintNodes(ns));
    OneElement(a);
  }

  lemma ParentBody(a: Node)
    requires a.Element? && a.children != [] && a.children[0].Element?
    ensures PrintElement(a) == StartTag(a.name, a.attrs) + ("\n" + PrintNodes(a.children)) + ("</" + a.name)
  {
    hide PrintNodes;
  }

  lemma Around(body: string)
    ensures "<a>" + ("\n" + body) + ("</" + "a") + ">\n" == "<a>\n" + body + "</a>\n"
  {
  }

  lemma OneElement(a: Node)
    requires a.Element?
    ensures PrintNodes([a]) == PrintElement(a) + ">\n"
  {
    assert [a][1..] == [];
    assert PrintNodes([]) == "";
    hide PrintElement;
  }

  lemma PrintedText(b: Node, text: string, c: Node)
    requires b.Element?
    ensures PrintNodes([b, Text(text), c]) == PrintElement(b) + ">" + Escape(text)
  {
    hide PrintElement, Escape;
    var ns := [b, Text(text), c];
    assert ns[1..] == [Text(text), c];
    LastText(ns[1..]);
  }

  lemma LastText(ns: seq<Node>)
    requires ns != [] && ns[0].Text?
    ensures PrintNodes(ns) == Escape(ns[0].text)
  {
  }

  lemma EscapedLess()
    ensures Escape("1 < 2") == "1 &lt; 2"
  {
    assert Escape("2") == "2" && Escape(" 2") == " 2" && Escape("< 2") == "&lt; 2";
  }
}
