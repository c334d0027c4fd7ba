/** Documents printed and parsed again: from linked nodes to linked nodes. */
module XmlDocuments {
  import opened Dom
  import DomEdit
  import opened DomTrees
  import opened DomQuery
  import opened XmlBuffers
  import opened XmlBuild
  import opened XmlPrinter
  import P = XmlPrint
  import R = XmlRoundTrip
  import X = XmlSyntax
  import XmlParser

  /** No node has the document for a child, so all children are elements and texts. */
  lemma DocumentIsPlain(h: Shape, d: AttrLists, doc: XmlNode, roots: seq<X.Node>)
    requires IsDocument(h, d, doc, roots)
    ensures Ranked(h) && PlainKids(h) && Valued(h)
  {
    hide Formed, Reach, Plain, Trees, Valued, Ranked;
    DomEdit.FormedIsRanked(h);
    PlainIsValued(h, doc);
    forall n | n in h.nodes ensures PlainList(h.Kids(n)) {
      KidsArePlain(h, doc, n);
    }
  }

  lemma KidsArePlain(h: Shape, doc: XmlNode, n: XmlNode)
    requires Ranked(h) && doc in h.nodes && n in h.nodes && Reach(h, doc, n) && Plain(h, doc)
    ensures PlainList(h.Kids(n))
  {
    ReachIsLower(h, doc, n);
    hide Reach;
    forall c | c in h.Kids(n) ensures c.nodeType == ElementNode || c.nodeType == TextNode {
      assert h.Rank(c) < h.Rank(n);
    }
  }

  lemma PlainIsValued(h: Shape, doc: XmlNode)
    requires Plain(h, doc) && doc.nodeType == DocumentNode
    ensures Valued(h)
  {
  }

  /** What the printer appends for a document is the printed form of its trees. */
  lemma DocumentText(h: Shape, d: AttrLists, doc: XmlNode, roots: seq<X.Node>)
    requires IsDocument(h, d, doc, roots)
    ensures Ranked(h) && Under(h, [doc], h.Rank(doc) + 1)
    ensures ListText(h, d, [doc], h.Rank(doc) + 1) == P.PrintNodes(roots)
  {
    hide P.PrintNodes, ListText, Trees, Formed, Reach, Plain;
    DocumentIsPlain(h, d, doc, roots);
    OneUnder(h, d, doc);
    ListDocument(h, d, [doc], h.Rank(doc) + 1);
    KidsTrees(h, d, doc);
    ListIsTrees(h, d, h.Kids(doc), h.Rank(doc));
  }

  /** XmlPrintDomTree on a document. */
  method PrintDocument(ghost h: Shape, d: AttrLists, doc: XmlNode, ghost roots: seq<X.Node>) returns (text: string)
    requires IsDocument(h, d, doc, roots)
    ensures text == P.PrintNodes(roots)
  {
    hide IsDocument, P.PrintNodes, ListText, Formed, Under, Ranked, Valued;
    DocumentIsPlain(h, d, doc, roots);
    DocumentText(h, d, doc, roots);
    DocumentFacts(h, d, doc, roots);
    var buf := new XmlBuffer();
    PrintDomTree(h, d, doc, buf);
    text := if buf.buf == null then "" else buf.buf[..buf.length];
  }

  lemma DocumentFacts(h: Shape, d: AttrLists, doc: XmlNode, roots: seq<X.Node>)
    requires IsDocument(h, d, doc, roots)
    ensures Formed(h) && doc in h.nodes && doc.nodeType == DocumentNode
  {
  }

  /** A printable document, printed and parsed, is a document of the same names, attributes and
      children, each value a text child; printed again it gives the same text exactly if it had no
      value bytes. */
  method PrintParsePrint(ghost h: Shape, d: AttrLists, doc: XmlNode, ghost t: X.Node)
    returns (first: string, parsed: Builder, second: string)
    requires IsDocument(h, d, doc, [t]) && R.Printable(t)
    ensures first == P.PrintNodes([t])
    ensures fresh(parsed) && fresh(parsed.h.nodes) && parsed.Holds([R.Reparsed(t)])
    ensures second == P.PrintNodes([R.Reparsed(t)])
    ensures second == first <==> R.ValueBytes(t) == 0
  {
    hide IsDocument, P.PrintNodes, R.Printable, R.Reparsed, R.ValueBytes, X.Parse;
    first := PrintDocument(h, d, doc, [t]);
    R.ParsePrinted(t);
    R.PrintParsePrint(t);
    var parser := new XmlParser.XmlParser(first);
    var rc, result := parser.ParseDocument();
    parsed := result;
    second := PrintDocument(parsed.h, parsed.attrs, parsed.document, [R.Reparsed(t)]);
  }
}
