/** Parsing the printed text of a tree gives the tree back. */
module XmlRoundTrip {
  import opened Wrappers
  import opened XmlChars
  import opened XmlText
  import opened XmlSyntax
  import opened XmlTokens
  import opened XmlPrint
  import opened XmlNesting
  import opened XmlReferences
  import opened XmlForms
  import XmlReading

  // ---- The trees in question ----

  /** A value that XmlStrduptrim returns unchanged and that needs no escape. */
  predicate PlainValue(v: string) {
    v != "" && |v| <= 1023 && !IsBlank(v[0]) && WellFormed(v) && '<' !in v && '&' !in v
  }

  predicate AttrValue(v: Option<string>) {
    v.Some? ==> PlainValue(v.value) && '"' !in v.value
  }

  predicate TextValue(v: Option<string>) {
    v.Some? ==> PlainValue(v.value) && forall k | 0 <= k <= |v.value| :: !Matches(v.value, k, "]]>")
  }

  predicate PlainAttrs(attrs: seq<Attr>) {
    forall k | 0 <= k < |attrs| ::
      IsName(attrs[k].name) && !IsNamespaceDecl(attrs[k].name) && AttrValue(attrs[k].value)
  }

  /** Elements that hold elements or a value, with names outside any namespace. */
  predicate Printable(n: Node) {
    n.Element? && IsName(n.name) && ':' !in n.name &&
    PlainAttrs(n.attrs) && DistinctAttrs(n.attrs) &&
    (if n.children == [] then TextValue(n.value)
     else n.value == None && forall k | 0 <= k < |n.children| :: Printable(n.children[k]))
  }

  predicate AllPrintable(ns: seq<Node>) {
    forall k | 0 <= k < |ns| :: Printable(ns[k])
  }

  /** The tree as the parser builds it: a value becomes a text child. */
  function Reparsed(n: Node): Node
    decreases n, 1
  {
    if n.Text? then n else Element(n.name, None, n.attrs, ReparsedBody(n))
  }

  function ReparsedBody(n: Node): seq<Node>
    requires n.Element?
    decreases n, 0
  {
    if n.children == [] then (if n.value.Some? then [Text(n.value.value)] else [])
    else seq(|n.children|, k requires 0 <= k < |n.children| => Reparsed(n.children[k]))
  }

  function ReparsedAll(ns: seq<Node>): seq<Node> {
    seq(|ns|, k requires 0 <= k < |ns| => Reparsed(ns[k]))
  }

  lemma PrintableIsElement(n: Node)
    requires Printable(n)
    ensures n.Element?
  {
  }

  // ---- A printed value, character by character ----

  function Codes(v: string): seq<nat> {
    if v == "" then []
    else
      var d := Utf8ToInt(v, 0);
      if d.Bad? then [] else [d.c] + Codes(v[d.len..])
  }

  function Encodings(cs: seq<nat>): seq<string> {
    seq(|cs|, k requires 0 <= k < |cs| => IntToUtf8(cs[k]))
  }

  function ValueForm(v: string): Written {
    Written(Encodings(Codes(v)), Codes(v))
  }

  lemma {:induction false} FlatIsUtf8(cs: seq<nat>)
    ensures Flat(Encodings(cs)) == Utf8Of(cs)
  {
    hide IntToUtf8;
    if cs != [] {
      FlatIsUtf8(cs[1..]);
      assert Encodings(cs)[1..] == Encodings(cs[1..]);
    }
  }

  lemma {:induction false} CodesSpell(v: string)
    requires WellFormed(v) && '&' !in v
    ensures Utf8Of(Codes(v)) == v
    ensures forall k | 0 <= k < |Codes(v)| :: Denotes(IntToUtf8(Codes(v)[k]), Codes(v)[k])
  {
    hide Utf8ToInt, IntToUtf8, IsXmlChar, IsEntity, IsReference;
    if v != "" {
      var d := Utf8ToInt(v, 0);
      var rest := v[d.len..];
      assert v == IntToUtf8(d.c) + rest;
      CodesSpell(rest);
      AmpEncoded(d.c);
      assert v[0] in v;
      assert Codes(v) == [d.c] + Codes(rest);
    }
  }

  lemma AmpEncoded(c: nat)
    ensures c == '&' as int ==> IntToUtf8(c) == "&" && forall w: string :: ("&" + w)[0] == '&'
  {
  }

  /** The form of a plain value is the value. */
  lemma ValueIs(v: string)
    requires PlainValue(v)
    ensures ValueForm(v).Spelt() && ValueForm(v).Raw() == v == ValueForm(v).Meant() && Trims(v, v)
    ensures ValueForm(v).rs != []
  {
    hide Denotes, Flat, Utf8Of, WellFormed;
    CodesSpell(v);
    FlatIsUtf8(Codes(v));
    assert TrimsAt(v, v, 0);
    assert Utf8Of([]) == "" by { NoCodes(); }
  }

  lemma NoCodes()
    ensures Utf8Of([]) == "" && Flat([]) == "" && Codes("") == []
  {
  }

  // ---- The form of a printed tree ----

  function AttrOf(a: Attr): AttrForm {
    AttrForm(" ", a.name, "", "", '"', ValueForm(ValueText(a.value)), a.value)
  }

  function AttrsOf(attrs: seq<Attr>): seq<AttrForm> {
    seq(|attrs|, k requires 0 <= k < |attrs| => AttrOf(attrs[k]))
  }

  function FormOf(n: Node): Elem
    requires n.Element?
    decreases n, 2
  {
    Full(n.name, AttrsOf(n.attrs), "", ItemsOf(n), if n.children == [] then "" else "\n", "")
  }

  function ItemsOf(n: Node): seq<Item>
    requires n.Element?
    decreases n, 1
  {
    if n.children != [] then Lines(n.children)
    else if n.value.Some? then [Chunk(ValueForm(n.value.value), n.value.value)]
    else []
  }

  /** Each child on a line of its own. */
  function Lines(ns: seq<Node>): seq<Item>
    decreases ns, 0
  {
    if ns == [] then []
    else if ns[0].Text? then Lines(ns[1..])
    else [Child("\n", FormOf(ns[0]))] + Lines(ns[1..])
  }

  lemma AttrIs(a: Attr)
    requires IsName(a.name) && !IsNamespaceDecl(a.name) && AttrValue(a.value)
    ensures ProperAttr(AttrOf(a)) && AttrRaw(AttrOf(a)) == " " + AttrText(a)
  {
    hide IsName, ValueForm, WellFormed, Written.Raw, Written.Spelt, Written.Meant, Trims;
    var v := ValueText(a.value);
    if a.value.Some? {
      ValueIs(v);
    } else {
      EmptyForm();
    }
    assert AttrRaw(AttrOf(a)) == " " + (a.name + ("" + ("=" + ("" + (['"'] + (v + ['"']))))));
    assert " " + AttrText(a) == " " + (a.name + "=\"" + v + "\"");
  }

  lemma EmptyForm()
    ensures ValueForm("").Spelt() && ValueForm("").Raw() == "" && ValueForm("").rs == []
  {
  }

  lemma {:induction false} AttrsAre(attrs: seq<Attr>)
    requires PlainAttrs(attrs) && DistinctAttrs(attrs)
    ensures ProperAttrs(AttrsOf(attrs)) && AttrList(AttrsOf(attrs)) == attrs
    ensures AttrsRaw(AttrsOf(attrs)) == PrintAttrPart(attrs)
  {
    hide ProperAttr, IsName, IsNamespaceDecl, AttrValue, AttrRaw;
    forall k | 0 <= k < |attrs| ensures ProperAttr(AttrsOf(attrs)[k]) {
      AttrIs(attrs[k]);
    }
    AttrsRawIs(attrs);
  }

  lemma {:induction false} AttrsRawIs(attrs: seq<Attr>)
    requires PlainAttrs(attrs)
    ensures AttrsRaw(AttrsOf(attrs)) == PrintAttrPart(attrs)
  {
    hide IsName, IsNamespaceDecl, AttrValue, AttrRaw, AttrText, ValueForm;
    if attrs != [] {
      AttrIs(attrs[0]);
      AttrsRawIs(attrs[1..]);
      assert AttrsOf(attrs)[1..] == AttrsOf(attrs[1..]);
      assert PrintAttrs(attrs) == AttrText(attrs[0]) + PrintAttrPart(attrs[1..]) by { MoreAttrs(attrs); }
    }
  }

  lemma MoreAttrs(attrs: seq<Attr>)
    requires attrs != []
    ensures PrintAttrs(attrs) == AttrText(attrs[0]) + PrintAttrPart(attrs[1..])
  {
    assert AttrText(attrs[0]) + "" == AttrText(attrs[0]);
  }

  /** The form of a printable element: proper, with its text and its tree. */
  lemma {:induction false} FormIs(n: Node)
    requires Printable(n)
    ensures ProperElem(FormOf(n)) && ElemRaw(FormOf(n)) == PrintElement(n) + ">" && ElemTree(FormOf(n)) == Reparsed(n)
    decreases n, 2
  {
    hide IsName, PlainAttrs, DistinctAttrs, ProperAttrs, PrintAttrPart, TextValue, ProperItems, ItemsRaw, ItemTrees,
         Printable, ItemsOf, PrintBody, ReparsedBody, AttrsRaw;
    PrintableParts(n);
    AttrsAre(n.attrs);
    BodyIs(n);
    RestIs(n);
    ElementText(n.name, PrintAttrPart(n.attrs), PrintBody(n));
  }

  lemma PrintableParts(n: Node)
    requires Printable(n)
    ensures n.Element? && IsName(n.name) && ':' !in n.name && PlainAttrs(n.attrs) && DistinctAttrs(n.attrs)
    ensures n.children == [] ==> TextValue(n.value)
    ensures n.children != [] ==> AllPrintable(n.children)
  {
  }

  lemma RestIs(n: Node)
    requires n.Element?
    requires ItemsRaw(ItemsOf(n)) + (if n.children == [] then "" else "\n") == PrintBody(n)
    ensures RestRaw(FormOf(n)) == ">" + (PrintBody(n) + ("</" + (n.name + ("" + ">"))))
  {
    hide ItemsRaw, ItemsOf, PrintBody;
    var e := FormOf(n);
    Assoc(ItemsRaw(e.items), e.last, "</" + (n.name + ("" + ">")));
  }

  /** The pieces of an element put together either way. */
  lemma ElementText(name: string, attrs: string, body: string)
    ensures "<" + (name + (attrs + ("" + (">" + (body + ("</" + (name + ("" + ">"))))))))
         == ("<" + name + attrs + ">") + body + ("</" + name) + ">"
  {
    var end := "</" + (name + ("" + ">"));
    assert end == ("</" + name) + ">";
    assert "<" + (name + (attrs + ("" + (">" + (body + end))))) == ("<" + name + attrs + ">") + body + end;
  }

  lemma {:induction false} BodyIs(n: Node)
    requires n.Element? && (if n.children == [] then TextValue(n.value) else AllPrintable(n.children))
    ensures var last := if n.children == [] then "" else "\n";
            && ProperItems(ItemsOf(n), last) && ItemTrees(ItemsOf(n)) == ReparsedBody(n)
            && ItemsRaw(ItemsOf(n)) + last == PrintBody(n)
    decreases n, 1
  {
    hide Printable, PlainValue, FormOf, Reparsed, PrintElement, PrintNodes, ProperItem;
    if n.children != [] {
      LinesAre(n.children);
      assert n.children[0].Element? by { PrintableIsElement(n.children[0]); }
    } else if n.value.Some? {
      var v := n.value.value;
      ValueIs(v);
      assert ProperItem(Chunk(ValueForm(v), v)) by { ChunkIs(v); }
      OneItem(Chunk(ValueForm(v), v));
      hide ValueForm;
      assert v + "" == v;
    }
  }

  lemma OneItem(i: Item)
    requires ProperItem(i) && i.Chunk?
    ensures ProperItems([i], "") && ItemsRaw([i]) == i.text.Raw() && ItemTrees([i]) == [Text(i.value)]
  {
    hide ProperItem;
    assert [i][1..] == [];
    assert ItemsRaw([]) == "" && ItemTrees([]) == [] && ProperItems([], "");
    assert i.text.Raw() + "" == i.text.Raw();
  }

  lemma ChunkIs(v: string)
    requires TextValue(Some(v))
    ensures ProperItem(Chunk(ValueForm(v), v))
  {
    hide ValueForm, WellFormed;
    ValueIs(v);
    hide Written.Raw, Written.Spelt, Written.Meant, Trims;
    assert !White(v);
  }

  lemma {:induction false} LinesAre(ns: seq<Node>)
    requires AllPrintable(ns)
    ensures ProperItems(Lines(ns), "\n") && ItemTrees(Lines(ns)) == ReparsedAll(ns)
    ensures ItemsRaw(Lines(ns)) + "\n" == "\n" + PrintNodes(ns)
    decreases ns, 0
  {
    hide Printable, FormOf, Reparsed, PrintElement, ElemRaw, ElemTree, ProperElem, TagClose;
    if ns == [] {
      assert "" + "\n" == "\n" + "";
    } else {
      PrintableIsElement(ns[0]);
      FormIs(ns[0]);
      LinesAre(ns[1..]);
      var i := Child("\n", FormOf(ns[0]));
      assert Lines(ns) == [i] + Lines(ns[1..]);
      assert ([i] + Lines(ns[1..]))[1..] == Lines(ns[1..]);
      assert ReparsedAll(ns) == [Reparsed(ns[0])] + ReparsedAll(ns[1..]);
      assert TagClose(ns) == ">\n" by { NoTextNext(ns); }
      LinesText(PrintElement(ns[0]), ItemsRaw(Lines(ns[1..])), PrintNodes(ns[1..]));
    }
  }

  lemma NoTextNext(ns: seq<Node>)
    requires ns != [] && AllPrintable(ns)
    ensures TagClose(ns) == ">\n"
  {
    hide Printable;
    if |ns| > 1 { PrintableIsElement(ns[1]); }
  }

  lemma LinesText(e: string, items: string, nodes: string)
    requires items + "\n" == "\n" + nodes
    ensures ("\n" + (e + ">")) + items + "\n" == "\n" + (e + ">\n" + nodes)
  {
    assert ("\n" + (e + ">")) + items + "\n" == "\n" + (e + ">") + (items + "\n");
    assert ">\n" == ">" + "\n";
  }

  // ---- The theorem ----

  /** Parsing the printed text of any printable tree succeeds and gives that tree: the same
      names, the same attributes and children in the same order, each value a text child. */
  lemma ParsePrinted(n: Node)
    requires Printable(n)
    ensures Parse(PrintNodes([n])) == Parsed([Reparsed(n)])
  {
    hide Printable, PrintElement, ElemRaw, ProperElem, ElemTree, Reparsed, FormOf, Parse;
    FormIs(n);
    PrintableIsElement(n);
    var d := Document("", None, "", [], FormOf(n), [], "\n");
    var e := PrintElement(n);
    assert DocumentRaw(d) == "" + ("" + ("" + ((e + ">") + ("" + "\n")))) == e + ">\n";
    assert PrintNodes([n]) == e + ">\n" by { OneElement(n); }
    XmlReading.ReadDocument(d);
  }

  lemma OnePrintable(n: Node)
    requires Printable(n)
    ensures AllPrintable([n])
  {
    hide Printable;
  }

  // ---- A second round loses the values ----

  /** The bytes of the values in a tree. */
  function ValueBytes(n: Node): nat
    decreases n, 1
  {
    if n.Text? then 0
    else if n.children == [] then |ValueText(n.value)|
    else ForestBytes(n.children)
  }

  function ForestBytes(ns: seq<Node>): nat
    decreases ns, 0
  {
    if ns == [] then 0 else ValueBytes(ns[0]) + ForestBytes(ns[1..])
  }

  lemma {:induction false} ReprintElement(n: Node)
    requires Printable(n)
    ensures Reparsed(n).Element?
    ensures |PrintElement(n)| == |PrintElement(Reparsed(n))| + ValueBytes(n)
    ensures ValueBytes(n) == 0 ==> PrintElement(Reparsed(n)) == PrintElement(n)
    decreases n, 1
  {
    hide PlainAttrs, IsName, StartTag, TextValue, Escape;
    var r := Reparsed(n);
    assert r.children == ReparsedBody(n);
    if n.children == [] {
      assert PrintBody(r) == "";
    } else {
      ReprintNodes(n.children);
      assert r.children == ReparsedAll(n.children);
      assert r.children[0] == Reparsed(n.children[0]);
      PrintableIsElement(n.children[0]);
      assert PrintBody(r) == "\n" + PrintNodes(r.children);
    }
  }

  lemma {:induction false} ReprintNodes(ns: seq<Node>)
    requires AllPrintable(ns)
    ensures |PrintNodes(ns)| == |PrintNodes(ReparsedAll(ns))| + ForestBytes(ns)
    ensures ForestBytes(ns) == 0 ==> PrintNodes(ReparsedAll(ns)) == PrintNodes(ns)
    decreases ns, 0
  {
    hide Printable, PrintElement, Reparsed, ValueBytes;
    if ns != [] {
      var rs := ReparsedAll(ns);
      ReprintElement(ns[0]);
      PrintableIsElement(ns[0]);
      assert rs[1..] == ReparsedAll(ns[1..]);
      if |ns| > 1 {
        PrintableIsElement(ns[1]);
        ReprintElement(ns[1]);
        assert rs[1] == Reparsed(ns[1]);
      }
      assert TagClose(ns) == TagClose(rs) == ">\n";
      ReprintNodes(ns[1..]);
    }
  }

  /** Printing what the parser built gives the text back exactly for trees without values:
      the printer shows an element's own value, and the parser stores it as a child. */
  lemma PrintParsePrint(n: Node)
    requires Printable(n)
    ensures Parse(PrintNodes([n])).Parsed?
    ensures PrintNodes(Parse(PrintNodes([n])).roots) == PrintNodes([n]) <==> ValueBytes(n) == 0
  {
    hide Printable, PrintElement, PrintNodes, Reparsed, Parse, ValueBytes;
    ParsePrinted(n);
    OnePrintable(n);
    ReprintNodes([n]);
    assert ReparsedAll([n]) == [Reparsed(n)];
    assert ForestBytes([n]) == ValueBytes(n) + ForestBytes([]);
  }
}
