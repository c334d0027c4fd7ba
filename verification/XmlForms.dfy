/** The ways to write a document (XML 1.0, sections 2.1 to 2.8, 3.1 and 4.1): what may stand between
    and inside its tags, and the tree it stands for. */
module XmlForms {
  import opened Wrappers
  import opened XmlChars
  import opened XmlReferences
  import opened XmlTokens
  import X = XmlSyntax

  /** White space (section 2.3). */
  predicate White(w: string) {
    forall i :: 0 <= i < |w| ==> w[i] in {' ', '\t', '\n', '\r'}
  }

  /** A text, character by character: how each is written, and which it is. */
  datatype Written = Written(rs: seq<string>, cs: seq<nat>) {
    function Raw(): string {
      Flat(rs)
    }

    function Meant(): string {
      Utf8Of(cs)
    }

    ghost predicate Spelt() {
      |rs| == |cs| && forall k | 0 <= k < |rs| :: Denotes(rs[k], cs[k])
    }
  }

  /** The value v is what is left of w without the blanks in front; a line break ends it. */
  ghost predicate Trims(w: string, v: string) {
    exists k :: TrimsAt(w, v, k)
  }

  predicate TrimsAt(w: string, v: string, k: nat) {
    && k < |w| <= 1023
    && (forall j | 0 <= j < k :: (w[j] <= ' ' || w[j] >= 128 as char) && w[j] != '\n')
    && (if w[k] == '\n' then v == "\n" else ' ' < w[k] < 128 as char && v == w[k..])
  }

  datatype AttrForm = AttrForm(lead: string, name: string, before: string, after: string, quote: char,
                               text: Written, value: Option<string>)

  datatype Note = Comment(body: string) | Instruction(body: string)

  datatype Item =
    | Aside(lead: string, note: Note)
    | Chunk(text: Written, value: string)
    | Child(lead: string, elem: Elem)

  /** An element with its two tags, or with one. */
  datatype Elem =
    | Full(name: string, attrs: seq<AttrForm>, tail: string, items: seq<Item>, last: string, close: string)
    | Empty(name: string, attrs: seq<AttrForm>, tail: string)

  // ---- The text ----

  function AttrRaw(a: AttrForm): string {
    a.lead + (a.name + (a.before + ("=" + (a.after + ([a.quote] + (a.text.Raw() + [a.quote]))))))
  }

  function AttrsRaw(attrs: seq<AttrForm>): string {
    if attrs == [] then "" else AttrRaw(attrs[0]) + AttrsRaw(attrs[1..])
  }

  function NoteRaw(n: Note): string {
    match n
    case Comment(body) => "<!--" + (body + "-->")
    case Instruction(body) => "<?" + (body + "?>")
  }

  function ItemRaw(i: Item): string
    decreases i, 0
  {
    match i
    case Aside(lead, note) => lead + NoteRaw(note)
    case Chunk(text, _) => text.Raw()
    case Child(lead, elem) => lead + ElemRaw(elem)
  }

  function ItemsRaw(items: seq<Item>): string
    decreases items, 0
  {
    if items == [] then "" else ItemRaw(items[0]) + ItemsRaw(items[1..])
  }

  /** What follows the attributes and the white space after them. */
  function RestRaw(e: Elem): string
    decreases e, 1
  {
    match e
    case Full(name, _, _, items, last, close) =>
      ">" + (ItemsRaw(items) + (last + ("</" + (name + (close + ">")))))
    case Empty(_, _, _) => "/>"
  }

  function ElemRaw(e: Elem): string
    decreases e, 2
  {
    "<" + (e.name + (AttrsRaw(e.attrs) + (e.tail + RestRaw(e))))
  }

  // ---- The tree ----

  function AttrList(attrs: seq<AttrForm>): (r: seq<X.Attr>)
    ensures |r| == |attrs|
  {
    seq(|attrs|, k requires 0 <= k < |attrs| => X.Attr(attrs[k].name, attrs[k].value))
  }

  function ItemTree(i: Item): seq<X.Node>
    decreases i, 0
  {
    match i
    case Aside(_, _) => []
    case Chunk(_, value) => [X.Text(value)]
    case Child(_, elem) => [ElemTree(elem)]
  }

  function ItemTrees(items: seq<Item>): seq<X.Node>
    decreases items, 0
  {
    if items == [] then [] else ItemTree(items[0]) + ItemTrees(items[1..])
  }

  function ElemTree(e: Elem): X.Node
    decreases e, 2
  {
    X.Element(e.name, None, AttrList(e.attrs), if e.Full? then ItemTrees(e.items) else [])
  }

  // ---- What is proper ----

  ghost predicate ProperAttr(a: AttrForm) {
    && White(a.lead) && a.lead != "" && White(a.before) && White(a.after) && a.quote in {'"', '\''}
    && IsName(a.name) && a.name != "xmlns" && !Matches(a.name, 0, "xmlns:")
    && a.text.Spelt() && a.quote !in a.text.Raw() && '<' !in a.text.Raw()
    && (a.text.rs == [] ==> a.value == None)
    && (a.text.rs != [] ==> a.value.Some? && Trims(a.text.Meant(), a.value.value))
  }

  ghost predicate ProperAttrs(attrs: seq<AttrForm>) {
    && (forall k | 0 <= k < |attrs| :: ProperAttr(attrs[k]))
    && forall j, k | 0 <= j < k < |attrs| :: attrs[j].name != attrs[k].name
  }

  /** The text between the marks does not look like their end; the code takes no empty comment, and
      none that begins with `>` or `->`. */
  predicate ProperNote(n: Note) {
    match n
    case Comment(body) =>
      && body != "" && body[0] != '>' && !Matches(body, 0, "->") && body[|body| - 1] != '-'
      && forall k | 0 <= k <= |body| :: !Matches(body, k, "-->")
    case Instruction(body) =>
      && (body != "" ==> body[0] != '>') && (forall k | 0 <= k <= |body| :: !Matches(body, k, "?>"))
      && (|body| >= 3 ==> !AnyCase(body[..3], "xml"))
  }

  ghost predicate ProperItem(i: Item)
    decreases i, 0
  {
    match i
    case Aside(lead, note) => White(lead) && ProperNote(note)
    case Chunk(text, value) =>
      && text.Spelt() && !White(text.Raw()) && '<' !in text.Raw() && Trims(text.Meant(), value)
      && forall k | 0 <= k <= |text.Raw()| :: !Matches(text.Raw(), k, "]]>")
    case Child(lead, elem) => White(lead) && ProperElem(elem)
  }

  /** Character data runs up to the next mark. */
  predicate Joins(i: Item, more: seq<Item>, last: string) {
    i.Chunk? ==> if more == [] then last == "" else !more[0].Chunk? && more[0].lead == ""
  }

  ghost predicate ProperItems(items: seq<Item>, last: string)
    decreases items, 0
  {
    if items == [] then White(last)
    else ProperItem(items[0]) && Joins(items[0], items[1..], last) && ProperItems(items[1..], last)
  }

  ghost predicate ProperElem(e: Elem)
    decreases e, 2
  {
    && IsName(e.name) && ':' !in e.name && ProperAttrs(e.attrs) && White(e.tail)
    && (e.Full? ==> ProperItems(e.items, e.last) && White(e.close))
  }

  // ---- A whole document ----

  /** The prolog with its notes, each with the white space after it; the root; notes with the white
      space before each. */
  datatype Document = Document(lead: string, declaration: Option<string>, gap: string,
                               before: seq<(Note, string)>, root: Elem, after: seq<(string, Note)>, last: string)

  function DeclarationRaw(d: Document): string {
    if d.declaration.Some? then "<?xml " + (d.declaration.value + ("?>" + d.gap)) else ""
  }

  function BeforeRaw(ns: seq<(Note, string)>): string {
    if ns == [] then "" else NoteRaw(ns[0].0) + (ns[0].1 + BeforeRaw(ns[1..]))
  }

  function AfterRaw(ns: seq<(string, Note)>): string {
    if ns == [] then "" else ns[0].0 + (NoteRaw(ns[0].1) + AfterRaw(ns[1..]))
  }

  function DocumentRaw(d: Document): string {
    d.lead + (DeclarationRaw(d) + (BeforeRaw(d.before) + (ElemRaw(d.root) + (AfterRaw(d.after) + d.last))))
  }

  ghost predicate ProperDocument(d: Document) {
    && White(d.lead) && White(d.gap) && White(d.last) && ProperElem(d.root)
    && (d.declaration.Some? ==> forall k | 0 <= k <= |d.declaration.value| :: !Matches(d.declaration.value, k, "?>"))
    && (forall k | 0 <= k < |d.before| :: ProperNote(d.before[k].0) && White(d.before[k].1))
    && (forall k | 0 <= k < |d.after| :: White(d.after[k].0) && ProperNote(d.after[k].1))
  }
}
