/** The document that the parse loop builds: nodes linked by XmlNodeAppendChild, with the current
    node at the inner end of the open path (libxmlet/src/parser.c 833-1065, 1117-1230). */
module XmlBuild {
  import opened Wrappers
  import opened Dom
  import opened DomEdit
  import opened DomTrees
  import XmlText
  import X = XmlSyntax

  // ---- A fresh node beside a forest ----

  ghost predicate Alone(c: XmlNode)
    reads c
  {
    c.parentNode == null && c.firstChild == null && c.prevSibling == null && c.nextSibling == null
  }

  ghost function Beside(h: Shape, c: XmlNode): Shape {
    Shape(h.nodes + {c}, h.kids, h.rank[c := 0], h.bound + 1)
  }

  lemma BesideFormed(h: Shape, c: XmlNode)
    requires Formed(h) && c !in h.nodes && Alone(c)
    ensures Formed(Beside(h, c))
  {
    var g := Beside(h, c);
    BesideRanked(h, c);
    hide Ranked;
    forall n | n in g.nodes ensures ListOk(n, g.Kids(n)) && Placed(g, n) {
      assert n in h.nodes ==> ListOk(n, h.Kids(n)) && Placed(h, n);
    }
  }

  lemma BesideRanked(h: Shape, c: XmlNode)
    requires Ranked(h) && c !in h.nodes
    ensures Ranked(Beside(h, c)) && Beside(h, c).Kids(c) == []
  {
  }

  /** The node is above none of the others. */
  lemma BesideNotAbove(h: Shape, c: XmlNode, n: XmlNode)
    requires Formed(h) && c !in h.nodes && Alone(c) && n in h.nodes && Formed(Beside(h, c))
    ensures !IsAncestor(Beside(h, c), c, n)
  {
    assert Placed(h, n);
    IsAncestorStep(Beside(h, c), c, n);
  }

  lemma FormedLists(h: Shape)
    requires Formed(h)
    ensures Ranked(h) && OneParent(h) && AllDistinct(h)
  {
    forall a, b, c | a in h.nodes && b in h.nodes && c in h.Kids(a) && c in h.Kids(b) ensures a == b {
      assert ListOk(a, h.Kids(a)) && ListOk(b, h.Kids(b));
    }
  }

  lemma LastParent(h: Shape, p: XmlNode)
    requires Formed(h) && p in h.nodes && h.Kids(p) != []
    ensures LastKid(h, p) in h.nodes && LastKid(h, p).parentNode == p
  {
    assert ListOk(p, h.Kids(p)) && LastKid(h, p) in h.Kids(p);
  }

  /** g is h with the new node c at the end of the children of n. */
  ghost predicate NewLast(h: Shape, g: Shape, n: XmlNode, c: XmlNode) {
    && g.nodes == h.nodes + {c} && g.Kids(n) == h.Kids(n) + [c] && g.Kids(c) == []
    && forall m | m in h.nodes && m != n :: g.Kids(m) == h.Kids(m)
  }

  lemma MovedIsNewLast(h: Shape, g: Shape, n: XmlNode, c: XmlNode)
    requires Ranked(h) && n in h.nodes && c !in h.nodes
    requires Rearranged(Beside(h, c), g, n, MovedLast(h.Kids(n), c))
    ensures NewLast(h, g, n, c)
  {
    assert c !in h.Kids(n);
  }

  lemma LastAdded(h: Shape, g: Shape, d: AttrLists, doc: XmlNode, n: XmlNode, c: XmlNode)
    requires NewLast(h, g, n, c) && n in h.nodes
    ensures g.nodes == h.nodes + {c} && g.Kids(n) == h.Kids(n) + [c] && g.Kids(c) == []
    ensures AgreeBut(h, d, g, d, n) && (Rooted(h, doc) ==> Rooted(g, doc)) && LastOf(g, n, c)
  {
    if Rooted(h, doc) {
      assert c in g.Kids(n);
      forall m | m in h.nodes && m != doc ensures IsKid(g, m) {
        assert IsKid(h, m);
        var p :| p in h.nodes && m in h.Kids(p);
        assert m in g.Kids(p);
      }
    }
  }

  /** XmlNodeAppendChild of a new node of the same document. */
  method AppendNew(ghost h: Shape, nodeptr: XmlNode, newChild: XmlNode) returns (rc: Rc, ghost g: Shape)
    requires Formed(h) && nodeptr in h.nodes && newChild !in h.nodes && Alone(newChild)
    requires newChild.ownerDocument == nodeptr.ownerDocument
    modifies h.nodes, newChild
    ensures rc == if AllowChildren(nodeptr, newChild) then Ok else HierarchyErr
    ensures rc == Ok ==> Formed(g) && NewLast(h, g, nodeptr, newChild)
    ensures rc == Ok ==> forall n | n in h.nodes + {newChild} :: n.ownerDocument == old(n.ownerDocument)
  {
    hide Formed, AllowChildren, IsAncestor, Ranked, MovedLast, NewLast;
    FormedLists(h);
    BesideFormed(h, newChild);
    BesideNotAbove(h, newChild, nodeptr);
    rc, g := AppendChild(Beside(h, newChild), nodeptr, newChild);
    if rc == Ok {
      MovedIsNewLast(h, g, nodeptr, newChild);
    }
  }

  /** The current node takes elements, and text unless it is the document. */
  lemma TopAllows(h: Shape, d: AttrLists, doc: XmlNode, n: XmlNode, path: seq<X.Open>, roots: seq<X.Node>, c: XmlNode)
    requires Ranked(h) && Spine(h, d, doc, n, path, roots, false) && doc.nodeType == DocumentNode
    ensures c.nodeType == ElementNode ==> AllowChildren(n, c)
    ensures c.nodeType == TextNode ==> (AllowChildren(n, c) <==> path != [])
  {
    hide Spine;
    SpineTop(h, d, doc, n, path, roots, false);
  }

  lemma TextClosed(h: Shape, d: AttrLists, doc: XmlNode, n: XmlNode, path: seq<X.Open>, roots: seq<X.Node>, c: XmlNode)
    requires Ranked(h) && Spine(h, d, doc, n, path, roots, true) && path != []
    requires LastOf(h, n, c) && c.nodeType == TextNode && c.nodeValue.Some?
    ensures var o := path[0].(children := path[0].children + [X.Text(c.nodeValue.value)]);
            Spine(h, d, doc, n, [o] + path[1..], roots, false)
  {
    hide Spine;
    SpineClosed(h, d, doc, n, path, roots);
  }

  lemma AttrOn(h: Shape, d: AttrLists, doc: XmlNode, n: XmlNode, path: seq<X.Open>, roots: seq<X.Node>, a: X.Attr)
    requires Formed(h) && Ranked(h) && path != [] && Spine(h, d, doc, n, path, roots, false)
    ensures n in h.nodes
    ensures var o := path[0].(attrs := path[0].attrs + [a]);
            Spine(h, d[n := AttrsOf(d, n) + [a]], doc, n, [o] + path[1..], roots, false)
  {
    hide Formed, Spine, OneParent, AllDistinct;
    FormedLists(h);
    SpineTop(h, d, doc, n, path, roots, false);
    AttrAdded(h, d, d[n := AttrsOf(d, n) + [a]], doc, n, path, roots, a);
  }

  /** Copying the value with its blanks removed leaves it as it is. */
  predicate Trimmed(value: Option<string>) {
    value.Some? ==> X.Trim(value.value) == value
  }

  lemma {:induction false} TrimStops(s: string, i: nat)
    ensures var p := X.TrimStart(s, i); p < |s| ==> !X.IsBlank(s[p]) || s[p] == '\n'
    decreases |s| - i
  {
    if i < |s| && X.IsBlank(s[i]) && s[i] != '\n' {
      TrimStops(s, i + 1);
    }
  }

  /** Nodes get their values trimmed twice, which is as good as once. */
  lemma TrimTwice(s: string)
    ensures Trimmed(X.Trim(s))
  {
    TrimStops(s, 0);
    var p := X.TrimStart(s, 0);
    if p < |s| {
      assert X.TrimStart(s[p..], 0) == 0 && X.TrimStart("\n", 0) == 0;
      assert s[p..][0..] == s[p..];
    }
  }

  /** Whatever value is read is trimmed. */
  predicate ReadsTrimmed(n: X.Next) {
    (n.TextNode? ==> Trimmed(Some(n.text))) && (n.AttrNode? ==> Trimmed(n.value))
  }

  lemma ContentTrimmed(s: string, st: X.State)
    requires st.pos < |s| && st.mode == X.ContentMode
    ensures ReadsTrimmed(X.Content(s, st).0)
  {
    hide X.Trim, X.TextEnd, X.SkipSpaces, X.SkipComment, X.SkipPI;
    var w := XmlText.CopyToken(s, st.pos, X.TextEnd(s, st.pos) - st.pos);
    if w.Some? {
      TrimTwice(w.value);
    }
  }

  lemma QuotedTrimmed(s: string, i: nat, e: nat)
    requires i <= e <= |s|
    ensures X.QuotedValue(s, i, e).0.NoNode? ==> Trimmed(X.QuotedValue(s, i, e).1)
  {
    hide X.Trim, XmlText.CopyToken;
    var w := XmlText.CopyToken(s, i, e - i);
    if i < e && w.Some? {
      TrimTwice(w.value);
    }
  }

  lemma AttributeTrimmed(s: string, st: X.State, name: string)
    requires st.pos <= |s|
    ensures ReadsTrimmed(X.Attribute(s, st, name).0)
  {
    hide X.NextToken, X.QuotedValue, X.AfterAttribute, X.NoBareLess, X.Find, X.Trim;
    var q := X.NextToken(s, X.NextToken(s, st.pos).pos);
    if q.text != "" && X.Find(s, q.pos, q.text).Some? {
      QuotedTrimmed(s, q.pos, X.Find(s, q.pos, q.text).value);
    }
  }

  lemma ValueTrimmed(s: string, st: X.State)
    requires st.pos <= |s|
    ensures ReadsTrimmed(X.GetNextNode(s, st).0)
  {
    hide X.NextToken, X.SkipSpaces, X.Attribute, X.Content, X.STag, X.ETag, X.Trim;
    if st.pos < |s| {
      if st.mode == X.ContentMode {
        ContentTrimmed(s, st);
      } else {
        var t := X.NextToken(s, X.SkipSpaces(s, st.pos));
        AttributeTrimmed(s, st.(pos := t.pos), t.text);
      }
    }
  }

  // ---- The builder ----

  /** The loop of isDuplicateAttribute. */
  method HasName(list: seq<X.Attr>, name: string) returns (found: bool)
    ensures found == X.HasAttr(list, name)
  {
    for k := 0 to |list|
      invariant forall j | 0 <= j < k :: list[j].name != name
    {
      if list[k].name == name {
        return true;
      }
    }
    return false;
  }

  /** gRootDoc and currentNodePtr; attributes are kept per element. */
  class Builder {
    const document: XmlNode
    var currentNodePtr: XmlNode
    var attrs: AttrLists
    ghost var h: Shape

    /** The fields describe a forest whose document holds the closed trees and the open path. */
    ghost predicate Builds(path: seq<X.Open>, roots: seq<X.Node>)
      reads this, h.nodes
    {
      && Formed(h)
      && document.nodeType == DocumentNode
      && attrs.Keys <= h.nodes
      && Rooted(h, document) && Plain(h, document)
      && (forall n | n in h.nodes :: n.ownerDocument == document)
      && Spine(h, attrs, document, currentNodePtr, path, roots, false)
    }

    /** A finished document. */
    ghost predicate Holds(roots: seq<X.Node>)
      reads this, h.nodes
    {
      IsDocument(h, attrs, document, roots) && forall n | n in h.nodes :: n.ownerDocument == document
    }

    /** XmlDocCreateDocumentEx. */
    constructor ()
      ensures Builds([], []) && fresh(h.nodes)
    {
      var doc := new XmlNode(DocumentNode, "#document", None, null);
      doc.ownerDocument := doc;
      document, currentNodePtr, attrs := doc, doc, map[];
      h := Loose({doc});
      new;
      LooseFormed({doc});
      assert Trees(h, attrs, doc) == [];
    }

    /** XmlNodeAppendChild of a new node to the current one. */
    method Append(newChild: XmlNode, ghost path: seq<X.Open>, ghost roots: seq<X.Node>) returns (rc: Rc)
      requires Builds(path, roots) && newChild !in h.nodes && Alone(newChild) && newChild.ownerDocument == document
      modifies this`h, h.nodes, newChild
      ensures rc == if AllowChildren(currentNodePtr, newChild) then Ok else HierarchyErr
      ensures rc == Ok ==> Formed(h) && h.nodes == old(h.nodes) + {newChild}
      ensures rc == Ok ==> forall n | n in h.nodes :: n.ownerDocument == document
      ensures rc == Ok ==> Spine(h, attrs, document, currentNodePtr, path, roots, true)
      ensures rc == Ok ==> LastOf(h, currentNodePtr, newChild) && h.Kids(newChild) == [] && Rooted(h, document)
    {
      hide Formed, Rooted, NewLast, Spine, AllowChildren, Ranked, OneParent, AllDistinct, AgreeBut, Alone;
      FormedLists(h);
      SpineTop(h, attrs, document, currentNodePtr, path, roots, false);
      ghost var g;
      rc, g := AppendNew(h, currentNodePtr, newChild);
      if rc == Ok {
        FormedLists(g);
        LastAdded(h, g, attrs, document, currentNodePtr, newChild);
        LeafAppended(h, attrs, g, document, currentNodePtr, path, roots, newChild);
        h := g;
      }
    }

    /** The element of ParserProcessElementName, which becomes the current node. */
    method AddElement(name: string, ghost path: seq<X.Open>, ghost roots: seq<X.Node>)
      requires Builds(path, roots)
      modifies this`h, this`currentNodePtr, h.nodes
      ensures Builds([X.Open(name, [], [])] + path, roots) && fresh(h.nodes - old(h.nodes))
    {
      hide Formed, Spine, Ranked, LastOf, Rooted, AllowChildren;
      FormedIsRanked(h);
      var newElement := new XmlNode(ElementNode, name, None, document);
      TopAllows(h, attrs, document, currentNodePtr, path, roots, newElement);
      var rc := Append(newElement, path, roots);
      FormedIsRanked(h);
      SpineEntered(h, attrs, document, currentNodePtr, path, roots, newElement);
      currentNodePtr := newElement;
    }

    /** XmlDocCreateTextNodeEx, which trims the text again, and the append to the current node. */
    method AddText(text: string, ghost path: seq<X.Open>, ghost roots: seq<X.Node>) returns (ok: bool)
      requires Builds(path, roots) && Trimmed(Some(text))
      modifies this`h, h.nodes
      ensures ok <==> path != []
      ensures ok ==> Builds([path[0].(children := path[0].children + [X.Text(text)])] + path[1..], roots)
      ensures ok ==> fresh(h.nodes - old(h.nodes))
    {
      hide Formed, Spine, Ranked, LastOf, Rooted, AllowChildren, X.Trim;
      FormedIsRanked(h);
      var textNode := new XmlNode(TextNode, "#text", X.Trim(text), document);
      TopAllows(h, attrs, document, currentNodePtr, path, roots, textNode);
      var rc := Append(textNode, path, roots);
      ok := rc == Ok;
      if ok {
        FormedIsRanked(h);
        TextClosed(h, attrs, document, currentNodePtr, path, roots, textNode);
      }
    }

    /** isDuplicateAttribute. */
    method IsDuplicate(name: string, ghost path: seq<X.Open>, ghost roots: seq<X.Node>) returns (found: bool)
      requires Builds(path, roots) && path != []
      ensures found == X.HasAttr(path[0].attrs, name)
    {
      hide Formed, Spine, Rooted, X.HasAttr;
      FormedIsRanked(h);
      SpineTop(h, attrs, document, currentNodePtr, path, roots, false);
      found := HasName(AttrsOf(attrs, currentNodePtr), name);
    }

    method AtDocument(ghost path: seq<X.Open>, ghost roots: seq<X.Node>) returns (yes: bool)
      requires Builds(path, roots)
      ensures yes <==> path == []
    {
      hide Formed, Spine;
      FormedIsRanked(h);
      SpineTop(h, attrs, document, currentNodePtr, path, roots, false);
      yes := currentNodePtr == document;
    }

    /** The end of XMLParserProcessAttributeName: a new attribute at the end of the list, its value
        trimmed again. */
    method AddAttribute(name: string, value: Option<string>, ghost path: seq<X.Open>, ghost roots: seq<X.Node>)
      requires Builds(path, roots) && path != [] && Trimmed(value)
      modifies this`attrs
      ensures Builds([path[0].(attrs := path[0].attrs + [X.Attr(name, value)])] + path[1..], roots)
    {
      hide Formed, Spine, Rooted, X.Trim;
      var a := X.Attr(name, if value.Some? then X.Trim(value.value) else None);
      FormedIsRanked(h);
      AttrOn(h, attrs, document, currentNodePtr, path, roots, a);
      attrs := attrs[currentNodePtr := AttrsOf(attrs, currentNodePtr) + [a]];
    }

    /** The end of ParserETagVerification: up to the parent if the name is that of the current node. */
    method Leave(name: string, ghost path: seq<X.Open>, ghost roots: seq<X.Node>) returns (ok: bool)
      requires Builds(path, roots) && path != []
      modifies this`currentNodePtr
      ensures ok <==> path[0].name == name
      ensures ok ==> var st := X.Attach(X.Start(0).(path := path[1..], roots := roots), X.Closed(path[0]));
                     Builds(st.path, st.roots)
    {
      hide Formed, Spine, Ranked;
      FormedIsRanked(h);
      SpineTop(h, attrs, document, currentNodePtr, path, roots, false);
      if currentNodePtr.nodeName != name {
        return false;
      }
      ghost var p := SpineLeft(h, attrs, document, currentNodePtr, path, roots);
      LastParent(h, p);
      SpineClosed(h, attrs, document, p, path[1..], roots);
      currentNodePtr := currentNodePtr.parentNode;
      return true;
    }

    lemma BuildIsDone(roots: seq<X.Node>)
      requires Builds([], roots)
      ensures Holds(roots)
    {
      forall n | n in h.nodes ensures Reach(h, document, n) {
        AllUnder(h, document, n);
      }
    }
  }
}
