/** The trees that a forest of nodes stands for, and what appending a leaf to the node that is
    open does to them (libxmlet/src/parser.c 909-1065 on libxmlet/src/node.c 929-987). */
module DomTrees {
  import opened Wrappers
  import opened Dom
  import X = XmlSyntax

  /** The attribute list of each element that has one, in order. */
  type AttrLists = map<XmlNode, seq<X.Attr>>

  function AttrsOf(d: AttrLists, n: XmlNode): seq<X.Attr> {
    if n in d then d[n] else []
  }

  ghost function TreeOf(h: Shape, d: AttrLists, n: XmlNode): X.Node
    requires Ranked(h) && n in h.nodes
    decreases h.Rank(n), 1
  {
    if n.nodeType == TextNode then X.Text(if n.nodeValue.Some? then n.nodeValue.value else "")
    else X.Element(n.nodeName, n.nodeValue, AttrsOf(d, n), Trees(h, d, n))
  }

  /** The children of a node as trees. */
  ghost function Trees(h: Shape, d: AttrLists, n: XmlNode): (ts: seq<X.Node>)
    requires Ranked(h) && n in h.nodes
    ensures |ts| == |h.Kids(n)|
    decreases h.Rank(n), 0
  {
    seq(|h.Kids(n)|, i requires 0 <= i < |h.Kids(n)| => (KidRanked(h, n, i); TreeOf(h, d, h.Kids(n)[i])))
  }

  lemma KidRanked(h: Shape, n: XmlNode, i: nat)
    requires Ranked(h) && n in h.nodes && i < |h.Kids(n)|
    ensures h.Kids(n)[i] in h.nodes && h.Rank(h.Kids(n)[i]) < h.Rank(n)
  {
    assert h.Kids(n)[i] in h.Kids(n);
  }

  /** x is n or lies below it. */
  ghost predicate Reach(h: Shape, n: XmlNode, x: XmlNode)
    requires Ranked(h) && n in h.nodes
    decreases h.Rank(n)
  {
    n == x || exists c :: c in h.Kids(n) && Reach(h, c, x)
  }

  lemma {:induction false} ReachIsLower(h: Shape, n: XmlNode, x: XmlNode)
    requires Ranked(h) && n in h.nodes && Reach(h, n, x)
    ensures x in h.nodes && h.Rank(x) <= h.Rank(n)
    decreases h.Rank(n)
  {
    if n != x {
      var c :| c in h.Kids(n) && Reach(h, c, x);
      ReachIsLower(h, c, x);
    }
  }

  /** No node is in two lists. */
  ghost predicate OneParent(h: Shape) {
    forall a, b, c | a in h.nodes && b in h.nodes && c in h.Kids(a) && c in h.Kids(b) :: a == b
  }

  lemma {:induction false} ReachParent(h: Shape, n: XmlNode, x: XmlNode, p: XmlNode)
    requires Ranked(h) && OneParent(h) && n in h.nodes && p in h.nodes && x in h.Kids(p)
    requires Reach(h, n, x) && n != x
    ensures Reach(h, n, p)
    decreases h.Rank(n)
  {
    var c :| c in h.Kids(n) && Reach(h, c, x);
    if c != x {
      ReachParent(h, c, x, p);
    }
  }

  /** What lies below one child lies below no other. */
  lemma {:induction false} KidsDisjoint(h: Shape, p: XmlNode, s: XmlNode, c: XmlNode, x: XmlNode)
    requires Ranked(h) && OneParent(h) && p in h.nodes && s in h.Kids(p) && c in h.Kids(p)
    requires x in h.nodes && Reach(h, s, x) && Reach(h, c, x)
    ensures s == c
    decreases h.bound - h.Rank(x)
  {
    if s != c {
      ReachIsLower(h, s, x);
      if s == x {
        ReachParent(h, c, x, p);
        ReachIsLower(h, c, p);
      } else if c == x {
        ReachParent(h, s, x, p);
        ReachIsLower(h, s, p);
      } else {
        var d :| d in h.Kids(s) && Reach(h, d, x);
        var m := ParentOf(h, s, x);
        ReachParent(h, c, x, m);
        KidsDisjoint(h, p, s, c, m);
      }
    }
  }

  lemma {:induction false} ParentOf(h: Shape, n: XmlNode, x: XmlNode) returns (m: XmlNode)
    requires Ranked(h) && n in h.nodes && Reach(h, n, x) && n != x
    ensures m in h.nodes && x in h.Kids(m) && Reach(h, n, m)
    decreases h.Rank(n)
  {
    var c :| c in h.Kids(n) && Reach(h, c, x);
    if c == x {
      m := n;
    } else {
      m := ParentOf(h, c, x);
    }
  }

  /** Besides the document there are elements and text nodes only. */
  ghost predicate Plain(h: Shape, doc: XmlNode) {
    forall n | n in h.nodes && n != doc :: n.nodeType == ElementNode || n.nodeType == TextNode
  }

  /** Every node but the document is some node's child. */
  ghost predicate Rooted(h: Shape, doc: XmlNode) {
    forall n | n in h.nodes && n != doc :: IsKid(h, n)
  }

  ghost predicate IsKid(h: Shape, n: XmlNode) {
    exists p :: p in h.nodes && n in h.Kids(p)
  }

  /** A document with these trees, and nothing but the nodes under it. */
  ghost predicate IsDocument(h: Shape, d: AttrLists, doc: XmlNode, roots: seq<X.Node>)
    reads h.nodes
  {
    && Formed(h)
    && doc in h.nodes && doc.nodeType == DocumentNode
    && (forall n | n in h.nodes :: Reach(h, doc, n)) && Plain(h, doc)
    && Trees(h, d, doc) == roots
  }

  lemma {:induction false} ReachDown(h: Shape, a: XmlNode, p: XmlNode, n: XmlNode)
    requires Ranked(h) && a in h.nodes && p in h.nodes && n in h.Kids(p) && Reach(h, a, p)
    ensures Reach(h, a, n)
    decreases h.Rank(a)
  {
    if a == p {
      assert Reach(h, n, n);
    } else {
      var c :| c in h.Kids(a) && Reach(h, c, p);
      ReachDown(h, c, p, n);
    }
  }

  /** So every node lies under the document. */
  lemma {:induction false} AllUnder(h: Shape, doc: XmlNode, n: XmlNode)
    requires Ranked(h) && doc in h.nodes && Rooted(h, doc) && n in h.nodes
    ensures Reach(h, doc, n)
    decreases h.bound - h.Rank(n)
  {
    if n != doc {
      assert IsKid(h, n);
      var p :| p in h.nodes && n in h.Kids(p);
      AllUnder(h, doc, p);
      ReachDown(h, doc, p, n);
    }
  }

  /** Two shapes and their attribute lists agree on every node but p. */
  ghost predicate AgreeBut(h: Shape, d: AttrLists, g: Shape, e: AttrLists, p: XmlNode) {
    && h.nodes <= g.nodes
    && forall n | n in h.nodes && n != p ::
         g.Kids(n) == h.Kids(n) && AttrsOf(e, n) == AttrsOf(d, n)
  }

  lemma {:induction false} TreeSame(h: Shape, d: AttrLists, g: Shape, e: AttrLists, p: XmlNode, n: XmlNode)
    requires Ranked(h) && Ranked(g) && AgreeBut(h, d, g, e, p) && n in h.nodes && !Reach(h, n, p)
    ensures TreeOf(g, e, n) == TreeOf(h, d, n)
    decreases h.Rank(n)
  {
    var ks := h.Kids(n);
    assert g.Kids(n) == ks;
    forall i | 0 <= i < |ks| ensures Trees(g, e, n)[i] == Trees(h, d, n)[i] {
      assert ks[i] in ks;
      TreeSame(h, d, g, e, p, ks[i]);
    }
    assert Trees(g, e, n) == Trees(h, d, n);
  }

  // ---- The open path ----

  /** The trees of a node's children, without the last when it is still open. */
  ghost function ClosedTrees(h: Shape, d: AttrLists, n: XmlNode, open: bool): seq<X.Node>
    requires Ranked(h) && n in h.nodes && (open ==> h.Kids(n) != [])
  {
    if open then Trees(h, d, n)[..|h.Kids(n)| - 1] else Trees(h, d, n)
  }

  ghost function LastKid(h: Shape, p: XmlNode): XmlNode
    requires h.Kids(p) != []
  {
    h.Kids(p)[|h.Kids(p)| - 1]
  }

  /** n is the open element o. */
  ghost predicate OpenAt(h: Shape, d: AttrLists, n: XmlNode, o: X.Open, open: bool)
    requires Ranked(h) && n in h.nodes && (open ==> h.Kids(n) != [])
  {
    && n.nodeType == ElementNode && n.nodeName == o.name && n.nodeValue == None && AttrsOf(d, n) == o.attrs
    && ClosedTrees(h, d, n, open) == o.children
  }

  /** n is the last child of p. */
  ghost predicate LastOf(h: Shape, p: XmlNode, n: XmlNode) {
    p in h.nodes && h.Kids(p) != [] && LastKid(h, p) == n
  }

  /** From n up to the document the nodes are the open elements of the path, innermost first;
      each is the last child of the next, and the children before it are closed. */
  ghost predicate Spine(h: Shape, d: AttrLists, doc: XmlNode, n: XmlNode, path: seq<X.Open>, roots: seq<X.Node>,
                        open: bool)
    requires Ranked(h)
    decreases |path|
  {
    && n in h.nodes && (open ==> h.Kids(n) != [])
    && if path == [] then n == doc && ClosedTrees(h, d, n, open) == roots
       else
         && OpenAt(h, d, n, path[0], open)
         && exists p | p in h.nodes :: LastOf(h, p, n) && Spine(h, d, doc, p, path[1..], roots, true)
  }

  lemma SpineTop(h: Shape, d: AttrLists, doc: XmlNode, n: XmlNode, path: seq<X.Open>, roots: seq<X.Node>, open: bool)
    requires Ranked(h) && Spine(h, d, doc, n, path, roots, open)
    ensures n in h.nodes && (open ==> h.Kids(n) != [])
    ensures if path == [] then n == doc && ClosedTrees(h, d, n, open) == roots else OpenAt(h, d, n, path[0], open)
  {
  }

  /** The node above the innermost element. */
  lemma NextUp(h: Shape, d: AttrLists, doc: XmlNode, n: XmlNode, path: seq<X.Open>, roots: seq<X.Node>, open: bool)
    returns (p: XmlNode)
    requires Ranked(h) && path != [] && Spine(h, d, doc, n, path, roots, open)
    ensures LastOf(h, p, n) && n in h.Kids(p) && h.Rank(n) < h.Rank(p)
    ensures Spine(h, d, doc, p, path[1..], roots, true)
  {
    p :| LastOf(h, p, n) && Spine(h, d, doc, p, path[1..], roots, true);
    assert LastOf(h, p, n);
    KidRanked(h, p, |h.Kids(p)| - 1);
  }

  /** One more element at the inner end. */
  lemma SpineOn(h: Shape, d: AttrLists, doc: XmlNode, n: XmlNode, o: X.Open, p: XmlNode, rest: seq<X.Open>,
                roots: seq<X.Node>, open: bool)
    requires Ranked(h) && n in h.nodes && (open ==> h.Kids(n) != []) && OpenAt(h, d, n, o, open)
    requires LastOf(h, p, n) && Spine(h, d, doc, p, rest, roots, true)
    ensures Spine(h, d, doc, n, [o] + rest, roots, open)
  {
    hide ClosedTrees;
    assert ([o] + rest)[1..] == rest;
  }

  lemma ClosedSame(h: Shape, d: AttrLists, g: Shape, e: AttrLists, p: XmlNode, x: XmlNode)
    requires Ranked(h) && Ranked(g) && OneParent(h) && Distinct(h.Kids(p)) && AgreeBut(h, d, g, e, x) && x in h.nodes
    requires p in h.nodes && h.Kids(p) != [] && Reach(h, LastKid(h, p), x) && p != x
    ensures g.Kids(p) == h.Kids(p) && ClosedTrees(g, e, p, true) == ClosedTrees(h, d, p, true)
  {
    var ks := h.Kids(p);
    forall i | 0 <= i < |ks| - 1 ensures Trees(g, e, p)[i] == Trees(h, d, p)[i] {
      KidRanked(h, p, i);
      assert ks[i] in ks && LastKid(h, p) in ks && ks[i] != LastKid(h, p);
      if Reach(h, ks[i], x) {
        KidsDisjoint(h, p, ks[i], LastKid(h, p), x);
      }
      TreeSame(h, d, g, e, x, ks[i]);
    }
  }

  ghost predicate AllDistinct(h: Shape) {
    forall n | n in h.nodes :: Distinct(h.Kids(n))
  }

  /** A node whose last child holds the change stays as it was. */
  lemma OpenStays(h: Shape, d: AttrLists, g: Shape, e: AttrLists, p: XmlNode, o: X.Open, x: XmlNode)
    requires Ranked(h) && Ranked(g) && OneParent(h) && Distinct(h.Kids(p)) && AgreeBut(h, d, g, e, x) && x in h.nodes
    requires p in h.nodes && h.Kids(p) != [] && Reach(h, LastKid(h, p), x) && p != x && OpenAt(h, d, p, o, true)
    ensures p in g.nodes && g.Kids(p) == h.Kids(p) && OpenAt(g, e, p, o, true)
  {
    hide ClosedTrees, Reach, OneParent;
    ClosedSame(h, d, g, e, p, x);
  }

  lemma BelowLast(h: Shape, p: XmlNode, x: XmlNode)
    requires Ranked(h) && p in h.nodes && h.Kids(p) != []
    ensures LastKid(h, p) in h.nodes
    ensures Reach(h, LastKid(h, p), x) ==> Reach(h, p, x) && p != x
  {
    KidRanked(h, p, |h.Kids(p)| - 1);
    assert LastKid(h, p) in h.Kids(p);
    if Reach(h, LastKid(h, p), x) {
      ReachIsLower(h, LastKid(h, p), x);
    }
  }

  /** Changes at or below n leave the path above n. */
  lemma {:induction false} SpineStays(h: Shape, d: AttrLists, g: Shape, e: AttrLists, doc: XmlNode, p: XmlNode,
                                      path: seq<X.Open>, roots: seq<X.Node>, n: XmlNode)
    requires Ranked(h) && Ranked(g) && OneParent(h) && AllDistinct(h) && AgreeBut(h, d, g, e, n) && n in h.nodes
    requires p in h.nodes && h.Kids(p) != [] && LastKid(h, p) in h.nodes && Reach(h, LastKid(h, p), n)
    requires Spine(h, d, doc, p, path, roots, true)
    ensures Spine(g, e, doc, p, path, roots, true)
    decreases |path|
  {
    hide Reach, OneParent, Distinct, Ranked, ClosedTrees, Spine, OpenAt;
    SpineTop(h, d, doc, p, path, roots, true);
    BelowLast(h, p, n);
    if path == [] {
      ClosedSame(h, d, g, e, p, n);
      SpineEnd(g, e, doc, roots, true);
    } else {
      var q := NextUp(h, d, doc, p, path, roots, true);
      BelowLast(h, q, n);
      SpineStays(h, d, g, e, doc, q, path[1..], roots, n);
      OpenStays(h, d, g, e, p, path[0], n);
      assert LastOf(g, q, p);
      SpineOn(g, e, doc, p, path[0], q, path[1..], roots, true);
      assert path == [path[0]] + path[1..];
    }
  }

  lemma SpineEnd(h: Shape, d: AttrLists, doc: XmlNode, roots: seq<X.Node>, open: bool)
    requires Ranked(h) && doc in h.nodes && (open ==> h.Kids(doc) != []) && ClosedTrees(h, d, doc, open) == roots
    ensures Spine(h, d, doc, doc, [], roots, open)
  {
  }

  /** A change at n leaves the trees of its children. */
  lemma KidsSame(h: Shape, d: AttrLists, g: Shape, e: AttrLists, n: XmlNode)
    requires Ranked(h) && Ranked(g) && AgreeBut(h, d, g, e, n) && n in h.nodes && h.Kids(n) <= g.Kids(n)
    ensures Trees(g, e, n)[..|h.Kids(n)|] == Trees(h, d, n)
  {
    var ks := h.Kids(n);
    forall i | 0 <= i < |ks| ensures Trees(g, e, n)[i] == Trees(h, d, n)[i] {
      KidRanked(h, n, i);
      if Reach(h, ks[i], n) { ReachIsLower(h, ks[i], n); }
      TreeSame(h, d, g, e, n, ks[i]);
    }
  }

  /** What lies above n on the path stays there when n changes. */
  lemma AboveStays(h: Shape, d: AttrLists, g: Shape, e: AttrLists, doc: XmlNode, n: XmlNode,
                   path: seq<X.Open>, roots: seq<X.Node>) returns (p: XmlNode)
    requires Ranked(h) && Ranked(g) && OneParent(h) && AllDistinct(h) && AgreeBut(h, d, g, e, n)
    requires path != [] && Spine(h, d, doc, n, path, roots, false)
    ensures LastOf(g, p, n) && Spine(g, e, doc, p, path[1..], roots, true)
  {
    hide OneParent, Distinct, Spine, OpenAt;
    SpineTop(h, d, doc, n, path, roots, false);
    p := NextUp(h, d, doc, n, path, roots, false);
    SpineStays(h, d, g, e, doc, p, path[1..], roots, n);
  }

  /** A leaf appended to the node that is open at the inner end of the path. */
  lemma LeafAppended(h: Shape, d: AttrLists, g: Shape, doc: XmlNode, n: XmlNode, path: seq<X.Open>,
                     roots: seq<X.Node>, c: XmlNode)
    requires Ranked(h) && Ranked(g) && OneParent(h) && AllDistinct(h) && AgreeBut(h, d, g, d, n)
    requires Spine(h, d, doc, n, path, roots, false) && g.Kids(n) == h.Kids(n) + [c]
    ensures Spine(g, d, doc, n, path, roots, true)
  {
    hide OneParent, AllDistinct, Ranked, Spine, Trees;
    SpineTop(h, d, doc, n, path, roots, false);
    KidsSame(h, d, g, d, n);
    assert ClosedTrees(g, d, n, true) == ClosedTrees(h, d, n, false);
    if path == [] {
      SpineEnd(g, d, doc, roots, true);
    } else {
      var p := AboveStays(h, d, g, d, doc, n, path, roots);
      SpineOn(g, d, doc, n, path[0], p, path[1..], roots, true);
      assert path == [path[0]] + path[1..];
    }
  }

  /** An element appended is open below the path. */
  lemma SpineEntered(h: Shape, d: AttrLists, doc: XmlNode, n: XmlNode, path: seq<X.Open>, roots: seq<X.Node>,
                     c: XmlNode)
    requires Ranked(h) && Spine(h, d, doc, n, path, roots, true) && LastOf(h, n, c)
    requires c in h.nodes && h.Kids(c) == [] && c.nodeType == ElementNode && c.nodeValue == None && AttrsOf(d, c) == []
    ensures Spine(h, d, doc, c, [X.Open(c.nodeName, [], [])] + path, roots, false)
  {
    hide Spine;
    SpineOn(h, d, doc, c, X.Open(c.nodeName, [], []), n, path, roots, false);
  }

  /** The last child, once closed, stands at the end of the children. */
  lemma LastClosed(h: Shape, d: AttrLists, n: XmlNode)
    requires Ranked(h) && n in h.nodes && h.Kids(n) != []
    ensures LastKid(h, n) in h.nodes
    ensures ClosedTrees(h, d, n, false) == ClosedTrees(h, d, n, true) + [TreeOf(h, d, LastKid(h, n))]
  {
    var m := |h.Kids(n)| - 1;
    KidRanked(h, n, m);
    assert Trees(h, d, n) == Trees(h, d, n)[..m] + [Trees(h, d, n)[m]];
  }

  /** The last child of the open node, once closed, is one of its children. */
  lemma SpineClosed(h: Shape, d: AttrLists, doc: XmlNode, n: XmlNode, path: seq<X.Open>, roots: seq<X.Node>)
    requires Ranked(h) && Spine(h, d, doc, n, path, roots, true)
    ensures n in h.nodes && h.Kids(n) != [] && LastKid(h, n) in h.nodes
    ensures var t := TreeOf(h, d, LastKid(h, n));
            if path == [] then Spine(h, d, doc, n, [], roots + [t], false)
            else Spine(h, d, doc, n, [path[0].(children := path[0].children + [t])] + path[1..], roots, false)
  {
    hide Spine, Ranked, ClosedTrees, TreeOf;
    SpineTop(h, d, doc, n, path, roots, true);
    LastClosed(h, d, n);
    var t := TreeOf(h, d, LastKid(h, n));
    if path == [] {
      SpineEnd(h, d, doc, roots + [t], false);
    } else {
      var p := NextUp(h, d, doc, n, path, roots, true);
      SpineOn(h, d, doc, n, path[0].(children := path[0].children + [t]), p, path[1..], roots, false);
    }
  }

  /** The innermost element left: its tree is a child of the next. */
  lemma SpineLeft(h: Shape, d: AttrLists, doc: XmlNode, n: XmlNode, path: seq<X.Open>, roots: seq<X.Node>)
    returns (p: XmlNode)
    requires Ranked(h) && path != [] && Spine(h, d, doc, n, path, roots, false)
    ensures LastOf(h, p, n) && Spine(h, d, doc, p, path[1..], roots, true)
    ensures n in h.nodes && TreeOf(h, d, n) == X.Closed(path[0])
  {
    hide Spine;
    SpineTop(h, d, doc, n, path, roots, false);
    p := NextUp(h, d, doc, n, path, roots, false);
  }

  /** Another attribute on the innermost element. */
  lemma AttrAdded(h: Shape, d: AttrLists, e: AttrLists, doc: XmlNode, n: XmlNode, path: seq<X.Open>,
                  roots: seq<X.Node>, a: X.Attr)
    requires Ranked(h) && OneParent(h) && AllDistinct(h) && AgreeBut(h, d, h, e, n)
    requires path != [] && Spine(h, d, doc, n, path, roots, false)
    requires AttrsOf(e, n) == AttrsOf(d, n) + [a]
    ensures Spine(h, e, doc, n, [path[0].(attrs := path[0].attrs + [a])] + path[1..], roots, false)
  {
    hide OneParent, AllDistinct, Ranked, Spine, Trees;
    SpineTop(h, d, doc, n, path, roots, false);
    KidsSame(h, d, h, e, n);
    assert ClosedTrees(h, e, n, false) == ClosedTrees(h, d, n, false);
    var p := AboveStays(h, d, h, e, doc, n, path, roots);
    SpineOn(h, e, doc, n, path[0].(attrs := path[0].attrs + [a]), p, path[1..], roots, false);
  }
}
