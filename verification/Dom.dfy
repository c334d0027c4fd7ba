/** The DOM tree operations of libxmlet/src/node.c on a heap of sibling lists with parent
    pointers (DOM Level 2 Core, section 1.2, interface Node). */
module Dom {
  import opened Wrappers

  datatype NodeType = ElementNode | AttributeNode | TextNode | CDataNode | InstructionNode | DocumentNode | OtherNode

  datatype Rc = Ok | InvalidParameter | HierarchyErr | WrongDocumentErr | NotFoundErr

  class XmlNode {
    const nodeType: NodeType
    const nodeName: string
    const nodeValue: Option<string>
    var ownerDocument: XmlNode?
    var parentNode: XmlNode?
    var firstChild: XmlNode?
    var prevSibling: XmlNode?
    var nextSibling: XmlNode?

    constructor (nodeType: NodeType, nodeName: string, nodeValue: Option<string>, ownerDocument: XmlNode?)
      ensures this.nodeType == nodeType && this.nodeName == nodeName && this.nodeValue == nodeValue
      ensures this.ownerDocument == ownerDocument
      ensures parentNode == null && firstChild == null && prevSibling == null && nextSibling == null
    {
      this.nodeType, this.nodeName, this.nodeValue := nodeType, nodeName, nodeValue;
      this.ownerDocument := ownerDocument;
      parentNode, firstChild, prevSibling, nextSibling := null, null, null, null;
    }
  }

  // ---- The ordinary forest behind the pointers ----

  /** The nodes in play, the children of each in order, and a height that falls from parent to child. */
  datatype Shape = Shape(nodes: set<XmlNode>, kids: map<XmlNode, seq<XmlNode>>, rank: map<XmlNode, nat>, bound: nat) {
    ghost function Kids(n: XmlNode): seq<XmlNode> {
      if n in kids then kids[n] else []
    }

    ghost function Rank(n: XmlNode): nat {
      if n in rank then rank[n] else 0
    }
  }

  ghost predicate Distinct(ks: seq<XmlNode>) {
    forall i, j | 0 <= i < j < |ks| :: ks[i] != ks[j]
  }

  /** The element at i, or null outside the list. */
  ghost function At(ks: seq<XmlNode>, i: int): XmlNode? {
    if 0 <= i < |ks| then ks[i] else null
  }

  /** firstChild is the head of the list, and next and prev walk it in both directions. */
  ghost predicate ListOk(p: XmlNode, ks: seq<XmlNode>)
    reads p, ks
  {
    && p.firstChild == At(ks, 0)
    && (forall i | 0 <= i < |ks| ::
          ks[i].parentNode == p && ks[i].prevSibling == At(ks, i - 1) && ks[i].nextSibling == At(ks, i + 1))
    && Distinct(ks)
  }

  /** No cycles: every child is in play and lower than its parent. */
  ghost predicate Ranked(h: Shape) {
    && h.kids.Keys <= h.nodes
    && (forall n | n in h.nodes :: h.Rank(n) < h.bound)
    && (forall n, c | n in h.nodes && c in h.Kids(n) :: c in h.nodes && h.Rank(c) < h.Rank(n))
  }

  ghost predicate Lists(h: Shape)
    reads h.nodes
  {
    Ranked(h) && forall n | n in h.nodes :: ListOk(n, h.Kids(n))
  }

  /** A node is either alone or in the list of its parent. */
  ghost predicate Placed(h: Shape, n: XmlNode)
    reads n
  {
    && (n.parentNode == null ==> n.prevSibling == null && n.nextSibling == null)
    && (n.parentNode != null ==> n.parentNode in h.nodes && n in h.Kids(n.parentNode))
  }

  ghost predicate Formed(h: Shape)
    reads h.nodes
  {
    Lists(h) && forall n | n in h.nodes :: Placed(h, n)
  }

  ghost function IndexOf(ks: seq<XmlNode>, c: XmlNode): (i: nat)
    requires c in ks
    ensures i < |ks| && ks[i] == c
  {
    if ks[0] == c then 0 else 1 + IndexOf(ks[1..], c)
  }

  lemma IndexUnique(ks: seq<XmlNode>, i: nat)
    requires Distinct(ks) && i < |ks|
    ensures IndexOf(ks, ks[i]) == i
  {
  }

  // ---- Ancestors (node.c 583-610) ----

  /** a is a proper ancestor of f. */
  ghost predicate Above(h: Shape, a: XmlNode, f: XmlNode)
    requires Formed(h) && f in h.nodes
    reads h.nodes
    decreases h.bound - h.Rank(f)
  {
    f.parentNode != null && (f.parentNode == a || (RankUp(h, f); Above(h, a, f.parentNode)))
  }

  lemma RankUp(h: Shape, f: XmlNode)
    requires Formed(h) && f in h.nodes && f.parentNode != null
    ensures f.parentNode in h.nodes && h.Rank(f) < h.Rank(f.parentNode)
  {
    var i := IndexOf(h.Kids(f.parentNode), f);
  }

  /** A node and the siblings after it. */
  ghost function Following(h: Shape, a: XmlNode): (r: seq<XmlNode>)
    requires Formed(h) && a in h.nodes
    reads h.nodes
    ensures |r| > 0 && r[0] == a && forall b | b in r :: b in h.nodes
  {
    if a.parentNode == null then [a]
    else
      ListOf(h, a);
      FromOn(h.Kids(a.parentNode), a)
  }

  /** ks from c on. */
  ghost function FromOn(ks: seq<XmlNode>, c: XmlNode): (r: seq<XmlNode>)
    requires c in ks
    ensures |r| > 0 && r[0] == c && forall b | b in r :: b in ks
  {
    ks[IndexOf(ks, c)..]
  }

  lemma ListOf(h: Shape, a: XmlNode)
    requires Formed(h) && a in h.nodes && a.parentNode != null
    ensures a.parentNode in h.nodes && a in h.Kids(a.parentNode)
    ensures forall b | b in h.Kids(a.parentNode) :: b in h.nodes
  {
    assert Placed(h, a);
  }

  ghost function Level(h: Shape, a: XmlNode?): nat
    requires Formed(h) && (a != null ==> a in h.nodes)
    reads h.nodes
  {
    if a == null then 0 else if a.parentNode == null then h.bound + 1 else h.Rank(a.parentNode) + 1
  }

  ghost function Left(h: Shape, a: XmlNode?): nat
    requires Formed(h) && (a != null ==> a in h.nodes)
    reads h.nodes
  {
    if a == null then 0 else |Following(h, a)|
  }

  lemma ChildLink(h: Shape, a: XmlNode)
    requires Formed(h) && a in h.nodes
    ensures a.firstChild == null <==> h.Kids(a) == []
    ensures a.firstChild != null ==>
              a.firstChild in h.nodes && a.firstChild.parentNode == a && Level(h, a.firstChild) < Level(h, a) &&
              Following(h, a.firstChild) == h.Kids(a)
  {
    if a.firstChild != null {
      IndexUnique(h.Kids(a), 0);
      assert h.Kids(a)[0] in h.nodes;
      if a.parentNode != null {
        RankUp(h, a);
      }
    }
  }

  lemma SiblingLink(h: Shape, a: XmlNode)
    requires Formed(h) && a in h.nodes
    ensures a.nextSibling == null <==> |Following(h, a)| == 1
    ensures a.nextSibling != null ==>
              a.nextSibling in h.nodes && Level(h, a.nextSibling) == Level(h, a) &&
              Following(h, a.nextSibling) == Following(h, a)[1..]
  {
    if a.parentNode != null {
      assert Placed(h, a);
      var p := a.parentNode;
      assert ListOk(p, h.Kids(p));
      var i := IndexOf(h.Kids(p), a);
      assert Following(h, a) == h.Kids(p)[i..];
      if i + 1 < |h.Kids(p)| {
        NextInList(h, p, i);
      }
    }
  }

  lemma NextInList(h: Shape, p: XmlNode, i: nat)
    requires Formed(h) && p in h.nodes && i + 1 < |h.Kids(p)|
    ensures var b := h.Kids(p)[i + 1];
            b in h.nodes && b.parentNode == p && Following(h, b) == h.Kids(p)[i..][1..] && Level(h, b) == h.Rank(p) + 1
  {
    var ks := h.Kids(p);
    assert ListOk(p, ks);
    var b := ks[i + 1];
    assert b in ks && b in h.nodes && b.parentNode == p;
    hide Formed, ListOk;
    IndexUnique(ks, i + 1);
    assert ks[i..][1..] == ks[i + 1..];
  }

  /** XmlNodeIsAncestor: it descends into children and also walks on along the siblings. */
  function IsAncestor(ghost h: Shape, ancestorNode: XmlNode?, toFind: XmlNode?): bool
    requires Formed(h) && (ancestorNode != null ==> ancestorNode in h.nodes) && (toFind != null ==> toFind in h.nodes)
    reads h.nodes
    decreases Level(h, ancestorNode), Left(h, ancestorNode)
  {
    if ancestorNode != null && toFind != null then
      if toFind.parentNode == ancestorNode then true
      else
        ChildLink(h, ancestorNode);
        SiblingLink(h, ancestorNode);
        IsAncestor(h, ancestorNode.firstChild, toFind) || IsAncestor(h, ancestorNode.nextSibling, toFind)
    else false
  }

  lemma {:induction false} AboveDown(h: Shape, a: XmlNode, b: XmlNode, f: XmlNode)
    requires Formed(h) && f in h.nodes && a in h.nodes && b in h.Kids(a) && Above(h, b, f)
    ensures Above(h, a, f)
    decreases h.bound - h.Rank(f)
  {
    RankUp(h, f);
    if f.parentNode != b {
      AboveDown(h, a, b, f.parentNode);
    } else {
      assert b.parentNode == a;
    }
  }

  lemma {:induction false} AboveViaKid(h: Shape, a: XmlNode, f: XmlNode) returns (b: XmlNode)
    requires Formed(h) && f in h.nodes && a in h.nodes && Above(h, a, f) && f.parentNode != a
    ensures b in h.Kids(a) && Above(h, b, f)
    decreases h.bound - h.Rank(f)
  {
    var g := f.parentNode;
    RankUp(h, f);
    if g.parentNode == a {
      b := g;
    } else {
      b := AboveViaKid(h, a, g);
    }
  }

  ghost predicate AnyAbove(h: Shape, ks: seq<XmlNode>, f: XmlNode)
    requires Formed(h) && f in h.nodes
    reads h.nodes
  {
    exists b :: b in ks && Above(h, b, f)
  }

  lemma AnyAboveFirst(h: Shape, ks: seq<XmlNode>, f: XmlNode)
    requires Formed(h) && f in h.nodes && ks != []
    ensures AnyAbove(h, ks, f) <==> Above(h, ks[0], f) || AnyAbove(h, ks[1..], f)
  {
    hide Formed, Above;
    assert ks == [ks[0]] + ks[1..];
    assert ks[0] in ks;
  }

  /** One step of the test. */
  lemma IsAncestorStep(h: Shape, a: XmlNode, f: XmlNode)
    requires Formed(h) && a in h.nodes && f in h.nodes
    ensures a.firstChild != null ==> a.firstChild in h.nodes
    ensures a.nextSibling != null ==> a.nextSibling in h.nodes
    ensures IsAncestor(h, a, f) <==>
              f.parentNode == a || (a.firstChild != null && IsAncestor(h, a.firstChild, f))
              || (a.nextSibling != null && IsAncestor(h, a.nextSibling, f))
  {
    ChildLink(h, a);
    SiblingLink(h, a);
    hide Formed;
  }

  lemma ParentAbove(h: Shape, f: XmlNode)
    requires Formed(h) && f in h.nodes && f.parentNode != null
    ensures Above(h, f.parentNode, f)
  {
  }

  /** XmlNodeIsAncestor finds exactly the ancestors among a node and its following siblings. */
  lemma {:induction false} IsAncestorMeaning(h: Shape, a: XmlNode, f: XmlNode)
    requires Formed(h) && a in h.nodes && f in h.nodes
    ensures IsAncestor(h, a, f) <==> exists b :: b in Following(h, a) && Above(h, b, f)
    decreases Level(h, a), Left(h, a)
  {
    ChildLink(h, a);
    SiblingLink(h, a);
    IsAncestorStep(h, a, f);
    AnyAboveFirst(h, Following(h, a), f);
    assert AnyAbove(h, Following(h, a), f) <==> exists b :: b in Following(h, a) && Above(h, b, f);
    if a.firstChild != null {
      IsAncestorMeaning(h, a.firstChild, f);
      assert IsAncestor(h, a.firstChild, f) <==> AnyAbove(h, Following(h, a.firstChild), f);
    }
    if a.nextSibling != null {
      IsAncestorMeaning(h, a.nextSibling, f);
      assert IsAncestor(h, a.nextSibling, f) <==> AnyAbove(h, Following(h, a.nextSibling), f);
    }
    if f.parentNode == a {
      ParentAbove(h, f);
    } else {
      ViaKids(h, a, f);
      assert Above(h, a, f) <==> AnyAbove(h, h.Kids(a), f);
    }
  }

  /** Ancestors of f, other than its parent, are found through their children. */
  lemma ViaKids(h: Shape, a: XmlNode, f: XmlNode)
    requires Formed(h) && f in h.nodes && a in h.nodes && f.parentNode != a
    ensures Above(h, a, f) <==> exists b :: b in h.Kids(a) && Above(h, b, f)
  {
    if Above(h, a, f) {
      var b := AboveViaKid(h, a, f);
    }
    forall b | b in h.Kids(a) && Above(h, b, f) ensures Above(h, a, f) {
      AboveDown(h, a, b, f);
    }
  }

  lemma {:induction false} AboveIsHigher(h: Shape, a: XmlNode, f: XmlNode)
    requires Formed(h) && f in h.nodes && Above(h, a, f)
    ensures a in h.nodes && h.Rank(f) < h.Rank(a)
    decreases h.bound - h.Rank(f)
  {
    RankUp(h, f);
    if f.parentNode != a {
      AboveIsHigher(h, a, f.parentNode);
    }
  }

  lemma KidParent(h: Shape, n: XmlNode, b: XmlNode)
    requires Formed(h) && n in h.nodes && b in h.Kids(n)
    ensures b in h.nodes && b.parentNode == n && h.Rank(b) < h.Rank(n)
  {
    var i := IndexOf(h.Kids(n), b);
    assert ListOk(n, h.Kids(n)) && h.Kids(n)[i].parentNode == n;
  }

  lemma KidsDistinct(h: Shape, n: XmlNode)
    requires Formed(h) && n in h.nodes
    ensures Distinct(h.Kids(n))
  {
    assert ListOk(n, h.Kids(n));
  }

  lemma AboveParent(h: Shape, a: XmlNode, f: XmlNode)
    requires Formed(h) && f in h.nodes && Above(h, a, f)
    ensures f.parentNode != null && f.parentNode in h.nodes
    ensures f.parentNode == a || Above(h, a, f.parentNode)
  {
    RankUp(h, f);
    hide Formed;
  }

  /** For a detached node, and for a child of toFind, it answers for that node alone. */
  lemma IsAncestorExact(h: Shape, a: XmlNode, f: XmlNode)
    requires Formed(h) && a in h.nodes && f in h.nodes && (a.parentNode == null || a.parentNode == f)
    ensures IsAncestor(h, a, f) <==> Above(h, a, f)
  {
    IsAncestorMeaning(h, a, f);
    if a.parentNode == f {
      forall b | b in Following(h, a) && Above(h, b, f) ensures false {
        RankUp(h, b);
        AboveIsHigher(h, b, f);
      }
    }
  }
}
