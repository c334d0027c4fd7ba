/** The operations that rewrite the sibling lists (node.c 644-677, 722-987), each proved to have
    exactly its DOM effect on the forest, and to leave no forest at all where it has none. */
module DomEdit {
  import opened Wrappers
  import opened Dom
  import opened DomLinks

  /** XmlNodeAllowChildren. */
  predicate AllowChildren(nodeptr: XmlNode, newChild: XmlNode) {
    match nodeptr.nodeType
    case AttributeNode => false
    case TextNode => false
    case CDataNode => false
    case ElementNode => newChild.nodeType != AttributeNode && newChild.nodeType != DocumentNode
    case DocumentNode => newChild.nodeType == ElementNode
    case InstructionNode => true
    case OtherNode => true
  }

  /** What the fields of any forest satisfy, node by node. */
  ghost predicate Consistent(nodes: set<XmlNode>)
    reads nodes
  {
    forall n | n in nodes ::
      && n.parentNode != n && n.nextSibling != n
      && (n.firstChild != null ==> n.firstChild in nodes && n.firstChild.parentNode == n)
      && (n.nextSibling != null ==>
            n.nextSibling in nodes && n.nextSibling.parentNode == n.parentNode && n.nextSibling.prevSibling == n)
  }

  lemma FormedIsConsistent(h: Shape)
    requires Formed(h)
    ensures Consistent(h.nodes)
  {
    forall n | n in h.nodes
      ensures n.parentNode != n && n.nextSibling != n
      ensures n.firstChild != null ==> n.firstChild in h.nodes && n.firstChild.parentNode == n
      ensures n.nextSibling != null ==>
                n.nextSibling in h.nodes && n.nextSibling.parentNode == n.parentNode && n.nextSibling.prevSibling == n
    {
      NodeConsistent(h, n);
    }
  }

  lemma NodeConsistent(h: Shape, n: XmlNode)
    requires Formed(h) && n in h.nodes
    ensures n.parentNode != n && n.nextSibling != n
    ensures n.firstChild != null ==> n.firstChild in h.nodes && n.firstChild.parentNode == n
    ensures n.nextSibling != null ==>
              n.nextSibling in h.nodes && n.nextSibling.parentNode == n.parentNode && n.nextSibling.prevSibling == n
  {
    var q := Fields(h.nodes);
    FitsIsFormed(h, q);
    hide Formed, Fits, Shows;
    if n.firstChild != null { ChildLink(h, n); }
    if n.parentNode != null {
      RankUp(h, n);
      PlaceOf(h, q, n);
      ShownAt(h.nodes, q, n);
      var ks := h.Kids(n.parentNode);
      var i := IndexOf(ks, n);
      KidFits(h, q, n.parentNode, i);
      if i + 1 < |ks| {
        KidFits(h, q, n.parentNode, i + 1);
        ShownAt(h.nodes, q, ks[i + 1]);
        DistinctKids(h, q, n.parentNode);
      }
    } else {
      PlaceOf(h, q, n);
      ShownAt(h.nodes, q, n);
    }
  }

  lemma ShownAt(nodes: set<XmlNode>, q: Links, n: XmlNode)
    requires Shows(nodes, q) && n in nodes
    ensures n.parentNode == q.Parent(n) && n.firstChild == q.First(n)
    ensures n.prevSibling == q.Prev(n) && n.nextSibling == q.Next(n)
  {
  }

  // ---- Removing ----

  /** The rewrite in XmlNodeRemoveChild (node.c 886-903). */
  method Unlink(ghost nodes: set<XmlNode>, nodeptr: XmlNode, oldChild: XmlNode)
    requires nodeptr in nodes && oldChild in nodes
    requires oldChild.prevSibling != null ==> oldChild.prevSibling in nodes
    requires oldChild.nextSibling != null ==> oldChild.nextSibling in nodes
    modifies nodes
    ensures forall n | n in nodes ::
              n.firstChild == if n == nodeptr && old(n.firstChild) == oldChild then old(oldChild.nextSibling)
                              else old(n.firstChild)
    ensures forall n | n in nodes :: n.parentNode == if n == oldChild then null else old(n.parentNode)
    ensures forall n | n in nodes ::
              n.prevSibling == if n == oldChild then null
                               else if n == old(oldChild.nextSibling) then old(oldChild.prevSibling)
                               else old(n.prevSibling)
    ensures forall n | n in nodes ::
              n.nextSibling == if n == oldChild then null
                               else if n == old(oldChild.prevSibling) then old(oldChild.nextSibling)
                               else old(n.nextSibling)
    ensures forall n | n in nodes :: n.ownerDocument == old(n.ownerDocument)
  {
    Bypass(nodes, nodeptr, oldChild);
    oldChild.nextSibling := null;
    oldChild.prevSibling := null;
    oldChild.parentNode := null;
  }

  /** The first half: the neighbours of oldChild, and its parent, are linked past it. */
  method Bypass(ghost nodes: set<XmlNode>, nodeptr: XmlNode, oldChild: XmlNode)
    requires nodeptr in nodes && oldChild in nodes
    requires oldChild.prevSibling != null ==> oldChild.prevSibling in nodes
    requires oldChild.nextSibling != null ==> oldChild.nextSibling in nodes
    modifies nodes`firstChild, nodes`prevSibling, nodes`nextSibling
    ensures forall n | n in nodes && n != oldChild ::
              n.firstChild == if n == nodeptr && old(n.firstChild) == oldChild then old(oldChild.nextSibling)
                              else old(n.firstChild)
    ensures oldChild.firstChild == if oldChild == nodeptr && old(oldChild.firstChild) == oldChild
                                   then old(oldChild.nextSibling) else old(oldChild.firstChild)
    ensures forall n | n in nodes && n != oldChild ::
              n.prevSibling == if n == old(oldChild.nextSibling) then old(oldChild.prevSibling) else old(n.prevSibling)
    ensures forall n | n in nodes && n != oldChild ::
              n.nextSibling == if n == old(oldChild.prevSibling) then old(oldChild.nextSibling) else old(n.nextSibling)
  {
    if oldChild.prevSibling != null {
      oldChild.prevSibling.nextSibling := oldChild.nextSibling;
    }
    if nodeptr.firstChild == oldChild {
      nodeptr.firstChild := oldChild.nextSibling;
    }
    if oldChild.nextSibling != null {
      oldChild.nextSibling.prevSibling := oldChild.prevSibling;
    }
  }

  /** How the node to be taken out stands: as the i-th child, linked to itself, or next to a node
      that is torn between two lists. */
  datatype Standing = InList(i: nat) | ToItself | NextTo(torn: XmlNode)

  ghost predicate Stands(h: Shape, q: Links, p: XmlNode, c: XmlNode, how: Standing)
    requires p in h.nodes && c in h.nodes
    reads h.nodes
  {
    match how
    case InList(i) => i < |h.Kids(p)| && c == h.Kids(p)[i] && Around(h, q, p, i)
    case ToItself => SelfLinked(h, q, p, c)
    case NextTo(t) =>
      t in h.nodes && Torn(h.nodes, p, t) && c != t && c.parentNode == p && c.prevSibling == t &&
      (c.nextSibling != null ==> c.nextSibling in h.nodes)
  }

  /** c calls p its parent but is its own parent, or is still linked from another list. */
  ghost predicate Torn(nodes: set<XmlNode>, p: XmlNode, c: XmlNode)
    reads nodes, c
  {
    c.parentNode == p &&
    (c == p || exists x :: x in nodes && ((x.firstChild == c && x != p) || (x.nextSibling == c && x.parentNode != p)))
  }

  lemma TornIsNoForest(nodes: set<XmlNode>, p: XmlNode, c: XmlNode)
    requires Torn(nodes, p, c) && c in nodes
    ensures !Consistent(nodes)
  {
    if c == p {
      assert c.parentNode == c;
    }
  }

  /** The same rewrite, told of each way to stand. */
  method UnlinkKid(ghost h: Shape, ghost q: Links, nodeptr: XmlNode, ghost how: Standing, oldChild: XmlNode)
    requires nodeptr in h.nodes && oldChild in h.nodes && Stands(h, q, nodeptr, oldChild, how)
    modifies h.nodes
    ensures how.InList? ==> how.i < |h.Kids(nodeptr)| && Unlinked(h, q, nodeptr, how.i)
    ensures how.ToItself? ==> Shows(h.nodes, q)
    ensures how.NextTo? ==> Torn(h.nodes, nodeptr, how.torn)
    ensures oldChild.parentNode == null
    ensures forall n | n in h.nodes :: n.ownerDocument == old(n.ownerDocument)
  {
    hide At;
    if how.InList? {
      FirstTwo(h.Kids(nodeptr), how.i);
    }
    ghost var x: XmlNode? := null;
    if how.NextTo? && how.torn != nodeptr {
      x :| x != null && x in h.nodes &&
           ((x.firstChild == how.torn && x != nodeptr) || (x.nextSibling == how.torn && x.parentNode != nodeptr));
    }
    Unlink(h.nodes, nodeptr, oldChild);
    assert x != null ==>
             (x.firstChild == how.torn && x != nodeptr) || (x.nextSibling == how.torn && x.parentNode != nodeptr);
  }

  /** q shows all fields but those by which c stands beside others; in q it is alone. */
  ghost predicate ShowsBut(nodes: set<XmlNode>, q: Links, c: XmlNode)
    reads nodes
  {
    && q.Parent(c) == null && q.Prev(c) == null && q.Next(c) == null
    && forall n | n in nodes ::
         n.firstChild == q.First(n) &&
         (n != c ==> n.parentNode == q.Parent(n) && n.prevSibling == q.Prev(n) && n.nextSibling == q.Next(n))
  }

  /** c calls p its parent, is its own sibling on both sides, and stands in no list. */
  ghost predicate SelfLinked(h: Shape, q: Links, p: XmlNode, c: XmlNode)
    reads h.nodes, c, p
  {
    ShowsBut(h.nodes, q, c) && c.parentNode == p && c.prevSibling == c && c.nextSibling == c && p.firstChild != c
  }

  lemma FirstTwo(ks: seq<XmlNode>, i: nat)
    requires i < |ks|
    ensures At(ks, 0) != null && (i == 0 ==> At(ks, i + 1) == At(ks, 1))
  {
  }

  /** The fields around the i-th child of p, all in play; q shows the fields of all nodes. */
  ghost predicate Around(h: Shape, q: Links, p: XmlNode, i: nat)
    requires p in h.nodes && i < |h.Kids(p)|
    reads h.nodes
  {
    var ks := h.Kids(p);
    var c := ks[i];
    && c in h.nodes && c.prevSibling == At(ks, i - 1) && c.nextSibling == At(ks, i + 1)
    && (c.prevSibling != null ==> c.prevSibling in h.nodes && c.prevSibling != c && c.prevSibling != c.nextSibling)
    && (c.nextSibling != null ==> c.nextSibling in h.nodes && c.nextSibling != c)
    && p.firstChild == At(ks, 0) && (p.firstChild == c <==> i == 0)
    && forall n | n in h.nodes ::
         n.parentNode == q.Parent(n) && n.firstChild == q.First(n) && n.prevSibling == q.Prev(n)
             && n.nextSibling == q.Next(n)
  }

  /** XmlNodeRemoveChild. */
  method RemoveChild(ghost h: Shape, nodeptr: XmlNode?, oldChild: XmlNode?)
    returns (rc: Rc, returnNode: XmlNode?, ghost g: Shape)
    requires Formed(h) && (nodeptr != null ==> nodeptr in h.nodes) && (oldChild != null ==> oldChild in h.nodes)
    modifies h.nodes
    ensures rc == if nodeptr == null || oldChild == null then InvalidParameter
                  else if old(oldChild.parentNode) != nodeptr then NotFoundErr
                  else Ok
    ensures rc != Ok ==> g == h && unchanged(h.nodes) && returnNode == null
    ensures rc == Ok ==> oldChild in h.Kids(nodeptr) && g == Removed(h, nodeptr, oldChild) && Formed(g)
    ensures rc == Ok ==> oldChild.parentNode == null && returnNode == oldChild
    ensures forall n | n in h.nodes :: n.ownerDocument == old(n.ownerDocument)
  {
    hide Formed, Fits, Shows, Removed;
    g, returnNode := h, null;
    if nodeptr == null || oldChild == null {
      rc := InvalidParameter;
      return;
    }
    if oldChild.parentNode != nodeptr {
      rc := NotFoundErr;
      return;
    }
    ghost var q := Fields(h.nodes);
    ghost var how := ChildStands(h, q, nodeptr, oldChild);
    g := RemoveKid(h, q, nodeptr, oldChild, how);
    rc, returnNode := Ok, oldChild;
  }

  /** The statements of XmlNodeRemoveChild after its checks. */
  method RemoveKid(ghost h: Shape, ghost q: Links, nodeptr: XmlNode, oldChild: XmlNode, ghost how: Standing)
    returns (ghost g: Shape)
    requires nodeptr in h.nodes && oldChild in h.nodes && Stands(h, q, nodeptr, oldChild, how)
    requires !how.NextTo? ==> Fits(h, q)
    requires how.InList? ==> IndexOf(h.Kids(nodeptr), oldChild) == how.i
    modifies h.nodes
    ensures how.InList? ==> oldChild in h.Kids(nodeptr) && g == Removed(h, nodeptr, oldChild) && Formed(g)
    ensures how.ToItself? ==> g == h && Formed(g)
    ensures how.NextTo? ==> Torn(h.nodes, nodeptr, how.torn)
    ensures oldChild.parentNode == null
    ensures forall n | n in h.nodes :: n.ownerDocument == old(n.ownerDocument)
  {
    hide Formed, Fits, Shows, Removed, At, SelfLinked, Around, Unlinked, Torn;
    UnlinkKid(h, q, nodeptr, how, oldChild);
    g := h;
    if how.InList? {
      UnlinkedFormed(h, q, nodeptr, how.i);
      g := Removed(h, nodeptr, oldChild);
    } else if how.ToItself? {
      FitsIsFormed(h, q);
    }
  }

  /** A child stands in the list of its parent. */
  lemma ChildStands(h: Shape, q: Links, p: XmlNode, c: XmlNode) returns (how: Standing)
    requires Formed(h) && Shows(h.nodes, q) && p in h.nodes && c in h.nodes && c.parentNode == p
    ensures how.InList? && Fits(h, q) && Stands(h, q, p, c, how) && c in h.Kids(p) && IndexOf(h.Kids(p), c) == how.i
  {
    hide Formed, Fits, Shows, Around;
    FitsIsFormed(h, q);
    ShownAt(h.nodes, q, c);
    PlaceOf(h, q, c);
    how := InList(IndexOf(h.Kids(p), c));
    KidsReady(h, q, p, how.i);
  }

  lemma KidsReady(h: Shape, q: Links, p: XmlNode, i: nat)
    requires Formed(h) && Shows(h.nodes, q) && p in h.nodes && i < |h.Kids(p)|
    ensures Fits(h, q) && Around(h, q, p, i)
  {
    FitsIsFormed(h, q);
    hide Formed, Fits;
    KidFits(h, q, p, i);
    FirstKid(h, q, p);
    DistinctKids(h, q, p);
    if i > 0 { KidFits(h, q, p, i - 1); }
    if i + 1 < |h.Kids(p)| { KidFits(h, q, p, i + 1); }
  }

  // ---- Placing ----

  /** h with c at place i under p; p and everything above it grow past c. */
  ghost function Placing(h: Shape, p: XmlNode, i: nat, c: XmlNode): (g: Shape)
    requires Formed(h) && p in h.nodes && c in h.nodes && i <= |h.Kids(p)|
    reads h.nodes
    ensures g.nodes == h.nodes && g.Kids(p) == Inserted(h.Kids(p), i, c)
    ensures forall n | n in h.nodes && n != p :: g.Kids(n) == h.Kids(n)
  {
    var up := h.Rank(c) + 1;
    Shape(h.nodes, h.kids[p := Inserted(h.Kids(p), i, c)],
          map n | n in h.nodes :: if n == p || Above(h, n, p) then h.Rank(n) + up else h.Rank(n),
          h.bound + up)
  }

  /** Placing below a node that c is not above makes no cycle. */
  lemma PlacingRanked(h: Shape, p: XmlNode, i: nat, c: XmlNode)
    requires Formed(h) && p in h.nodes && c in h.nodes && i <= |h.Kids(p)|
    requires c != p && !Above(h, c, p)
    ensures PlacedAt(h, Placing(h, p, i, c), p, i, c)
  {
    hide Formed, Above, Inserted, Placing;
    var g := Placing(h, p, i, c);
    PlacingKeys(h, p, i, c);
    forall n, b | n in g.nodes && b in g.Kids(n) ensures b in g.nodes && g.Rank(b) < g.Rank(n) {
      PlacingOrder(h, p, i, c, n, b);
    }
    forall n | n in g.nodes ensures g.Rank(n) < g.bound {
      PlacingBound(h, p, i, c, n);
    }
  }

  lemma PlacingKeys(h: Shape, p: XmlNode, i: nat, c: XmlNode)
    requires Formed(h) && p in h.nodes && c in h.nodes && i <= |h.Kids(p)|
    ensures Placing(h, p, i, c).kids.Keys <= h.nodes
  {
    KeysInside(h);
    hide Formed, Above, Inserted;
  }

  lemma PlacingBound(h: Shape, p: XmlNode, i: nat, c: XmlNode, n: XmlNode)
    requires Formed(h) && p in h.nodes && c in h.nodes && i <= |h.Kids(p)| && n in h.nodes
    ensures Placing(h, p, i, c).Rank(n) < Placing(h, p, i, c).bound
  {
    RankBound(h, n);
    hide Formed, Above;
  }

  lemma PlacingOrder(h: Shape, p: XmlNode, i: nat, c: XmlNode, n: XmlNode, b: XmlNode)
    requires Formed(h) && p in h.nodes && c in h.nodes && i <= |h.Kids(p)| && c != p && !Above(h, c, p)
    requires n in h.nodes && b in Placing(h, p, i, c).Kids(n)
    ensures b in h.nodes && Placing(h, p, i, c).Rank(b) < Placing(h, p, i, c).Rank(n)
  {
    hide Formed, Above, Inserted;
    if n == p { InsertedSome(h.Kids(p), i, c, b); }
    if b in h.Kids(n) { KidRank(h, n, b, p); }
  }

  lemma RankBound(h: Shape, n: XmlNode)
    requires Formed(h) && n in h.nodes
    ensures h.Rank(n) < h.bound
  {
  }

  lemma KeysInside(h: Shape)
    requires Formed(h)
    ensures h.kids.Keys <= h.nodes
  {
  }

  lemma InsertedSome(ks: seq<XmlNode>, i: nat, c: XmlNode, b: XmlNode)
    requires i <= |ks| && b in Inserted(ks, i, c)
    ensures b == c || b in ks
  {
  }

  lemma KidRank(h: Shape, n: XmlNode, b: XmlNode, p: XmlNode)
    requires Formed(h) && n in h.nodes && b in h.Kids(n) && p in h.nodes
    ensures b in h.nodes && h.Rank(b) < h.Rank(n)
    ensures b == p || Above(h, b, p) ==> Above(h, n, p)
  {
    hide Formed, Above;
    KidParent(h, n, b);
    if b == p {
      ParentAbove(h, b);
    } else if Above(h, b, p) {
      AboveDown(h, n, b, p);
    }
  }

  /** The rewrite in XmlNodeAppendChild (node.c 964-983); the walk ends at the last of ks. */
  method LinkLast(ghost nodes: set<XmlNode>, ghost ks: seq<XmlNode>, nodeptr: XmlNode, newChild: XmlNode)
    requires nodeptr in nodes && newChild in nodes && (forall c | c in ks :: c in nodes) && newChild !in ks
    requires nodeptr.firstChild == At(ks, 0) && forall i | 0 <= i < |ks| :: ks[i].nextSibling == At(ks, i + 1)
    modifies nodes
    ensures forall n | n in nodes :: n.parentNode == if n == newChild then nodeptr else old(n.parentNode)
    ensures forall n | n in nodes :: n.firstChild == if n == nodeptr && ks == [] then newChild else old(n.firstChild)
    ensures forall n | n in nodes :: n.nextSibling == if n == At(ks, |ks| - 1) then newChild else old(n.nextSibling)
    ensures forall n | n in nodes ::
              n.prevSibling == if n == newChild && ks != [] then At(ks, |ks| - 1) else old(n.prevSibling)
    ensures forall n | n in nodes ::
              n.ownerDocument == if n == newChild then old(nodeptr.ownerDocument) else old(n.ownerDocument)
  {
    newChild.parentNode := nodeptr;
    newChild.ownerDocument := nodeptr.ownerDocument;
    if nodeptr.firstChild == null {
      nodeptr.firstChild := newChild;
    } else {
      var prev: XmlNode := nodeptr.firstChild;
      var next := prev.nextSibling;
      ghost var j := 0;
      while next != null
        invariant 0 <= j < |ks| && prev == ks[j] && next == At(ks, j + 1)
        decreases |ks| - j
      {
        prev := next;
        next := prev.nextSibling;
        j := j + 1;
      }
      assert prev in ks;
      prev.nextSibling := newChild;
      newChild.prevSibling := prev;
    }
  }

  /** The rewrite in XmlNodeInsertBefore (node.c 764-778). */
  method LinkBefore(ghost nodes: set<XmlNode>, nodeptr: XmlNode, newChild: XmlNode, refChild: XmlNode)
    requires nodeptr in nodes && newChild in nodes && refChild in nodes
    requires refChild.prevSibling != null ==>
               refChild.prevSibling in nodes && refChild.prevSibling != newChild && refChild.prevSibling != refChild
    modifies nodes
    ensures forall n | n in nodes :: n.parentNode == if n == newChild then nodeptr else old(n.parentNode)
    ensures forall n | n in nodes ::
              n.nextSibling == if n == newChild then refChild
                               else if n == old(refChild.prevSibling) then newChild
                               else old(n.nextSibling)
    ensures forall n | n in nodes ::
              n.prevSibling == if n == refChild then newChild
                               else if n == newChild && old(refChild.prevSibling) != null then old(refChild.prevSibling)
                               else old(n.prevSibling)
    ensures forall n | n in nodes ::
              n.firstChild == if n == nodeptr && newChild.prevSibling == null then newChild else old(n.firstChild)
    ensures forall n | n in nodes :: n.ownerDocument == old(n.ownerDocument)
  {
    newChild.nextSibling := refChild;
    if refChild.prevSibling != null {
      refChild.prevSibling.nextSibling := newChild;
      newChild.prevSibling := refChild.prevSibling;
    }
    refChild.prevSibling := newChild;
    if newChild.prevSibling == null {
      nodeptr.firstChild := newChild;
    }
    newChild.parentNode := nodeptr;
  }

  // ---- Appending ----

  /** The nodes for which a move is what the DOM asks: another node, alone or already a child here. */
  ghost predicate Movable(nodeptr: XmlNode, newChild: XmlNode)
    reads newChild
  {
    newChild != nodeptr && (newChild.parentNode == null || newChild.parentNode == nodeptr)
  }

  /** The fields after the rewrite in XmlNodeAppendChild; q holds the fields before. */
  ghost predicate LinkedLast(h: Shape, q: Links, p: XmlNode, c: XmlNode)
    reads h.nodes
  {
    var ks := h.Kids(p);
    && (forall n | n in h.nodes :: n.parentNode == if n == c then p else q.Parent(n))
    && (forall n | n in h.nodes :: n.firstChild == if n == p && ks == [] then c else q.First(n))
    && (forall n | n in h.nodes :: n.nextSibling == if n == At(ks, |ks| - 1) then c else q.Next(n))
    && (forall n | n in h.nodes :: n.prevSibling == if n == c && ks != [] then At(ks, |ks| - 1) else q.Prev(n))
  }

  method LinkLastShown(ghost h: Shape, ghost q: Links, nodeptr: XmlNode, newChild: XmlNode)
    requires Fits(h, q) && Shows(h.nodes, q) && nodeptr in h.nodes && newChild in h.nodes
    requires newChild.parentNode != nodeptr
    modifies h.nodes
    ensures LinkedLast(h, q, nodeptr, newChild)
    ensures forall n | n in h.nodes ::
              n.ownerDocument == if n == newChild then old(nodeptr.ownerDocument) else old(n.ownerDocument)
  {
    hide Fits, Shows, At;
    ListReady(h, q, nodeptr);
    ShownAll(h.nodes, q);
    if newChild in h.Kids(nodeptr) { KidOf(h, q, nodeptr, newChild); }
    LinkLast(h.nodes, h.Kids(nodeptr), nodeptr, newChild);
  }

  /** A node that is alone and not above p joins the list of p at its end. */
  lemma LinkedLastFormed(h: Shape, q: Links, g: Shape, p: XmlNode, c: XmlNode)
    requires LinkedLast(h, q, p, c) && CanSplice(h, q, p, |h.Kids(p)|, c) && PlacedAt(h, g, p, |h.Kids(p)|, c)
    ensures Formed(g)
  {
    hide Fits, PlacedAt, Formed;
    var ks := h.Kids(p);
    PlaceOf(h, q, c);
    LoneChild(h, q, p, c);
    assert Spliced(h, q, p, |ks|, c) by {
      assert c != At(ks, |ks| - 1);
      assert At(ks, |ks|) == null;
      assert ks == [] ==> At(ks, |ks| - 1) == null;
    }
    hide Spliced, LinkedLast, CanSplice;
    SplicedFormed(h, q, g, p, |ks|, c);
  }

  /** A node that stood in another list, or under itself, leaves no forest behind. */
  lemma LinkedLastTorn(h: Shape, q: Links, p: XmlNode, c: XmlNode)
    requires LinkedLast(h, q, p, c) && Fits(h, q) && p in h.nodes && c in h.nodes
    requires q.Parent(c) != p && (c == p || q.Parent(c) != null)
    ensures Torn(h.nodes, p, c)
  {
    hide Fits, At;
    if c != p {
      PlaceOf(h, q, c);
      var r: XmlNode := q.Parent(c);
      StandsIn(h, q, r, c);
      var ks := h.Kids(r);
      var j := IndexOf(ks, c);
      if j == 0 {
        assert r.firstChild == c && c.parentNode != r;
      } else {
        var x := ks[j - 1];
        NotLast(h, q, p, x);
        assert x.nextSibling == c && x.parentNode == r && c.parentNode == p;
      }
    }
  }

  /** What a list says of one of its nodes. */
  lemma StandsIn(h: Shape, q: Links, r: XmlNode, c: XmlNode)
    requires Fits(h, q) && r in h.nodes && c in h.Kids(r)
    ensures var j := IndexOf(h.Kids(r), c);
            && (j == 0 ==> q.First(r) == c)
            && (j > 0 ==> var x := h.Kids(r)[j - 1];
                          x in h.nodes && x != c && x != r && q.Next(x) == c && q.Parent(x) == r)
  {
    hide Fits;
    var j := IndexOf(h.Kids(r), c);
    FirstKid(h, q, r);
    if j > 0 {
      KidFits(h, q, r, j - 1);
      DistinctKids(h, q, r);
    }
  }

  lemma NotLast(h: Shape, q: Links, p: XmlNode, x: XmlNode)
    requires Fits(h, q) && p in h.nodes && x in h.nodes && q.Parent(x) != p
    ensures x != At(h.Kids(p), |h.Kids(p)| - 1)
  {
    hide Fits;
    if h.Kids(p) != [] { KidFits(h, q, p, |h.Kids(p)| - 1); }
  }

  lemma ListReady(h: Shape, q: Links, p: XmlNode)
    requires Fits(h, q) && Shows(h.nodes, q) && p in h.nodes
    ensures p.firstChild == At(h.Kids(p), 0)
    ensures forall i | 0 <= i < |h.Kids(p)| :: h.Kids(p)[i].nextSibling == At(h.Kids(p), i + 1)
    ensures forall c | c in h.Kids(p) :: c in h.nodes
  {
    hide Fits, Shows;
    FirstKid(h, q, p);
    ShownAt(h.nodes, q, p);
    forall i | 0 <= i < |h.Kids(p)| ensures h.Kids(p)[i].nextSibling == At(h.Kids(p), i + 1) {
      KidFits(h, q, p, i);
      ShownAt(h.nodes, q, h.Kids(p)[i]);
    }
    forall c | c in h.Kids(p) ensures c in h.nodes {
      KidOf(h, q, p, c);
    }
  }

  lemma ShownAll(nodes: set<XmlNode>, q: Links)
    requires Shows(nodes, q)
    ensures forall n | n in nodes ::
              n.parentNode == q.Parent(n) && n.firstChild == q.First(n) && n.prevSibling == q.Prev(n)
                  && n.nextSibling == q.Next(n)
  {
  }

  /** The statements of XmlNodeAppendChild after the checks, for a node that is no child of nodeptr now. */
  method AppendUnderneath(ghost h: Shape, nodeptr: XmlNode, newChild: XmlNode) returns (ghost g: Shape)
    requires Formed(h) && nodeptr in h.nodes && newChild in h.nodes && newChild.parentNode != nodeptr
    modifies h.nodes
    ensures old(newChild != nodeptr && newChild.parentNode == null && !Above(h, newChild, nodeptr)) ==>
              Formed(g) && PlacedAt(h, g, nodeptr, |h.Kids(nodeptr)|, newChild)
    ensures old(newChild == nodeptr || newChild.parentNode != null) ==> !Consistent(h.nodes)
    ensures forall n | n in h.nodes ::
              n.ownerDocument == if n == newChild then old(nodeptr.ownerDocument) else old(n.ownerDocument)
  {
    hide Formed, Fits, Shows, Above, Placing, PlacedAt, LinkedLast, Consistent;
    ghost var q := Fields(h.nodes);
    FitsIsFormed(h, q);
    ghost var i := |h.Kids(nodeptr)|;
    ghost var alone := newChild != nodeptr && newChild.parentNode == null && !Above(h, newChild, nodeptr);
    g := Placing(h, nodeptr, i, newChild);
    if alone {
      PlacingRanked(h, nodeptr, i, newChild);
    }
    ShownAt(h.nodes, q, newChild);
    LinkLastShown(h, q, nodeptr, newChild);
    if alone {
      LinkedLastFormed(h, q, g, nodeptr, newChild);
    } else if newChild == nodeptr || q.Parent(newChild) != null {
      LinkedLastTorn(h, q, nodeptr, newChild);
      TornIsNoForest(h.nodes, nodeptr, newChild);
    }
  }

  /** A child just taken out is not above its former parent. */
  lemma KidNotAbove(h: Shape, h1: Shape, p: XmlNode, c: XmlNode)
    requires Ranked(h) && p in h.nodes && c in h.Kids(p) && h1 == Removed(h, p, c) && Formed(h1)
    ensures !Above(h1, c, p)
  {
    assert h.Rank(c) < h.Rank(p);
    hide Formed;
    if Above(h1, c, p) {
      AboveIsHigher(h1, c, p);
    }
  }

  lemma FormedIsRanked(h: Shape)
    requires Formed(h)
    ensures Ranked(h)
  {
  }

  /** The list of p with c at its end, wherever under p it stood before. */
  ghost function MovedLast(ks: seq<XmlNode>, c: XmlNode): seq<XmlNode> {
    (if c in ks then Without(ks, c) else ks) + [c]
  }

  /** g differs from h in the children of p alone. */
  ghost predicate Rearranged(h: Shape, g: Shape, p: XmlNode, ks: seq<XmlNode>) {
    g.nodes == h.nodes && g.Kids(p) == ks && forall n | n in h.nodes && n != p :: g.Kids(n) == h.Kids(n)
  }

  ghost predicate InPlay(h: Shape, n: XmlNode?) {
    n != null ==> n in h.nodes
  }

  /** The answer of XmlNodeAppendChild. */
  ghost function AppendRc(h: Shape, nodeptr: XmlNode?, newChild: XmlNode?): Rc
    requires Formed(h) && InPlay(h, nodeptr) && InPlay(h, newChild)
    reads h.nodes
  {
    if nodeptr == null || newChild == null then InvalidParameter
    else if newChild.ownerDocument != null && nodeptr.ownerDocument != newChild.ownerDocument then WrongDocumentErr
    else if IsAncestor(h, newChild, nodeptr) || !AllowChildren(nodeptr, newChild) then HierarchyErr
    else Ok
  }

  /** XmlNodeAppendChild.  The result is a forest again exactly for the movable nodes, and then
      newChild is the last child of nodeptr and every other list is as before. */
  method AppendChild(ghost h: Shape, nodeptr: XmlNode?, newChild: XmlNode?) returns (rc: Rc, ghost g: Shape)
    requires Formed(h) && InPlay(h, nodeptr) && InPlay(h, newChild)
    modifies h.nodes
    ensures rc == old(AppendRc(h, nodeptr, newChild))
    ensures rc != Ok ==> g == h && unchanged(h.nodes)
    ensures rc == Ok && old(Movable(nodeptr, newChild)) ==>
              Formed(g) && Rearranged(h, g, nodeptr, MovedLast(h.Kids(nodeptr), newChild))
    ensures rc == Ok && old(Movable(nodeptr, newChild)) ==> !old(Above(h, newChild, nodeptr))
    ensures rc == Ok && !old(Movable(nodeptr, newChild)) ==> !Consistent(h.nodes)
    ensures rc == Ok ==> forall n | n in h.nodes ::
              n.ownerDocument == if n == newChild then old(nodeptr.ownerDocument) else old(n.ownerDocument)
  {
    hide Formed, Above, IsAncestor, Consistent, MovedLast, AllowChildren;
    g := h;
    if nodeptr == null || newChild == null {
      return InvalidParameter, g;
    }
    if newChild.ownerDocument != null && nodeptr.ownerDocument != newChild.ownerDocument {
      return WrongDocumentErr, g;
    }
    if IsAncestor(h, newChild, nodeptr) {
      return HierarchyErr, g;
    }
    if !AllowChildren(nodeptr, newChild) {
      return HierarchyErr, g;
    }
    g := MoveLast(h, nodeptr, newChild);
    rc := Ok;
  }

  /** XmlNodeAppendChild after its checks. */
  method MoveLast(ghost h: Shape, nodeptr: XmlNode, newChild: XmlNode) returns (ghost g: Shape)
    requires Formed(h) && nodeptr in h.nodes && newChild in h.nodes && !IsAncestor(h, newChild, nodeptr)
    modifies h.nodes
    ensures old(Movable(nodeptr, newChild)) ==>
              Formed(g) && Rearranged(h, g, nodeptr, MovedLast(h.Kids(nodeptr), newChild))
    ensures old(Movable(nodeptr, newChild)) ==> !old(Above(h, newChild, nodeptr))
    ensures !old(Movable(nodeptr, newChild)) ==> !Consistent(h.nodes)
    ensures forall n | n in h.nodes ::
              n.ownerDocument == if n == newChild then old(nodeptr.ownerDocument) else old(n.ownerDocument)
  {
    hide Formed, Above, IsAncestor, Consistent, Removed, Without, Inserted, Ranked, Fits, Shows;
    ghost var h1 := h;
    FormedIsRanked(h);
    ghost var movable := Movable(nodeptr, newChild);
    if movable {
      IsAncestorExact(h, newChild, nodeptr);
    }
    if newChild.parentNode == nodeptr {
      ghost var q := Fields(h.nodes);
      ghost var how := ChildStands(h, q, nodeptr, newChild);
      h1 := RemoveKid(h, q, nodeptr, newChild, how);
      KidNotAbove(h, h1, nodeptr, newChild);
      RemovedKids(h, nodeptr, newChild);
    } else if movable {
      AloneInNoList(h, nodeptr, newChild);
    }
    g := AppendUnderneath(h1, nodeptr, newChild);
    LastPlace(h1.Kids(nodeptr), newChild);
  }

  lemma AloneInNoList(h: Shape, p: XmlNode, c: XmlNode)
    requires Formed(h) && p in h.nodes && c in h.nodes && c.parentNode == null
    ensures c !in h.Kids(p)
  {
    var q := Fields(h.nodes);
    FitsIsFormed(h, q);
    hide Formed, Fits, Shows;
    ShownAt(h.nodes, q, c);
    LoneChild(h, q, p, c);
  }

  lemma LastPlace(ks: seq<XmlNode>, c: XmlNode)
    ensures Inserted(ks, |ks|, c) == ks + [c]
  {
  }

  // ---- Inserting ----

  /** The fields after the rewrite in XmlNodeInsertBefore, for a reference node other than c. */
  ghost predicate LinkedBefore(h: Shape, q: Links, p: XmlNode, c: XmlNode, ref: XmlNode)
    reads h.nodes
  {
    var l := q.Prev(ref);
    && (forall n | n in h.nodes :: n.parentNode == if n == c then p else q.Parent(n))
    && (forall n | n in h.nodes :: n.nextSibling == if n == c then ref else if n == l then c else q.Next(n))
    && (forall n | n in h.nodes ::
          n.prevSibling == if n == ref then c else if n == c && l != null then l else q.Prev(n))
    && (forall n | n in h.nodes ::
          n.firstChild == if n == p && l == null && q.Prev(c) == null then c else q.First(n))
  }

  method LinkBeforeShown(ghost h: Shape, ghost q: Links, nodeptr: XmlNode, newChild: XmlNode, refChild: XmlNode)
    requires Fits(h, q) && Shows(h.nodes, q) && nodeptr in h.nodes && newChild in h.nodes
    requires newChild.parentNode != nodeptr && refChild in h.nodes
    requires if refChild != newChild then refChild in h.Kids(nodeptr) else refChild.parentNode == null
    modifies h.nodes
    ensures newChild != refChild ==> LinkedBefore(h, q, nodeptr, newChild, refChild)
    ensures newChild == refChild ==> SelfLinked(h, q, nodeptr, newChild)
    ensures forall n | n in h.nodes :: n.ownerDocument == old(n.ownerDocument)
  {
    hide Fits, Shows;
    ShownAll(h.nodes, q);
    PlaceOf(h, q, refChild);
    ShownAt(h.nodes, q, newChild);
    if newChild == refChild {
      AloneNotFirst(h, q, nodeptr, newChild);
    } else {
      RefReady(h, q, nodeptr, newChild, refChild);
    }
    LinkBefore(h.nodes, nodeptr, newChild, refChild);
  }

  lemma AloneNotFirst(h: Shape, q: Links, p: XmlNode, c: XmlNode)
    requires Fits(h, q) && p in h.nodes && c in h.nodes && q.Parent(c) == null
    ensures q.First(p) != c
  {
    hide Fits;
    FirstKid(h, q, p);
    LoneChild(h, q, p, c);
  }

  lemma RefReady(h: Shape, q: Links, p: XmlNode, c: XmlNode, ref: XmlNode)
    requires Fits(h, q) && p in h.nodes && ref in h.Kids(p) && q.Parent(c) != p
    ensures ref in h.nodes && c != ref
    ensures q.Prev(ref) != null ==> q.Prev(ref) in h.nodes && q.Prev(ref) != c && q.Prev(ref) != ref
  {
    hide Fits;
    var i := IndexOf(h.Kids(p), ref);
    KidFits(h, q, p, i);
    if i > 0 {
      KidFits(h, q, p, i - 1);
      DistinctKids(h, q, p);
    }
  }

  lemma LinkedBeforeFormed(h: Shape, q: Links, g: Shape, p: XmlNode, c: XmlNode, ref: XmlNode)
    requires ref in h.Kids(p) && LinkedBefore(h, q, p, c, ref)
    requires var i := IndexOf(h.Kids(p), ref); CanSplice(h, q, p, i, c) && PlacedAt(h, g, p, i, c)
    ensures Formed(g)
  {
    hide Fits, PlacedAt, Formed;
    var ks := h.Kids(p);
    var i: int := IndexOf(ks, ref);
    PlaceOf(h, q, c);
    KidFits(h, q, p, i);
    assert Spliced(h, q, p, i, c) by {
      assert At(ks, i) == ref && q.Prev(ref) == At(ks, i - 1);
      assert At(ks, i - 1) == null <==> i == 0;
    }
    hide Spliced, LinkedBefore, CanSplice;
    SplicedFormed(h, q, g, p, i, c);
  }

  lemma LinkedBeforeTorn(h: Shape, q: Links, p: XmlNode, c: XmlNode, ref: XmlNode)
    requires ref in h.Kids(p) && LinkedBefore(h, q, p, c, ref) && Fits(h, q) && p in h.nodes && c in h.nodes
    requires q.Parent(c) != p && (c == p || q.Parent(c) != null)
    ensures Torn(h.nodes, p, c)
  {
    hide Fits, At;
    if c != p {
      PlaceOf(h, q, c);
      var r: XmlNode := q.Parent(c);
      StandsIn(h, q, r, c);
      var ks := h.Kids(r);
      var j := IndexOf(ks, c);
      if j == 0 {
        assert r.firstChild == c && c.parentNode != r;
      } else {
        var x := ks[j - 1];
        NotBefore(h, q, p, ref, x);
        assert x.nextSibling == c && x.parentNode == r && c.parentNode == p;
      }
    }
  }

  lemma RefStands(h: Shape, q: Links, p: XmlNode, c: XmlNode, ref: XmlNode)
    requires Fits(h, q) && p in h.nodes && c in h.nodes && ref in h.Kids(p) && c != ref
    requires LinkedBefore(h, q, p, c, ref) && Torn(h.nodes, p, c)
    ensures ref in h.nodes && Stands(h, q, p, ref, NextTo(c))
  {
    hide Fits, Torn;
    var i := IndexOf(h.Kids(p), ref);
    KidFits(h, q, p, i);
    if i + 1 < |h.Kids(p)| { KidFits(h, q, p, i + 1); }
    if i > 0 { KidFits(h, q, p, i - 1); DistinctKids(h, q, p); }
  }

  lemma StandsIsTorn(h: Shape, q: Links, p: XmlNode, c: XmlNode, how: Standing)
    requires how.NextTo? && p in h.nodes && c in h.nodes && Stands(h, q, p, c, how)
    ensures !Consistent(h.nodes)
  {
    hide Torn, Consistent;
    TornIsNoForest(h.nodes, p, how.torn);
  }

  lemma NotBefore(h: Shape, q: Links, p: XmlNode, ref: XmlNode, x: XmlNode)
    requires Fits(h, q) && p in h.nodes && ref in h.Kids(p) && q.Parent(x) != p
    ensures q.Prev(ref) != x
  {
    hide Fits;
    var i := IndexOf(h.Kids(p), ref);
    KidFits(h, q, p, i);
    if i > 0 { KidFits(h, q, p, i - 1); }
  }

  /** The statements of XmlNodeInsertBefore after the checks, for a node that is no child of nodeptr now. */
  method InsertUnderneath(ghost h: Shape, nodeptr: XmlNode, newChild: XmlNode, refChild: XmlNode)
    returns (ghost g: Shape, ghost q: Links)
    requires Formed(h) && nodeptr in h.nodes && newChild in h.nodes && newChild.parentNode != nodeptr
              && refChild in h.nodes
    requires if refChild != newChild then refChild in h.Kids(nodeptr) else refChild.parentNode == null
    modifies h.nodes
    ensures newChild != refChild &&
            old(newChild != nodeptr && newChild.parentNode == null && !Above(h, newChild, nodeptr)) ==>
              Formed(g) && PlacedAt(h, g, nodeptr, IndexOf(h.Kids(nodeptr), refChild), newChild)
    ensures newChild != refChild && old(newChild == nodeptr || newChild.parentNode != null) ==>
              Stands(h, q, nodeptr, refChild, NextTo(newChild))
    ensures newChild == refChild ==> g == h && Fits(h, q) && SelfLinked(h, q, nodeptr, newChild)
    ensures forall n | n in h.nodes :: n.ownerDocument == old(n.ownerDocument)
  {
    hide Formed, Fits, Shows, Above, Placing, PlacedAt, LinkedBefore, Consistent, SelfLinked;
    q := Fields(h.nodes);
    FitsIsFormed(h, q);
    ShownAt(h.nodes, q, newChild);
    g := h;
    ghost var inList := newChild != refChild;
    ghost var alone := newChild != nodeptr && newChild.parentNode == null && !Above(h, newChild, nodeptr);
    if inList {
      RefReady(h, q, nodeptr, newChild, refChild);
      g := Placing(h, nodeptr, IndexOf(h.Kids(nodeptr), refChild), newChild);
      if alone {
        PlacingRanked(h, nodeptr, IndexOf(h.Kids(nodeptr), refChild), newChild);
      }
    }
    LinkBeforeShown(h, q, nodeptr, newChild, refChild);
    if inList && alone {
      LinkedBeforeFormed(h, q, g, nodeptr, newChild, refChild);
    } else if inList && (newChild == nodeptr || q.Parent(newChild) != null) {
      LinkedBeforeTorn(h, q, nodeptr, newChild, refChild);
      RefStands(h, q, nodeptr, newChild, refChild);
    }
  }

  /** ks without c, where it was in it. */
  ghost function Less(ks: seq<XmlNode>, c: XmlNode): seq<XmlNode> {
    if c in ks then Without(ks, c) else ks
  }

  /** The list with c moved to stand before ref. */
  ghost function MovedBefore(ks: seq<XmlNode>, c: XmlNode, ref: XmlNode): seq<XmlNode>
    requires ref in Less(ks, c)
  {
    Inserted(Less(ks, c), IndexOf(Less(ks, c), ref), c)
  }

  /** The answer of XmlNodeInsertBefore. */
  ghost function InsertRc(h: Shape, nodeptr: XmlNode?, newChild: XmlNode?, refChild: XmlNode): Rc
    requires Formed(h) && InPlay(h, nodeptr) && InPlay(h, newChild) && refChild in h.nodes
    reads h.nodes
  {
    if nodeptr == null || newChild == null then InvalidParameter
    else if !AllowChildren(nodeptr, newChild) || IsAncestor(h, newChild, nodeptr) then HierarchyErr
    else if nodeptr.ownerDocument != newChild.ownerDocument then WrongDocumentErr
    else if refChild.parentNode != nodeptr then NotFoundErr
    else Ok
  }

  /** XmlNodeInsertBefore.  The result is a forest again exactly when newChild is movable and not
      refChild; then newChild stands right before refChild and every other list is as before.
      A node put before itself is linked to itself. */
  method InsertBefore(ghost h: Shape, nodeptr: XmlNode?, newChild: XmlNode?, refChild: XmlNode)
    returns (rc: Rc, ghost g: Shape, ghost q: Links)
    requires Formed(h) && InPlay(h, nodeptr) && InPlay(h, newChild) && refChild in h.nodes
    modifies h.nodes
    ensures rc == old(InsertRc(h, nodeptr, newChild, refChild))
    ensures rc != Ok ==> g == h && unchanged(h.nodes)
    ensures rc == Ok && old(Movable(nodeptr, newChild)) && newChild != refChild ==>
              refChild in Less(h.Kids(nodeptr), newChild) &&
              Formed(g) && Rearranged(h, g, nodeptr, MovedBefore(h.Kids(nodeptr), newChild, refChild))
    ensures rc == Ok && !(old(Movable(nodeptr, newChild)) && newChild != refChild) ==> !Consistent(h.nodes)
    ensures rc == Ok && !old(Movable(nodeptr, newChild)) && newChild != refChild ==>
              Stands(h, q, nodeptr, refChild, NextTo(newChild))
    ensures rc == Ok && newChild == refChild ==>
              newChild in h.Kids(nodeptr) && g == Removed(h, nodeptr, newChild) && Fits(g, q)
                  && SelfLinked(g, q, nodeptr, newChild)
    ensures forall n | n in h.nodes :: n.ownerDocument == old(n.ownerDocument)
  {
    hide Formed, Above, IsAncestor, Consistent, MovedBefore, Less, AllowChildren, SelfLinked, Fits, Removed;
    g, q := h, Fields(h.nodes);
    if nodeptr == null || newChild == null {
      return InvalidParameter, g, q;
    }
    if !AllowChildren(nodeptr, newChild) {
      return HierarchyErr, g, q;
    }
    if IsAncestor(h, newChild, nodeptr) {
      return HierarchyErr, g, q;
    }
    if nodeptr.ownerDocument != newChild.ownerDocument {
      return WrongDocumentErr, g, q;
    }
    if refChild.parentNode != nodeptr {
      return NotFoundErr, g, q;
    }
    g, q := MoveBefore(h, nodeptr, newChild, refChild);
    rc := Ok;
  }

  /** XmlNodeInsertBefore after its checks. */
  method MoveBefore(ghost h: Shape, nodeptr: XmlNode, newChild: XmlNode, refChild: XmlNode)
    returns (ghost g: Shape, ghost q: Links)
    requires Formed(h) && nodeptr in h.nodes && newChild in h.nodes && refChild in h.nodes
    requires !IsAncestor(h, newChild, nodeptr) && refChild.parentNode == nodeptr
    modifies h.nodes
    ensures old(Movable(nodeptr, newChild)) && newChild != refChild ==>
              refChild in Less(h.Kids(nodeptr), newChild) &&
              Formed(g) && Rearranged(h, g, nodeptr, MovedBefore(h.Kids(nodeptr), newChild, refChild))
    ensures !(old(Movable(nodeptr, newChild)) && newChild != refChild) ==> !Consistent(h.nodes)
    ensures !old(Movable(nodeptr, newChild)) && newChild != refChild ==>
              Stands(h, q, nodeptr, refChild, NextTo(newChild))
    ensures newChild == refChild ==>
              newChild in h.Kids(nodeptr) && g == Removed(h, nodeptr, newChild) && Fits(g, q)
                  && SelfLinked(g, q, nodeptr, newChild)
    ensures forall n | n in h.nodes :: n.ownerDocument == old(n.ownerDocument)
  {
    hide Formed, Above, IsAncestor, Consistent, Removed, Without, Inserted, Ranked, Fits, Shows, SelfLinked;
    ghost var h1 := h;
    FormedIsRanked(h);
    ghost var movable := Movable(nodeptr, newChild);
    if movable {
      IsAncestorExact(h, newChild, nodeptr);
    }
    q := Fields(h.nodes);
    FitsIsFormed(h, q);
    ShownAt(h.nodes, q, refChild);
    PlaceOf(h, q, refChild);
    if newChild.parentNode == nodeptr {
      ghost var how := ChildStands(h, q, nodeptr, newChild);
      h1 := RemoveKid(h, q, nodeptr, newChild, how);
      KidNotAbove(h, h1, nodeptr, newChild);
      RemovedKids(h, nodeptr, newChild);
      if newChild != refChild {
        WithoutOther(h.Kids(nodeptr), newChild, refChild);
      }
    } else if movable {
      AloneInNoList(h, nodeptr, newChild);
    } else {
      NotInList(h, q, nodeptr, newChild);
    }
    g, q := InsertUnderneath(h1, nodeptr, newChild, refChild);
    if newChild == refChild {
      SelfIsTorn(h1, q, nodeptr, newChild);
    } else if !movable {
      StandsIsTorn(h, q, nodeptr, refChild, NextTo(newChild));
    }
  }

  lemma WithoutOther(ks: seq<XmlNode>, c: XmlNode, b: XmlNode)
    requires c in ks && b in ks && b != c
    ensures b in Without(ks, c)
  {
    var i, j := IndexOf(ks, c), IndexOf(ks, b);
    assert Without(ks, c)[if j < i then j else j - 1] == b;
  }

  lemma NotInList(h: Shape, q: Links, p: XmlNode, c: XmlNode)
    requires Fits(h, q) && Shows(h.nodes, q) && p in h.nodes && c in h.nodes && c.parentNode != p
    ensures c !in h.Kids(p)
  {
    hide Fits, Shows;
    ShownAt(h.nodes, q, c);
    if c in h.Kids(p) { KidOf(h, q, p, c); }
  }

  lemma SelfIsTorn(h: Shape, q: Links, p: XmlNode, c: XmlNode)
    requires SelfLinked(h, q, p, c) && c in h.nodes
    ensures !Consistent(h.nodes)
  {
    assert c.nextSibling == c;
  }

  // ---- Replacing ----

  /** The list with c in the place of b. */
  ghost function Replaced(ks: seq<XmlNode>, c: XmlNode, b: XmlNode): seq<XmlNode>
    requires b in Less(ks, c)
  {
    Less(ks, c)[IndexOf(Less(ks, c), b) := c]
  }

  /** Putting c before b and taking b out is putting c in the place of b. */
  lemma MoveThenRemove(ks: seq<XmlNode>, c: XmlNode, b: XmlNode)
    requires b in Less(ks, c) && Distinct(ks) && c != b
    ensures b in MovedBefore(ks, c, b) && Without(MovedBefore(ks, c, b), b) == Replaced(ks, c, b)
  {
    hide Less, Distinct, Inserted, Without;
    var ws := Less(ks, c);
    LessDistinct(ks, c);
    BesideThenOut(ws, IndexOf(ws, b), c, b);
  }

  lemma BesideThenOut(ws: seq<XmlNode>, i: nat, c: XmlNode, b: XmlNode)
    requires Distinct(ws) && c !in ws && i < |ws| && ws[i] == b
    ensures b in Inserted(ws, i, c) && Without(Inserted(ws, i, c), b) == ws[i := c]
  {
    InsertedAt(ws, i, c);
    var ms := Inserted(ws, i, c);
    assert ms[i + 1] == b;
    IndexUnique(ms, i + 1);
  }

  lemma LessDistinct(ks: seq<XmlNode>, c: XmlNode)
    requires Distinct(ks)
    ensures Distinct(Less(ks, c)) && c !in Less(ks, c)
  {
    if c in ks {
      WithoutAt(ks, IndexOf(ks, c));
      IndexUnique(ks, IndexOf(ks, c));
    }
  }

  /** The answer of XmlNodeReplaceChild. */
  ghost function ReplaceRc(h: Shape, nodeptr: XmlNode?, newChild: XmlNode?, oldChild: XmlNode?): Rc
    requires Formed(h) && InPlay(h, nodeptr) && InPlay(h, newChild) && InPlay(h, oldChild)
    reads h.nodes
  {
    if nodeptr == null || newChild == null || oldChild == null then InvalidParameter
    else if IsAncestor(h, newChild, nodeptr) || !AllowChildren(nodeptr, newChild) then HierarchyErr
    else if nodeptr.ownerDocument != newChild.ownerDocument then WrongDocumentErr
    else if oldChild.parentNode != nodeptr then NotFoundErr
    else Ok
  }

  /** XmlNodeReplaceChild.  For a movable newChild the result is a forest again: newChild stands in
      the place of oldChild, except that a node put in its own place is gone. */
  method ReplaceChild(ghost h: Shape, nodeptr: XmlNode?, newChild: XmlNode?, oldChild: XmlNode?)
    returns (rc: Rc, returnNode: XmlNode?, ghost g: Shape)
    requires Formed(h) && InPlay(h, nodeptr) && InPlay(h, newChild) && InPlay(h, oldChild)
    modifies h.nodes
    ensures rc == old(ReplaceRc(h, nodeptr, newChild, oldChild))
    ensures rc != Ok ==> g == h && unchanged(h.nodes) && returnNode == null
    ensures rc == Ok && old(Movable(nodeptr, newChild)) ==>
              Formed(g) && returnNode == oldChild && oldChild.parentNode == null
    ensures rc == Ok && old(Movable(nodeptr, newChild)) && newChild != oldChild ==>
              oldChild in Less(h.Kids(nodeptr), newChild) &&
              Rearranged(h, g, nodeptr, Replaced(h.Kids(nodeptr), newChild, oldChild))
    ensures rc == Ok && newChild == oldChild ==> newChild in h.Kids(nodeptr) && g == Removed(h, nodeptr, newChild)
    ensures rc == Ok && !old(Movable(nodeptr, newChild)) ==> !Consistent(h.nodes)
    ensures forall n | n in h.nodes :: n.ownerDocument == old(n.ownerDocument)
  {
    hide Formed, Above, IsAncestor, Consistent, MovedBefore, Less, AllowChildren, SelfLinked, Fits, Removed,
         Replaced, Shows;
    g, returnNode := h, null;
    if nodeptr == null || newChild == null || oldChild == null {
      return InvalidParameter, null, g;
    }
    if IsAncestor(h, newChild, nodeptr) {
      return HierarchyErr, null, g;
    }
    if !AllowChildren(nodeptr, newChild) {
      return HierarchyErr, null, g;
    }
    if nodeptr.ownerDocument != newChild.ownerDocument {
      return WrongDocumentErr, null, g;
    }
    if oldChild.parentNode != nodeptr {
      return NotFoundErr, null, g;
    }
    g := PutInPlace(h, nodeptr, newChild, oldChild);
    rc, returnNode := Ok, oldChild;
  }

  /** XmlNodeReplaceChild after its checks: insert before oldChild, then remove oldChild. */
  method PutInPlace(ghost h: Shape, nodeptr: XmlNode, newChild: XmlNode, oldChild: XmlNode) returns (ghost g: Shape)
    requires Formed(h) && nodeptr in h.nodes && newChild in h.nodes && oldChild in h.nodes
    requires InsertRc(h, nodeptr, newChild, oldChild) == Ok
    modifies h.nodes
    ensures oldChild.parentNode == null
    ensures old(Movable(nodeptr, newChild)) ==> Formed(g)
    ensures old(Movable(nodeptr, newChild)) && newChild != oldChild ==>
              oldChild in Less(h.Kids(nodeptr), newChild) &&
              Rearranged(h, g, nodeptr, Replaced(h.Kids(nodeptr), newChild, oldChild))
    ensures newChild == oldChild ==> newChild in h.Kids(nodeptr) && g == Removed(h, nodeptr, newChild)
    ensures !old(Movable(nodeptr, newChild)) ==> !Consistent(h.nodes)
    ensures forall n | n in h.nodes :: n.ownerDocument == old(n.ownerDocument)
  {
    hide Formed, Above, IsAncestor, Consistent, MovedBefore, Less, AllowChildren, SelfLinked, Fits, Removed,
         Replaced, Shows, Torn, Around, Distinct;
    ghost var movable := Movable(nodeptr, newChild);
    KidsDistinct(h, nodeptr);
    NodeConsistent(h, nodeptr);
    var rc;
    ghost var h1, q, how;
    rc, h1, q := InsertBefore(h, nodeptr, newChild, oldChild);
    if newChild == oldChild {
      how := ToItself;
      RemovedKids(h, nodeptr, newChild);
    } else if movable {
      MoveThenRemove(h.Kids(nodeptr), newChild, oldChild);
      q := Fields(h1.nodes);
      ListedParent(h1, q, nodeptr, oldChild);
      how := ChildStands(h1, q, nodeptr, oldChild);
    } else {
      h1, how := h, NextTo(newChild);
    }
    g := RemoveKid(h1, q, nodeptr, oldChild, how);
    if newChild == oldChild {
    } else if movable {
      RemovedKids(h1, nodeptr, oldChild);
    } else {
      TornIsNoForest(h.nodes, nodeptr, newChild);
    }
  }

  lemma ListedParent(h: Shape, q: Links, p: XmlNode, c: XmlNode)
    requires Formed(h) && Shows(h.nodes, q) && p in h.nodes && c in h.Kids(p)
    ensures c in h.nodes && c.parentNode == p
  {
    FitsIsFormed(h, q);
    hide Formed, Fits, Shows;
    KidOf(h, q, p, c);
    ShownAt(h.nodes, q, c);
  }

  // ---- Moves that leave no forest ----

  ghost function Loose(nodes: set<XmlNode>): Shape {
    Shape(nodes, map[], map[], 1)
  }

  lemma LooseFormed(nodes: set<XmlNode>)
    requires forall n | n in nodes ::
               n.parentNode == null && n.firstChild == null && n.prevSibling == null && n.nextSibling == null
    ensures Formed(Loose(nodes))
    ensures forall a, b | a in nodes && b in nodes :: !IsAncestor(Loose(nodes), a, b)
  {
    forall a, b | a in nodes && b in nodes ensures !IsAncestor(Loose(nodes), a, b) {
      IsAncestorStep(Loose(nodes), a, b);
    }
  }

  /** An element appended to another one while it is still a child of the first: both calls answer
      Ok, and the fields describe no forest. */
  method AppendedTwice() returns (first: Rc, second: Rc, ghost nodes: set<XmlNode>)
    ensures first == Ok && second == Ok && !Consistent(nodes)
  {
    var a := new XmlNode(ElementNode, "a", None, null);
    var b := new XmlNode(ElementNode, "b", None, null);
    var c := new XmlNode(ElementNode, "c", None, null);
    nodes := {a, b, c};
    LooseFormed(nodes);
    assert !IsAncestor(Loose(nodes), c, a);
    ghost var h;
    first, h := AppendChild(Loose(nodes), a, c);
    assert first == Ok && h.Kids(a) == [c] && h.Kids(b) == [] && h.Kids(c) == [];
    OnlyChild(h, a, b, c);
    ghost var g;
    second, g := AppendChild(h, b, c);
  }

  lemma OnlyChild(h: Shape, a: XmlNode, b: XmlNode, c: XmlNode)
    requires Formed(h) && h.nodes == {a, b, c} && a != b && a != c && b != c
    requires h.Kids(a) == [c] && h.Kids(b) == [] && h.Kids(c) == []
    ensures c.parentNode == a && c.firstChild == null && c.nextSibling == null && b.parentNode == null
    ensures !IsAncestor(h, c, b)
  {
    assert ListOk(a, h.Kids(a)) && ListOk(b, h.Kids(b)) && ListOk(c, h.Kids(c));
    assert h.Kids(a)[0] == c;
    assert Placed(h, b);
  }

  /** An element appended to itself. */
  method AppendedToItself() returns (rc: Rc, ghost nodes: set<XmlNode>)
    ensures rc == Ok && !Consistent(nodes)
  {
    var a := new XmlNode(ElementNode, "a", None, null);
    nodes := {a};
    LooseFormed(nodes);
    assert !IsAncestor(Loose(nodes), a, a);
    ghost var g;
    rc, g := AppendChild(Loose(nodes), a, a);
  }

  /** An only child put before itself. */
  method PutBeforeItself() returns (first: Rc, second: Rc, ghost nodes: set<XmlNode>)
    ensures first == Ok && second == Ok && !Consistent(nodes)
  {
    var a := new XmlNode(ElementNode, "a", None, null);
    var c := new XmlNode(ElementNode, "c", None, null);
    nodes := {a, c};
    LooseFormed(nodes);
    assert !IsAncestor(Loose(nodes), c, a);
    ghost var h;
    first, h := AppendChild(Loose(nodes), a, c);
    assert first == Ok && h.Kids(a) == [c] && h.Kids(c) == [];
    ChildOfOne(h, a, c);
    ghost var g, q;
    second, g, q := InsertBefore(h, a, c, c);
  }

  lemma ChildOfOne(h: Shape, a: XmlNode, c: XmlNode)
    requires Formed(h) && h.nodes == {a, c} && a != c && h.Kids(a) == [c] && h.Kids(c) == []
    ensures c.parentNode == a && !IsAncestor(h, c, a)
  {
    assert ListOk(a, h.Kids(a)) && ListOk(c, h.Kids(c));
    assert h.Kids(a)[0] == c;
    RankUp(h, c);
    assert a.parentNode != c by { assert Placed(h, a); }
  }
}
