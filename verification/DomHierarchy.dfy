/** What every edit keeps besides the forest: which kinds of nodes stand under which, and one owner
    document per tree (DOM Level 2 Core, section 1.1.1); and the answers of the edits, told by that table. */
module DomHierarchy {
  import opened Dom
  import opened DomLinks
  import opened DomEdit

  /** What each kind takes as a child.  Section 1.1.1 gives instructions and comments no children;
      the code refuses them none (node.c 672-676). */
  function Takes(parent: NodeType): set<NodeType> {
    match parent
    case DocumentNode => {ElementNode}
    case ElementNode => {ElementNode, TextNode, CDataNode, InstructionNode, OtherNode}
    case AttributeNode => {}
    case TextNode => {}
    case CDataNode => {}
    case InstructionNode =>
      {ElementNode, AttributeNode, TextNode, CDataNode, InstructionNode, DocumentNode, OtherNode}
    case OtherNode =>
      {ElementNode, AttributeNode, TextNode, CDataNode, InstructionNode, DocumentNode, OtherNode}
  }

  lemma Taken(p: XmlNode, c: XmlNode)
    ensures AllowChildren(p, c) <==> c.nodeType in Takes(p.nodeType)
  {
    match c.nodeType
    case ElementNode =>
    case AttributeNode =>
    case TextNode =>
    case CDataNode =>
    case InstructionNode =>
    case DocumentNode =>
    case OtherNode =>
  }

  // ---- The answers ----

  /** A node that is alone or a child of p already is refused exactly for its document, for being
      above p, and for its kind, in this order. */
  lemma AppendAnswers(h: Shape, p: XmlNode, c: XmlNode)
    requires Formed(h) && p in h.nodes && c in h.nodes && (c.parentNode == null || c.parentNode == p)
    ensures AppendRc(h, p, c) == WrongDocumentErr <==> c.ownerDocument != null && c.ownerDocument != p.ownerDocument
    ensures AppendRc(h, p, c) == Ok <==>
              && (c.ownerDocument == null || c.ownerDocument == p.ownerDocument)
              && !Above(h, c, p) && c.nodeType in Takes(p.nodeType)
    ensures AppendRc(h, p, c) in {Ok, WrongDocumentErr, HierarchyErr}
  {
    hide AllowChildren, Formed, IsAncestor, Above;
    IsAncestorExact(h, c, p);
    Taken(p, c);
  }

  /** Inserting refuses for kind and place first, then for the document, then for the reference node. */
  lemma InsertAnswers(h: Shape, p: XmlNode, c: XmlNode, ref: XmlNode)
    requires Formed(h) && p in h.nodes && c in h.nodes && ref in h.nodes
    requires c.parentNode == null || c.parentNode == p
    ensures InsertRc(h, p, c, ref) == HierarchyErr <==>
              Above(h, c, p) || c.nodeType !in Takes(p.nodeType)
    ensures InsertRc(h, p, c, ref) == Ok <==>
              && !Above(h, c, p) && c.nodeType in Takes(p.nodeType)
              && c.ownerDocument == p.ownerDocument && ref in h.Kids(p)
    ensures InsertRc(h, p, c, ref) == NotFoundErr ==> ref !in h.Kids(p) && c.ownerDocument == p.ownerDocument
    ensures InsertRc(h, p, c, ref) in {Ok, HierarchyErr, WrongDocumentErr, NotFoundErr}
  {
    hide AllowChildren, Formed, IsAncestor, Above;
    IsAncestorExact(h, c, p);
    Taken(p, c);
    ParentLists(h, p, ref);
  }

  lemma ParentLists(h: Shape, p: XmlNode, c: XmlNode)
    requires Formed(h) && p in h.nodes && c in h.nodes
    ensures c in h.Kids(p) <==> c.parentNode == p
  {
    var q := Fields(h.nodes);
    FitsIsFormed(h, q);
    hide Formed, Fits, Shows;
    ShownAt(h.nodes, q, c);
    PlaceOf(h, q, c);
    if c in h.Kids(p) { KidOf(h, q, p, c); }
  }

  /** Replacing answers as inserting does, and what may be inserted may be appended. */
  lemma ReplaceAnswers(h: Shape, p: XmlNode, c: XmlNode, ref: XmlNode)
    requires Formed(h) && p in h.nodes && c in h.nodes && ref in h.nodes
    ensures ReplaceRc(h, p, c, ref) == InsertRc(h, p, c, ref)
    ensures InsertRc(h, p, c, ref) == Ok ==> AppendRc(h, p, c) == Ok
  {
    hide AllowChildren, Formed, IsAncestor;
  }

  // ---- Kinds ----

  /** Every child is of a kind its parent takes. */
  ghost predicate Kinds(h: Shape) {
    forall n, c | n in h.nodes && c in h.Kids(n) :: c.nodeType in Takes(n.nodeType)
  }

  lemma KindKept(h: Shape, g: Shape, p: XmlNode, c: XmlNode, ks: seq<XmlNode>, n: XmlNode, k: XmlNode)
    requires Kinds(h) && p in h.nodes && Rearranged(h, g, p, ks) && AllowChildren(p, c)
    requires forall k | k in ks :: k == c || k in h.Kids(p)
    requires n in h.nodes && k in g.Kids(n)
    ensures k.nodeType in Takes(n.nodeType)
  {
    hide Kinds, AllowChildren, Takes;
    Taken(p, c);
    if k in h.Kids(n) { KindOf(h, n, k); }
  }

  lemma KindsKept(h: Shape, g: Shape, p: XmlNode, c: XmlNode, ks: seq<XmlNode>)
    requires Kinds(h) && p in h.nodes && Rearranged(h, g, p, ks) && AllowChildren(p, c)
    requires forall k | k in ks :: k == c || k in h.Kids(p)
    ensures Kinds(g)
  {
    forall n, k | n in g.nodes && k in g.Kids(n) ensures k.nodeType in Takes(n.nodeType) {
      KindKept(h, g, p, c, ks, n, k);
    }
  }

  lemma KindOf(h: Shape, n: XmlNode, c: XmlNode)
    requires Kinds(h) && n in h.nodes && c in h.Kids(n)
    ensures c.nodeType in Takes(n.nodeType)
  {
  }

  lemma LessSome(ks: seq<XmlNode>, c: XmlNode, k: XmlNode)
    requires k in Less(ks, c)
    ensures k in ks
  {
  }

  lemma AppendKeepsKinds(h: Shape, g: Shape, p: XmlNode, c: XmlNode)
    requires Formed(h) && Kinds(h) && p in h.nodes && c in h.nodes && AppendRc(h, p, c) == Ok
    requires Rearranged(h, g, p, MovedLast(h.Kids(p), c))
    ensures Kinds(g)
  {
    hide Formed, IsAncestor, Kinds, AllowChildren;
    var ks := h.Kids(p);
    forall k | k in MovedLast(ks, c) ensures k == c || k in ks {
      if k != c { LessSome(ks, c, k); }
    }
    KindsKept(h, g, p, c, MovedLast(ks, c));
  }

  lemma InsertKeepsKinds(h: Shape, g: Shape, p: XmlNode, c: XmlNode, ref: XmlNode)
    requires Formed(h) && Kinds(h) && p in h.nodes && c in h.nodes && ref in h.nodes && InsertRc(h, p, c, ref) == Ok
    requires ref in Less(h.Kids(p), c) && Rearranged(h, g, p, MovedBefore(h.Kids(p), c, ref))
    ensures Kinds(g)
  {
    hide Formed, IsAncestor, Kinds, AllowChildren, Less;
    var ks := h.Kids(p);
    forall k | k in MovedBefore(ks, c, ref) ensures k == c || k in ks {
      if k != c { LessSome(ks, c, k); }
    }
    KindsKept(h, g, p, c, MovedBefore(ks, c, ref));
  }

  lemma ReplaceKeepsKinds(h: Shape, g: Shape, p: XmlNode, c: XmlNode, b: XmlNode)
    requires Formed(h) && Kinds(h) && p in h.nodes && c in h.nodes && b in h.nodes && ReplaceRc(h, p, c, b) == Ok
    requires b in Less(h.Kids(p), c) && Rearranged(h, g, p, Replaced(h.Kids(p), c, b))
    ensures Kinds(g)
  {
    hide Formed, IsAncestor, Kinds, AllowChildren, Less;
    var ks := h.Kids(p);
    forall k | k in Replaced(ks, c, b) ensures k == c || k in ks {
      if k != c { LessSome(ks, c, k); }
    }
    KindsKept(h, g, p, c, Replaced(ks, c, b));
  }

  lemma RemoveKeepsKinds(h: Shape, p: XmlNode, c: XmlNode)
    requires Kinds(h) && p in h.nodes && c in h.Kids(p)
    ensures Kinds(Removed(h, p, c))
  {
    hide Takes;
    var g := Removed(h, p, c);
    RemovedKids(h, p, c);
    forall n, k | n in g.nodes && k in g.Kids(n) ensures k.nodeType in Takes(n.nodeType) {
      if n == p { LessSome(h.Kids(p), c, k); }
      KindOf(h, n, k);
    }
  }

  // ---- Owners ----

  /** The owner document of each node. */
  type Owners = map<XmlNode, XmlNode?>

  ghost predicate SameOwner(m: Owners, n: XmlNode, c: XmlNode) {
    n in m && c in m && m[c] == m[n]
  }

  /** Every child has its parent's owner document. */
  ghost predicate OneOwner(h: Shape, m: Owners) {
    forall n, c | n in h.nodes && c in h.Kids(n) :: SameOwner(m, n, c)
  }

  lemma OwnerOf(h: Shape, m: Owners, n: XmlNode, c: XmlNode)
    requires OneOwner(h, m) && n in h.nodes && c in h.Kids(n)
    ensures SameOwner(m, n, c)
  {
  }

  lemma OwnerKept(h: Shape, g: Shape, m: Owners, p: XmlNode, c: XmlNode, ks: seq<XmlNode>, n: XmlNode, k: XmlNode)
    requires OneOwner(h, m) && p in h.nodes && Rearranged(h, g, p, ks) && p in m && c in m && m[c] == m[p]
    requires forall k | k in ks :: k == c || k in h.Kids(p)
    requires n in h.nodes && k in g.Kids(n)
    ensures SameOwner(m, n, k)
  {
    hide OneOwner;
    if k in h.Kids(n) { OwnerOf(h, m, n, k); }
  }

  /** A list of p's own children and one newcomer keeps the owners exactly when the newcomer has the
      same owner as p. */
  lemma OwnersKept(h: Shape, g: Shape, m: Owners, p: XmlNode, c: XmlNode, ks: seq<XmlNode>)
    requires OneOwner(h, m) && p in h.nodes && Rearranged(h, g, p, ks) && p in m && c in m && c in ks
    requires forall k | k in ks :: k == c || k in h.Kids(p)
    ensures OneOwner(g, m) <==> m[c] == m[p]
  {
    if m[c] == m[p] {
      forall n, k | n in g.nodes && k in g.Kids(n) ensures SameOwner(m, n, k) {
        OwnerKept(h, g, m, p, c, ks, n, k);
      }
    } else if OneOwner(g, m) {
      OwnerOf(g, m, p, c);
    }
  }

  lemma InsertOwners(h: Shape, g: Shape, m: Owners, p: XmlNode, c: XmlNode, ref: XmlNode)
    requires OneOwner(h, m) && p in h.nodes && p in m && c in m
    requires ref in Less(h.Kids(p), c) && Rearranged(h, g, p, MovedBefore(h.Kids(p), c, ref))
    ensures OneOwner(g, m) <==> m[c] == m[p]
  {
    hide Less, OneOwner;
    var ks := h.Kids(p);
    var i := IndexOf(Less(ks, c), ref);
    assert MovedBefore(ks, c, ref)[i] == c;
    forall k | k in MovedBefore(ks, c, ref) ensures k == c || k in ks {
      if k != c { LessSome(ks, c, k); }
    }
    OwnersKept(h, g, m, p, c, MovedBefore(ks, c, ref));
  }

  lemma ReplaceOwners(h: Shape, g: Shape, m: Owners, p: XmlNode, c: XmlNode, b: XmlNode)
    requires OneOwner(h, m) && p in h.nodes && p in m && c in m
    requires b in Less(h.Kids(p), c) && Rearranged(h, g, p, Replaced(h.Kids(p), c, b))
    ensures OneOwner(g, m) <==> m[c] == m[p]
  {
    hide Less, OneOwner;
    var ks := h.Kids(p);
    assert Replaced(ks, c, b)[IndexOf(Less(ks, c), b)] == c;
    forall k | k in Replaced(ks, c, b) ensures k == c || k in ks {
      if k != c { LessSome(ks, c, k); }
    }
    OwnersKept(h, g, m, p, c, Replaced(ks, c, b));
  }

  lemma HandedOver(h: Shape, g: Shape, m: Owners, p: XmlNode, c: XmlNode, n: XmlNode, k: XmlNode)
    requires OneOwner(h, m) && p in m && c in m && (m[c] == m[p] || h.Kids(c) == []) && c != p
    requires (forall n | n in h.nodes && n != p :: c !in h.Kids(n)) && p in h.nodes
    requires Rearranged(h, g, p, MovedLast(h.Kids(p), c)) && n in h.nodes && k in g.Kids(n)
    ensures SameOwner(m[c := m[p]], n, k)
  {
    hide OneOwner;
    if n == p && k != c { LessSome(h.Kids(p), c, k); }
    if k in h.Kids(n) { OwnerOf(h, m, n, k); }
  }

  /** Appending hands the new child over to p's document, but not what stands under it. */
  lemma AppendOwners(h: Shape, g: Shape, m: Owners, p: XmlNode, c: XmlNode)
    requires OneOwner(h, m) && p in h.nodes && c in h.nodes && p in m && c in m && c != p
    requires (forall n | n in h.nodes && n != p :: c !in h.Kids(n)) && Rearranged(h, g, p, MovedLast(h.Kids(p), c))
    ensures OneOwner(g, m[c := m[p]]) <==> m[c] == m[p] || h.Kids(c) == []
  {
    hide MovedLast;
    var w := m[c := m[p]];
    if m[c] == m[p] || h.Kids(c) == [] {
      forall n, k | n in g.nodes && k in g.Kids(n) ensures SameOwner(w, n, k) {
        HandedOver(h, g, m, p, c, n, k);
      }
    } else {
      var k := h.Kids(c)[0];
      assert k != c && g.Kids(c)[0] == k;
      OwnerOf(h, m, c, k);
      if OneOwner(g, w) { OwnerOf(g, w, c, k); }
    }
  }
}
