/** The pointer fields of a set of nodes as maps, and the rewrites of libxmlet/src/node.c on
    them: taking a child out, putting one before another, putting one last. */
module DomLinks {
  import opened Dom

  type Link = map<XmlNode, XmlNode?>

  datatype Links = Links(parent: Link, first: Link, prev: Link, next: Link) {
    ghost function Parent(n: XmlNode): XmlNode? {
      if n in parent then parent[n] else null
    }

    ghost function First(n: XmlNode): XmlNode? {
      if n in first then first[n] else null
    }

    ghost function Prev(n: XmlNode): XmlNode? {
      if n in prev then prev[n] else null
    }

    ghost function Next(n: XmlNode): XmlNode? {
      if n in next then next[n] else null
    }
  }

  /** The maps show the fields of the nodes. */
  ghost predicate Shows(nodes: set<XmlNode>, q: Links)
    reads nodes
  {
    forall n | n in nodes ::
      && n.parentNode == q.Parent(n) && n.firstChild == q.First(n)
      && n.prevSibling == q.Prev(n) && n.nextSibling == q.Next(n)
  }

  ghost function Fields(nodes: set<XmlNode>): (q: Links)
    reads nodes
    ensures Shows(nodes, q)
  {
    Links(map n | n in nodes :: n.parentNode, map n | n in nodes :: n.firstChild,
          map n | n in nodes :: n.prevSibling, map n | n in nodes :: n.nextSibling)
  }

  // ---- Formed, on maps ----

  ghost predicate ListFits(q: Links, p: XmlNode, ks: seq<XmlNode>) {
    && q.First(p) == At(ks, 0)
    && (forall i | 0 <= i < |ks| ::
          q.Parent(ks[i]) == p && q.Prev(ks[i]) == At(ks, i - 1) && q.Next(ks[i]) == At(ks, i + 1))
    && Distinct(ks)
  }

  ghost predicate PlaceFits(h: Shape, q: Links, n: XmlNode) {
    && (q.Parent(n) == null ==> q.Prev(n) == null && q.Next(n) == null)
    && (q.Parent(n) != null ==> q.Parent(n) in h.nodes && n in h.Kids(q.Parent(n)))
  }

  ghost predicate Fits(h: Shape, q: Links) {
    && Ranked(h)
    && (forall n | n in h.nodes :: ListFits(q, n, h.Kids(n)))
    && (forall n | n in h.nodes :: PlaceFits(h, q, n))
  }

  lemma ListFitsIsOk(h: Shape, q: Links, n: XmlNode, ks: seq<XmlNode>)
    requires Shows(h.nodes, q) && n in h.nodes && forall c | c in ks :: c in h.nodes
    ensures ListOk(n, ks) <==> ListFits(q, n, ks)
  {
    forall i | 0 <= i < |ks| ensures ks[i] in h.nodes {
      assert ks[i] in ks;
    }
  }

  lemma FitsIsFormed(h: Shape, q: Links)
    requires Shows(h.nodes, q)
    ensures Formed(h) <==> Fits(h, q)
  {
    if Ranked(h) {
      forall n | n in h.nodes
        ensures ListOk(n, h.Kids(n)) <==> ListFits(q, n, h.Kids(n))
        ensures Placed(h, n) <==> PlaceFits(h, q, n)
      {
        ListFitsIsOk(h, q, n, h.Kids(n));
      }
      hide ListOk, ListFits, Placed, PlaceFits;
    }
  }

  lemma KidFits(h: Shape, q: Links, p: XmlNode, i: nat)
    requires Fits(h, q) && p in h.nodes && i < |h.Kids(p)|
    ensures var c := h.Kids(p)[i];
            && c in h.nodes && c != p && q.Parent(c) == p
            && q.Prev(c) == At(h.Kids(p), i - 1)
            && q.Next(c) == At(h.Kids(p), i + 1)
  {
    var ks := h.Kids(p);
    assert ListFits(q, p, ks) && ks[i] in ks;
  }

  lemma KidOf(h: Shape, q: Links, n: XmlNode, c: XmlNode)
    requires Fits(h, q) && n in h.nodes && c in h.Kids(n)
    ensures c in h.nodes && q.Parent(c) == n
  {
    KidFits(h, q, n, IndexOf(h.Kids(n), c));
  }

  // ---- What they do to the forest ----

  ghost function Without(ks: seq<XmlNode>, c: XmlNode): (r: seq<XmlNode>)
    requires c in ks
    ensures |r| == |ks| - 1
  {
    var i := IndexOf(ks, c);
    ks[..i] + ks[i + 1..]
  }

  ghost function Inserted(ks: seq<XmlNode>, i: nat, c: XmlNode): seq<XmlNode>
    requires i <= |ks|
  {
    ks[..i] + [c] + ks[i..]
  }

  ghost function Removed(h: Shape, p: XmlNode, c: XmlNode): Shape
    requires c in h.Kids(p)
  {
    h.(kids := h.kids[p := Without(h.Kids(p), c)])
  }

  lemma RemovedRanked(h: Shape, p: XmlNode, c: XmlNode)
    requires Ranked(h) && p in h.nodes && c in h.Kids(p)
    ensures Ranked(Removed(h, p, c))
  {
    var g := Removed(h, p, c);
    RemovedKids(h, p, c);
    forall n, b | n in h.nodes && b in g.Kids(n) ensures b in h.nodes && g.Rank(b) < g.Rank(n) {
      assert b in h.Kids(n) by {
        if n == p { WithoutSome(h.Kids(p), c, b); }
      }
    }
  }

  lemma WithoutSome(ks: seq<XmlNode>, c: XmlNode, b: XmlNode)
    requires c in ks && b in Without(ks, c)
    ensures b in ks
  {
  }

  lemma RemovedKids(h: Shape, p: XmlNode, c: XmlNode)
    requires c in h.Kids(p)
    ensures Removed(h, p, c).Kids(p) == Without(h.Kids(p), c) && Removed(h, p, c).nodes == h.nodes
    ensures forall n | n != p :: Removed(h, p, c).Kids(n) == h.Kids(n)
  {
    hide Without;
  }

  /** The fields after XmlNodeRemoveChild took the i-th child of p out; q holds the fields before. */
  ghost predicate Unlinked(h: Shape, q: Links, p: XmlNode, i: nat)
    requires i < |h.Kids(p)|
    reads h.nodes
  {
    var ks := h.Kids(p);
    var c := ks[i];
    && (forall n | n in h.nodes :: n.firstChild == if n == p && i == 0 then At(ks, 1) else q.First(n))
    && (forall n | n in h.nodes :: n.parentNode == if n == c then null else q.Parent(n))
    && (forall n | n in h.nodes ::
          n.prevSibling == if n == c then null else if n == At(ks, i + 1) then At(ks, i - 1) else q.Prev(n))
    && (forall n | n in h.nodes ::
          n.nextSibling == if n == c then null else if n == At(ks, i - 1) then At(ks, i + 1) else q.Next(n))
  }

  lemma UnlinkedAt(h: Shape, q: Links, p: XmlNode, i: nat, n: XmlNode)
    requires Fits(h, q) && p in h.nodes && i < |h.Kids(p)| && Unlinked(h, q, p, i) && n in h.nodes
    ensures var ks := h.Kids(p);
            var c := ks[i];
            && n.firstChild == (if n == p && i == 0 then At(ks, 1) else q.First(n))
            && n.parentNode == (if n == c then null else q.Parent(n))
            && n.prevSibling == (if n == c then null else if n == At(ks, i + 1) then At(ks, i - 1) else q.Prev(n))
            && n.nextSibling == (if n == c then null else if n == At(ks, i - 1) then At(ks, i + 1) else q.Next(n))
  {
    hide Fits, At;
  }

  lemma UnlinkedFormed(h: Shape, q: Links, p: XmlNode, i: nat)
    requires Fits(h, q) && p in h.nodes && i < |h.Kids(p)| && Unlinked(h, q, p, i)
    ensures Formed(Removed(h, p, h.Kids(p)[i]))
  {
    var c := h.Kids(p)[i];
    var g := Removed(h, p, c);
    RemovedRanked(h, p, c);
    hide Unlinked, ListOk, Placed, Ranked, Fits, Removed, Without;
    RemovedKids(h, p, c);
    UnlinkedList(h, q, p, i);
    forall n | n in h.nodes && n != p ensures ListOk(n, g.Kids(n)) {
      UnlinkedOther(h, q, p, i, n);
    }
    forall n | n in h.nodes ensures Placed(g, n) {
      UnlinkedPlace(h, q, p, i, n);
    }
  }

  lemma UnlinkedList(h: Shape, q: Links, p: XmlNode, i: nat)
    requires Fits(h, q) && p in h.nodes && i < |h.Kids(p)| && Unlinked(h, q, p, i)
    ensures ListOk(p, Without(h.Kids(p), h.Kids(p)[i]))
  {
    hide Fits, Unlinked, Without, ListOk;
    var ks := h.Kids(p);
    DistinctKids(h, q, p);
    WithoutAt(ks, i);
    var ws := Without(ks, ks[i]);
    forall k | 0 <= k < |ws|
      ensures ws[k].parentNode == p
      ensures ws[k].prevSibling == At(ws, k - 1)
      ensures ws[k].nextSibling == At(ws, k + 1)
    {
      var j := if k < i then k else k + 1;
      KidFits(h, q, p, j);
      UnlinkedAt(h, q, p, i, ks[j]);
    }
    FirstKid(h, q, p);
    UnlinkedAt(h, q, p, i, p);
    ListByAt(p, ws);
  }

  lemma ListByAt(p: XmlNode, ks: seq<XmlNode>)
    requires p.firstChild == At(ks, 0) && Distinct(ks)
    requires forall k | 0 <= k < |ks| ::
               ks[k].parentNode == p && ks[k].prevSibling == At(ks, k - 1) && ks[k].nextSibling == At(ks, k + 1)
    ensures ListOk(p, ks)
  {
  }

  lemma DistinctKids(h: Shape, q: Links, p: XmlNode)
    requires Fits(h, q) && p in h.nodes
    ensures Distinct(h.Kids(p))
  {
    assert ListFits(q, p, h.Kids(p));
  }

  lemma FirstKid(h: Shape, q: Links, p: XmlNode)
    requires Fits(h, q) && p in h.nodes
    ensures q.First(p) == At(h.Kids(p), 0)
  {
    assert ListFits(q, p, h.Kids(p));
  }

  /** A list without its i-th element. */
  lemma WithoutAt(ks: seq<XmlNode>, i: nat)
    requires i < |ks| && Distinct(ks)
    ensures var ws := Without(ks, ks[i]);
            && |ws| == |ks| - 1 && Distinct(ws)
            && forall k | 0 <= k < |ws| :: ws[k] == ks[if k < i then k else k + 1]
  {
    IndexUnique(ks, i);
  }

  lemma UnlinkedOther(h: Shape, q: Links, p: XmlNode, i: nat, n: XmlNode)
    requires Fits(h, q) && p in h.nodes && i < |h.Kids(p)| && Unlinked(h, q, p, i) && n in h.nodes && n != p
    ensures ListOk(n, h.Kids(n))
  {
    hide Fits, Unlinked, ListOk;
    var ns := h.Kids(n);
    DistinctKids(h, q, n);
    FirstKid(h, q, n);
    UnlinkedAt(h, q, p, i, n);
    forall k | 0 <= k < |ns|
      ensures ns[k].parentNode == n && ns[k].prevSibling == At(ns, k - 1) && ns[k].nextSibling == At(ns, k + 1)
    {
      KidFits(h, q, n, k);
      UnlinkedAt(h, q, p, i, ns[k]);
      Neighbours(h, q, p, i, ns[k]);
    }
    ListByAt(n, ns);
  }

  /** The i-th child and its neighbours stand in no other list. */
  lemma Neighbours(h: Shape, q: Links, p: XmlNode, i: nat, b: XmlNode)
    requires Fits(h, q) && p in h.nodes && i < |h.Kids(p)| && b in h.nodes && q.Parent(b) != p
    ensures b != h.Kids(p)[i] && b != At(h.Kids(p), i - 1) && b != At(h.Kids(p), i + 1)
  {
    hide Fits;
    KidFits(h, q, p, i);
    if i > 0 { KidFits(h, q, p, i - 1); }
    if i + 1 < |h.Kids(p)| { KidFits(h, q, p, i + 1); }
  }

  lemma PlaceOf(h: Shape, q: Links, n: XmlNode)
    requires Fits(h, q) && n in h.nodes
    ensures q.Parent(n) == null ==> q.Prev(n) == null && q.Next(n) == null
    ensures q.Parent(n) != null ==> q.Parent(n) in h.nodes && n in h.Kids(q.Parent(n))
  {
    assert PlaceFits(h, q, n);
  }

  lemma UnlinkedPlace(h: Shape, q: Links, p: XmlNode, i: nat, n: XmlNode)
    requires Fits(h, q) && p in h.nodes && i < |h.Kids(p)| && Unlinked(h, q, p, i) && n in h.nodes
    ensures Placed(Removed(h, p, h.Kids(p)[i]), n)
  {
    hide Fits, Unlinked, Without, At, PlaceFits;
    PlaceOf(h, q, n);
    var ks := h.Kids(p);
    UnlinkedAt(h, q, p, i, n);
    if n != ks[i] && q.Parent(n) == p {
      DistinctKids(h, q, p);
      WithoutAt(ks, i);
      var j := IndexOf(ks, n);
      assert Without(ks, ks[i])[if j < i then j else j - 1] == n;
    } else if n != ks[i] {
      Neighbours(h, q, p, i, n);
    }
  }

  // ---- Putting a node in ----

  /** g is h with c at place i under p. */
  ghost predicate PlacedAt(h: Shape, g: Shape, p: XmlNode, i: nat, c: XmlNode) {
    && i <= |h.Kids(p)| && g.nodes == h.nodes && Ranked(g)
    && g.Kids(p) == Inserted(h.Kids(p), i, c)
    && forall n | n in h.nodes && n != p :: g.Kids(n) == h.Kids(n)
  }

  /** The fields after c, alone before, was linked in at place i under p; q holds the fields before. */
  ghost predicate Spliced(h: Shape, q: Links, p: XmlNode, i: nat, c: XmlNode)
    reads h.nodes
  {
    var ks := h.Kids(p);
    && (forall n | n in h.nodes :: n.firstChild == if n == p && i == 0 then c else q.First(n))
    && (forall n | n in h.nodes :: n.parentNode == if n == c then p else q.Parent(n))
    && (forall n | n in h.nodes ::
          n.prevSibling == if n == c then At(ks, i - 1) else if n == At(ks, i) then c else q.Prev(n))
    && (forall n | n in h.nodes ::
          n.nextSibling == if n == c then At(ks, i) else if n == At(ks, i - 1) then c else q.Next(n))
  }

  ghost predicate CanSplice(h: Shape, q: Links, p: XmlNode, i: nat, c: XmlNode) {
    Fits(h, q) && p in h.nodes && c in h.nodes && i <= |h.Kids(p)| && c != p && q.Parent(c) == null
  }

  lemma SplicedAt(h: Shape, q: Links, p: XmlNode, i: nat, c: XmlNode, n: XmlNode)
    requires Spliced(h, q, p, i, c) && n in h.nodes
    ensures var ks := h.Kids(p);
            && n.firstChild == (if n == p && i == 0 then c else q.First(n))
            && n.parentNode == (if n == c then p else q.Parent(n))
            && n.prevSibling == (if n == c then At(ks, i - 1) else if n == At(ks, i) then c else q.Prev(n))
            && n.nextSibling == (if n == c then At(ks, i) else if n == At(ks, i - 1) then c else q.Next(n))
  {
    hide At;
  }

  lemma InsertedAt(ks: seq<XmlNode>, i: nat, c: XmlNode)
    requires i <= |ks| && Distinct(ks) && c !in ks
    ensures |Inserted(ks, i, c)| == |ks| + 1 && Distinct(Inserted(ks, i, c)) && c in Inserted(ks, i, c)
    ensures Inserted(ks, i, c)[i] == c
    ensures forall k | 0 <= k < i :: Inserted(ks, i, c)[k] == ks[k]
    ensures forall k | i <= k < |ks| :: Inserted(ks, i, c)[k + 1] == ks[k]
  {
    var ws := Inserted(ks, i, c);
    assert ws[i] == c;
  }

  lemma LoneChild(h: Shape, q: Links, n: XmlNode, c: XmlNode)
    requires Fits(h, q) && n in h.nodes && q.Parent(c) == null
    ensures c !in h.Kids(n)
  {
    hide Fits;
    if c in h.Kids(n) { KidOf(h, q, n, c); }
  }

  lemma SplicedList(h: Shape, q: Links, p: XmlNode, i: nat, c: XmlNode)
    requires CanSplice(h, q, p, i, c) && Spliced(h, q, p, i, c)
    ensures ListOk(p, Inserted(h.Kids(p), i, c))
  {
    hide Fits, Spliced, Inserted, ListOk;
    var ks := h.Kids(p);
    DistinctKids(h, q, p);
    LoneChild(h, q, p, c);
    InsertedAt(ks, i, c);
    var ws := Inserted(ks, i, c);
    SplicedAt(h, q, p, i, c, c);
    forall k | 0 <= k < |ws|
      ensures ws[k].parentNode == p && ws[k].prevSibling == At(ws, k - 1) && ws[k].nextSibling == At(ws, k + 1)
    {
      if k != i {
        var j := if k < i then k else k - 1;
        assert ks[j] in ks && ws[k] == ks[j];
        KidFits(h, q, p, j);
        SplicedAt(h, q, p, i, c, ks[j]);
      }
    }
    FirstKid(h, q, p);
    SplicedAt(h, q, p, i, c, p);
    ListByAt(p, ws);
  }

  /** The neighbours of place i stand in no other list. */
  lemma SpliceNeighbours(h: Shape, q: Links, p: XmlNode, i: nat, b: XmlNode)
    requires Fits(h, q) && p in h.nodes && i <= |h.Kids(p)| && b in h.nodes && q.Parent(b) != p
    ensures b != At(h.Kids(p), i - 1) && b != At(h.Kids(p), i)
  {
    hide Fits;
    if i > 0 { KidFits(h, q, p, i - 1); }
    if i < |h.Kids(p)| { KidFits(h, q, p, i); }
  }

  lemma SplicedOther(h: Shape, q: Links, p: XmlNode, i: nat, c: XmlNode, n: XmlNode)
    requires CanSplice(h, q, p, i, c) && Spliced(h, q, p, i, c) && n in h.nodes && n != p
    ensures ListOk(n, h.Kids(n))
  {
    hide Fits, Spliced, ListOk;
    var ns := h.Kids(n);
    DistinctKids(h, q, n);
    FirstKid(h, q, n);
    LoneChild(h, q, n, c);
    SplicedAt(h, q, p, i, c, n);
    forall k | 0 <= k < |ns|
      ensures ns[k].parentNode == n && ns[k].prevSibling == At(ns, k - 1) && ns[k].nextSibling == At(ns, k + 1)
    {
      KidFits(h, q, n, k);
      assert ns[k] in ns;
      SplicedAt(h, q, p, i, c, ns[k]);
      SpliceNeighbours(h, q, p, i, ns[k]);
    }
    ListByAt(n, ns);
  }

  lemma SplicedPlace(h: Shape, q: Links, g: Shape, p: XmlNode, i: nat, c: XmlNode, n: XmlNode)
    requires CanSplice(h, q, p, i, c) && Spliced(h, q, p, i, c) && PlacedAt(h, g, p, i, c) && n in h.nodes
    ensures Placed(g, n)
  {
    hide Fits, Spliced, Inserted, Ranked;
    var ks := h.Kids(p);
    DistinctKids(h, q, p);
    LoneChild(h, q, p, c);
    InsertedAt(ks, i, c);
    SplicedAt(h, q, p, i, c, n);
    PlaceOf(h, q, n);
    if n != c && q.Parent(n) == p {
      var j := IndexOf(ks, n);
      var k := if j < i then j else j + 1;
      assert Inserted(ks, i, c)[k] == n;
    } else if n != c {
      SpliceNeighbours(h, q, p, i, n);
    }
  }

  lemma SplicedFormed(h: Shape, q: Links, g: Shape, p: XmlNode, i: nat, c: XmlNode)
    requires CanSplice(h, q, p, i, c) && Spliced(h, q, p, i, c) && PlacedAt(h, g, p, i, c)
    ensures Formed(g)
  {
    SplicedList(h, q, p, i, c);
    hide Fits, Spliced, Inserted, ListOk, Placed, Ranked;
    forall n | n in g.nodes ensures ListOk(n, g.Kids(n)) {
      if n != p { SplicedOther(h, q, p, i, c, n); }
    }
    forall n | n in g.nodes ensures Placed(g, n) {
      SplicedPlace(h, q, g, p, i, c, n);
    }
  }
}
