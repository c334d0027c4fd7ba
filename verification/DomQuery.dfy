/** Elements by tag name (node.c 1844-1926): a walk along first-child and next-sibling links
    that collects exactly the matching elements of a subtree, in document order, each once. */
module DomQuery {
  import opened Dom

  /** XmlNodeList: nodes in the order they were added (list.c 91-148). */
  class NodeList {
    var items: seq<XmlNode>

    constructor ()
      ensures items == []
    {
      items := [];
    }

    method Add(add: XmlNode)
      modifies this
      ensures items == old(items) + [add]
    {
      items := items + [add];
    }
  }

  predicate Matches(n: XmlNode, tagname: string) {
    n.nodeType == ElementNode && (tagname == n.nodeName || tagname == "*")
  }

  ghost function Self(n: XmlNode, tagname: string): seq<XmlNode> {
    if Matches(n, tagname) then [n] else []
  }

  ghost predicate Under(h: Shape, ks: seq<XmlNode>, r: nat) {
    forall c | c in ks :: c in h.nodes && h.Rank(c) < r
  }

  lemma KidsUnder(h: Shape, n: XmlNode)
    requires Ranked(h) && n in h.nodes
    ensures Under(h, h.Kids(n), h.Rank(n))
  {
  }

  /** The matching elements of the subtrees at ks, in document order. */
  ghost function Collected(h: Shape, ks: seq<XmlNode>, r: nat, tagname: string): seq<XmlNode>
    requires Ranked(h) && Under(h, ks, r)
    decreases r, |ks|
  {
    if ks == [] then []
    else
      assert ks[0] in ks;
      KidsUnder(h, ks[0]);
      Self(ks[0], tagname) + Collected(h, h.Kids(ks[0]), h.Rank(ks[0]), tagname) + Collected(h, ks[1..], r, tagname)
  }

  /** A bound on the height of a node and its siblings. */
  ghost function Ceiling(h: Shape, n: XmlNode): nat
    requires n in h.nodes
    reads n
  {
    if n.parentNode == null then h.bound else h.Rank(n.parentNode)
  }

  lemma LinksCeiling(h: Shape, n: XmlNode)
    requires Formed(h) && n in h.nodes
    ensures n.firstChild != null ==> n.firstChild in h.nodes && Ceiling(h, n.firstChild) == h.Rank(n) < Ceiling(h, n)
    ensures n.nextSibling != null ==> n.nextSibling in h.nodes && Ceiling(h, n.nextSibling) == Ceiling(h, n)
  {
    ChildLink(h, n);
    SiblingLink(h, n);
    if n.parentNode != null { RankUp(h, n); }
    if n.nextSibling != null {
      hide Formed;
      SameLevel(h, n);
    }
  }

  lemma SameLevel(h: Shape, n: XmlNode)
    requires Formed(h) && n in h.nodes && n.nextSibling != null && n.nextSibling in h.nodes
    requires Level(h, n.nextSibling) == Level(h, n)
    ensures Ceiling(h, n.nextSibling) == Ceiling(h, n)
  {
    if n.parentNode != null { RankUp(h, n); }
    if n.nextSibling.parentNode != null { RankUp(h, n.nextSibling); }
  }

  /** ks are n and the siblings after it, under the bound r. */
  ghost predicate Siblings(h: Shape, n: XmlNode?, ks: seq<XmlNode>, r: nat)
    requires Formed(h) && (n != null ==> n in h.nodes)
    reads h.nodes
  {
    Under(h, ks, r) && if n == null then ks == [] else ks == Following(h, n) && r == Ceiling(h, n)
  }

  lemma NextSiblings(h: Shape, n: XmlNode, ks: seq<XmlNode>, r: nat)
    requires Formed(h) && n in h.nodes && Siblings(h, n, ks, r)
    ensures ks != [] && ks[0] == n && h.Rank(n) < r
    ensures n.firstChild != null ==> n.firstChild in h.nodes
    ensures Siblings(h, n.firstChild, h.Kids(n), h.Rank(n))
    ensures n.nextSibling != null ==> n.nextSibling in h.nodes
    ensures Siblings(h, n.nextSibling, ks[1..], r)
  {
    ChildLink(h, n);
    SiblingLink(h, n);
    LinksCeiling(h, n);
    FormedRanked(h);
    KidsUnder(h, n);
    assert ks[0] in ks;
  }

  /** XmlNodeGetElementsByTagNameRecursive. */
  method GetElementsRecursive(ghost h: Shape, n: XmlNode?, ghost ks: seq<XmlNode>, ghost r: nat, tagname: string,
      list: NodeList)
    requires Formed(h) && (n != null ==> n in h.nodes) && Siblings(h, n, ks, r)
    modifies list
    ensures Ranked(h) && Under(h, ks, r) && list.items == old(list.items) + Collected(h, ks, r, tagname)
    decreases r, |ks|
  {
    hide *;
    FormedRanked(h);
    SiblingsUnder(h, n, ks, r);
    if n == null {
      NothingCollected(h, ks, r, tagname);
      return;
    }
    NextSiblings(h, n, ks, r);
    SiblingsUnder(h, n.firstChild, h.Kids(n), h.Rank(n));
    SiblingsUnder(h, n.nextSibling, ks[1..], r);
    Assemble(h, ks, r, tagname, list.items);
    if Matches(n, tagname) {
      list.Add(n);
    }
    SelfAdded(n, tagname);
    GetElementsRecursive(h, n.firstChild, h.Kids(n), h.Rank(n), tagname, list);
    GetElementsRecursive(h, n.nextSibling, ks[1..], r, tagname, list);
  }

  lemma SelfAdded(n: XmlNode, tagname: string)
    ensures Self(n, tagname) == if Matches(n, tagname) then [n] else []
  {
  }

  lemma Assemble(h: Shape, ks: seq<XmlNode>, r: nat, tagname: string, was: seq<XmlNode>)
    requires Ranked(h) && Under(h, ks, r) && ks != []
    ensures ks[0] in h.nodes && Under(h, h.Kids(ks[0]), h.Rank(ks[0])) && Under(h, ks[1..], r)
    ensures was + Self(ks[0], tagname) + Collected(h, h.Kids(ks[0]), h.Rank(ks[0]), tagname)
                + Collected(h, ks[1..], r, tagname) == was + Collected(h, ks, r, tagname)
    ensures was + [] == was
  {
    CollectedStep(h, ks, r, tagname);
    hide Collected, Self, Under, Ranked;
    Regroup(was, Self(ks[0], tagname), Collected(h, h.Kids(ks[0]), h.Rank(ks[0]), tagname), Collected(h, ks[1..],
        r, tagname));
  }

  lemma SiblingsUnder(h: Shape, n: XmlNode?, ks: seq<XmlNode>, r: nat)
    requires Formed(h) && (n != null ==> n in h.nodes) && Siblings(h, n, ks, r)
    ensures Under(h, ks, r) && (n == null ==> ks == [])
  {
  }

  lemma NothingCollected(h: Shape, ks: seq<XmlNode>, r: nat, tagname: string)
    requires Ranked(h) && ks == []
    ensures Under(h, ks, r) && Collected(h, ks, r, tagname) == []
    ensures forall s: seq<XmlNode> :: s + Collected(h, ks, r, tagname) == s
  {
  }

  /** XmlNodeGetElementsByTagName: the node itself and everything below it, but not its siblings. */
  method GetElements(ghost h: Shape, n: XmlNode, tagname: string, list: NodeList)
    requires Formed(h) && n in h.nodes
    modifies list
    ensures Ranked(h) && Under(h, [n], h.Rank(n) + 1)
    ensures list.items == old(list.items) + Collected(h, [n], h.Rank(n) + 1, tagname)
  {
    FormedRanked(h);
    ChildLink(h, n);
    LinksCeiling(h, n);
    KidsUnder(h, n);
    NothingCollected(h, [n][1..], h.Rank(n) + 1, tagname);
    hide Formed, Matches, Ranked, Collected;
    Assemble(h, [n], h.Rank(n) + 1, tagname, list.items);
    if Matches(n, tagname) {
      list.Add(n);
    }
    SelfAdded(n, tagname);
    GetElementsRecursive(h, n.firstChild, h.Kids(n), h.Rank(n), tagname, list);
  }

  lemma FormedRanked(h: Shape)
    requires Formed(h)
    ensures Ranked(h)
  {
  }

  lemma Regroup(a: seq<XmlNode>, b: seq<XmlNode>, c: seq<XmlNode>, d: seq<XmlNode>)
    ensures a + b + c + d == a + (b + c + d)
  {
  }

  lemma CollectedStep(h: Shape, ks: seq<XmlNode>, r: nat, tagname: string)
    requires Ranked(h) && Under(h, ks, r) && ks != []
    ensures ks[0] in h.nodes && Under(h, h.Kids(ks[0]), h.Rank(ks[0])) && Under(h, ks[1..], r)
    ensures Collected(h, ks, r, tagname) ==
            Self(ks[0], tagname) + Collected(h, h.Kids(ks[0]), h.Rank(ks[0]), tagname) + Collected(h, ks[1..], r,
                tagname)
    ensures |ks| == 1 ==> Collected(h, ks[1..], r, tagname) == []
  {
    assert ks[0] in ks;
    KidsUnder(h, ks[0]);
  }

  // ---- What is collected ----

  /** x is one of ks or below one of them. */
  ghost predicate Within(h: Shape, ks: seq<XmlNode>, x: XmlNode)
    requires Formed(h) && x in h.nodes
    reads h.nodes
  {
    exists k :: k in ks && (k == x || Above(h, k, x))
  }

  lemma WithinStep(h: Shape, ks: seq<XmlNode>, x: XmlNode)
    requires Formed(h) && x in h.nodes && ks != [] && ks[0] in h.nodes
    ensures Within(h, ks, x) <==> x == ks[0] || Within(h, h.Kids(ks[0]), x) || Within(h, ks[1..], x)
  {
    var a := ks[0];
    assert ks == [a] + ks[1..] && a in ks;
    if Within(h, ks, x) {
      var k :| k in ks && (k == x || Above(h, k, x));
      if k == a && k != x {
        AboveIsWithinKids(h, a, x);
      } else if k != a {
        assert k in ks[1..];
      }
    }
    if Within(h, h.Kids(a), x) {
      var b :| b in h.Kids(a) && (b == x || Above(h, b, x));
      KidAbove(h, a, b, x);
      assert a in ks && Above(h, a, x);
    }
    if Within(h, ks[1..], x) {
      var k :| k in ks[1..] && (k == x || Above(h, k, x));
      assert k in ks;
    }
  }

  lemma AboveIsWithinKids(h: Shape, a: XmlNode, x: XmlNode)
    requires Formed(h) && x in h.nodes && a in h.nodes && Above(h, a, x)
    ensures Within(h, h.Kids(a), x)
  {
    if x.parentNode == a {
      assert Placed(h, x);
    } else {
      var b := AboveViaKid(h, a, x);
    }
  }

  lemma KidAbove(h: Shape, a: XmlNode, b: XmlNode, x: XmlNode)
    requires Formed(h) && x in h.nodes && a in h.nodes && b in h.Kids(a) && (b == x || Above(h, b, x))
    ensures Above(h, a, x)
  {
    if b == x {
      var i := IndexOf(h.Kids(a), b);
      assert ListOk(a, h.Kids(a)) && h.Kids(a)[i].parentNode == a;
    } else {
      AboveDown(h, a, b, x);
    }
  }

  /** Exactly the matching elements of the subtrees are collected. */
  lemma {:induction false} CollectedExactly(h: Shape, ks: seq<XmlNode>, r: nat, tagname: string, x: XmlNode)
    requires Formed(h) && Under(h, ks, r) && x in h.nodes
    ensures x in Collected(h, ks, r, tagname) <==> Matches(x, tagname) && Within(h, ks, x)
    decreases r, |ks|
  {
    FormedRanked(h);
    if ks != [] {
      CollectedStep(h, ks, r, tagname);
      WithinStep(h, ks, x);
      hide Formed, Within, Matches, Ranked, Under, Collected;
      UnderFirst(h, ks, r);
      CollectedExactly(h, h.Kids(ks[0]), h.Rank(ks[0]), tagname, x);
      CollectedExactly(h, ks[1..], r, tagname, x);
    }
  }

  lemma UnderFirst(h: Shape, ks: seq<XmlNode>, r: nat)
    requires Under(h, ks, r) && ks != []
    ensures ks[0] in h.nodes && h.Rank(ks[0]) < r
  {
    assert ks[0] in ks;
  }

  /** Asked for `*`, all elements of the subtrees. */
  lemma AllElements(h: Shape, ks: seq<XmlNode>, r: nat, x: XmlNode)
    requires Formed(h) && Under(h, ks, r) && x in h.nodes
    ensures x in Collected(h, ks, r, "*") <==> x.nodeType == ElementNode && Within(h, ks, x)
  {
    hide Collected, Within, Formed;
    CollectedExactly(h, ks, r, "*", x);
  }

  function Named(es: seq<XmlNode>, name: string): seq<XmlNode> {
    if es == [] then [] else OneNamed(es[0], name) + Named(es[1..], name)
  }

  function OneNamed(e: XmlNode, name: string): seq<XmlNode> {
    if e.nodeName == name then [e] else []
  }

  lemma Grouped(a: seq<XmlNode>, b: seq<XmlNode>, c: seq<XmlNode>)
    ensures a + (b + c) == a + b + c
  {
  }

  lemma {:induction false} NamedAppend(a: seq<XmlNode>, b: seq<XmlNode>, name: string)
    ensures Named(a + b, name) == Named(a, name) + Named(b, name)
    decreases |a|
  {
    hide OneNamed;
    if a == [] {
      assert a + b == b;
    } else {
      assert (a + b)[1..] == a[1..] + b && (a + b)[0] == a[0];
      NamedAppend(a[1..], b, name);
      Grouped(OneNamed(a[0], name), Named(a[1..], name), Named(b, name));
    }
  }

  /** Asked for a name, those of them with exactly that name, in the same order. */
  lemma {:induction false} NamedElements(h: Shape, ks: seq<XmlNode>, r: nat, name: string)
    requires Ranked(h) && Under(h, ks, r) && name != "*"
    ensures Collected(h, ks, r, name) == Named(Collected(h, ks, r, "*"), name)
    decreases r, |ks|
  {
    hide Ranked, Under, Matches, Collected;
    if ks == [] {
      NothingCollected(h, ks, r, name);
      NothingCollected(h, ks, r, "*");
    } else {
      CollectedStep(h, ks, r, name);
      CollectedStep(h, ks, r, "*");
      UnderFirst(h, ks, r);
      NamedElements(h, h.Kids(ks[0]), h.Rank(ks[0]), name);
      NamedElements(h, ks[1..], r, name);
      var below, beside := Collected(h, h.Kids(ks[0]), h.Rank(ks[0]), "*"), Collected(h, ks[1..], r, "*");
      SelfNamed(ks[0], name);
      NamedAppend(Self(ks[0], "*") + below, beside, name);
      NamedAppend(Self(ks[0], "*"), below, name);
    }
  }

  lemma SelfNamed(n: XmlNode, name: string)
    requires name != "*"
    ensures Self(n, name) == Named(Self(n, "*"), name)
  {
  }

  // ---- Each once ----

  lemma JoinDistinct(a: seq<XmlNode>, b: seq<XmlNode>)
    requires Distinct(a) && Distinct(b) && forall x | x in a :: x !in b
    ensures Distinct(a + b)
  {
    forall i, j | 0 <= i < j < |a + b| ensures (a + b)[i] != (a + b)[j] {
      if i < |a| <= j {
        assert a[i] in a && b[j - |a|] in b;
      }
    }
  }

  /** Nodes of one list, or roots: none is above another. */
  ghost predicate Apart(h: Shape, ks: seq<XmlNode>)
    requires Formed(h)
    reads h.nodes
  {
    Distinct(ks) && forall a, b | a in ks && b in ks :: a in h.nodes && b in h.nodes && !Above(h, a, b)
  }

  /** Two ancestors of a node are one above the other. */
  lemma {:induction false} Comparable(h: Shape, a: XmlNode, b: XmlNode, x: XmlNode)
    requires Formed(h) && a in h.nodes && b in h.nodes && x in h.nodes
    requires (a == x || Above(h, a, x)) && (b == x || Above(h, b, x))
    ensures a == b || Above(h, a, b) || Above(h, b, a)
    decreases h.bound - h.Rank(x)
  {
    if a != x && b != x {
      RankUp(h, x);
      Comparable(h, a, b, x.parentNode);
    }
  }

  lemma KidsApart(h: Shape, n: XmlNode)
    requires Formed(h) && n in h.nodes
    ensures Apart(h, h.Kids(n))
  {
    hide Formed, Above, Distinct;
    var ks := h.Kids(n);
    KidsDistinct(h, n);
    forall a, b | a in ks && b in ks ensures a in h.nodes && b in h.nodes && !Above(h, a, b) {
      KidParent(h, n, a);
      KidParent(h, n, b);
      if Above(h, a, b) {
        AboveParent(h, a, b);
        if a != n {
          AboveIsHigher(h, a, n);
        }
      }
    }
  }

  lemma {:induction false} CollectedOnce(h: Shape, ks: seq<XmlNode>, r: nat, tagname: string)
    requires Formed(h) && Under(h, ks, r) && Apart(h, ks)
    ensures Distinct(Collected(h, ks, r, tagname))
    decreases r, |ks|
  {
    FormedRanked(h);
    if ks != [] {
      CollectedStep(h, ks, r, tagname);
      UnderFirst(h, ks, r);
      var a := ks[0];
      KidsApart(h, a);
      RestApart(h, ks);
      hide Formed, Apart, Under, Ranked, Collected;
      CollectedOnce(h, h.Kids(a), h.Rank(a), tagname);
      CollectedOnce(h, ks[1..], r, tagname);
      var below, rest := Collected(h, h.Kids(a), h.Rank(a), tagname), Collected(h, ks[1..], r, tagname);
      forall x | x in Self(a, tagname) ensures x !in below {
        SelfNotBelow(h, a, tagname);
      }
      hide Distinct;
      JoinDistinct(Self(a, tagname), below) by { SelfOnce(a, tagname); }
      forall x | x in Self(a, tagname) + below ensures x !in rest {
        FirstNotInRest(h, ks, r, tagname, x);
      }
      JoinDistinct(Self(a, tagname) + below, rest);
    }
  }

  lemma SelfOnce(a: XmlNode, tagname: string)
    ensures Distinct(Self(a, tagname))
  {
  }

  lemma RestApart(h: Shape, ks: seq<XmlNode>)
    requires Formed(h) && ks != [] && Apart(h, ks)
    ensures Apart(h, ks[1..])
  {
    forall b | b in ks[1..] ensures b in ks {}
  }

  lemma SelfNotBelow(h: Shape, a: XmlNode, tagname: string)
    requires Formed(h) && a in h.nodes && Ranked(h) && Under(h, h.Kids(a), h.Rank(a))
    ensures a !in Collected(h, h.Kids(a), h.Rank(a), tagname)
  {
    CollectedExactly(h, h.Kids(a), h.Rank(a), tagname, a);
    hide Collected, Matches;
    if Within(h, h.Kids(a), a) {
      var b :| b in h.Kids(a) && (b == a || Above(h, b, a));
      KidAbove(h, a, b, a);
      AboveIsHigher(h, a, a);
    }
  }

  lemma {:induction false} CollectedInPlay(h: Shape, ks: seq<XmlNode>, r: nat, tagname: string)
    requires Formed(h) && Ranked(h) && Under(h, ks, r)
    ensures forall x | x in Collected(h, ks, r, tagname) :: x in h.nodes
    decreases r, |ks|
  {
    if ks != [] {
      CollectedStep(h, ks, r, tagname);
      UnderFirst(h, ks, r);
      hide Formed, Ranked, Under, Collected;
      CollectedInPlay(h, h.Kids(ks[0]), h.Rank(ks[0]), tagname);
      CollectedInPlay(h, ks[1..], r, tagname);
    }
  }

  lemma FirstNotInRest(h: Shape, ks: seq<XmlNode>, r: nat, tagname: string, x: XmlNode)
    requires Formed(h) && Ranked(h) && Under(h, ks, r) && Apart(h, ks) && ks != []
    requires ks[0] in h.nodes && Under(h, h.Kids(ks[0]), h.Rank(ks[0])) && Under(h, ks[1..], r)
    requires x in Self(ks[0], tagname) + Collected(h, h.Kids(ks[0]), h.Rank(ks[0]), tagname)
    ensures x !in Collected(h, ks[1..], r, tagname)
  {
    var a := ks[0];
    CollectedInPlay(h, h.Kids(a), h.Rank(a), tagname);
    assert x in h.nodes;
    CollectedExactly(h, h.Kids(a), h.Rank(a), tagname, x);
    CollectedExactly(h, ks[1..], r, tagname, x);
    hide Collected, Matches, Ranked, Under;
    NotUnderBoth(h, ks, x);
  }

  /** What the first of these nodes is or has below it, none of the others is or has. */
  lemma NotUnderBoth(h: Shape, ks: seq<XmlNode>, x: XmlNode)
    requires Formed(h) && Apart(h, ks) && ks != [] && ks[0] in h.nodes && x in h.nodes
    requires x == ks[0] || Within(h, h.Kids(ks[0]), x)
    ensures !Within(h, ks[1..], x)
  {
    var a := ks[0];
    if x != a {
      WithinKids(h, a, x);
    }
    hide Formed, Above;
    forall k | k in ks[1..] ensures k in h.nodes && k != x && !Above(h, k, x) {
      assert k in ks && a in ks;
      FirstIsNot(ks, k);
      if k == x || Above(h, k, x) {
        Comparable(h, a, k, x);
      }
    }
  }

  lemma WithinKids(h: Shape, a: XmlNode, x: XmlNode)
    requires Formed(h) && a in h.nodes && x in h.nodes && Within(h, h.Kids(a), x)
    ensures Above(h, a, x)
  {
    var b :| b in h.Kids(a) && (b == x || Above(h, b, x));
    hide Formed, Above;
    KidAbove(h, a, b, x);
  }

  lemma FirstIsNot(ks: seq<XmlNode>, k: XmlNode)
    requires ks != [] && Distinct(ks) && k in ks[1..]
    ensures k != ks[0]
  {
    var i :| 0 <= i < |ks[1..]| && ks[1..][i] == k;
    assert ks[i + 1] == k;
  }

  // ---- In document order ----

  ghost predicate Holds(h: Shape, k: XmlNode, x: XmlNode)
    requires Formed(h) && x in h.nodes
    reads h.nodes
  {
    k == x || Above(h, k, x)
  }

  /** x comes before y: it is above y, or they lie below, or are, siblings in this order. */
  ghost predicate Earlier(h: Shape, x: XmlNode, y: XmlNode)
    requires Formed(h) && x in h.nodes && y in h.nodes
    reads h.nodes
  {
    Above(h, x, y) ||
    exists p, i, j :: p in h.nodes && 0 <= i < j < |h.Kids(p)| && Holds(h, h.Kids(p)[i], x) && Holds(h, h.Kids(p)[j], y)
  }

  /** The node alone, or its siblings from the from-th on. */
  ghost predicate Stretch(h: Shape, ks: seq<XmlNode>, p: XmlNode, from: nat) {
    |ks| <= 1 || (p in h.nodes && from <= |h.Kids(p)| && ks == h.Kids(p)[from..])
  }

  ghost predicate AllEarlier(h: Shape, a: seq<XmlNode>, b: seq<XmlNode>)
    requires Formed(h)
    reads h.nodes
  {
    forall x, y | x in a && y in b :: x in h.nodes && y in h.nodes && Earlier(h, x, y)
  }

  ghost predicate OrderAt(h: Shape, es: seq<XmlNode>, i: int, j: int)
    requires Formed(h)
    reads h.nodes
  {
    0 <= i < j < |es| ==> es[i] in h.nodes && es[j] in h.nodes && Earlier(h, es[i], es[j])
  }

  ghost predicate InOrder(h: Shape, es: seq<XmlNode>)
    requires Formed(h)
    reads h.nodes
  {
    forall i, j :: OrderAt(h, es, i, j)
  }

  lemma OrderJoins(h: Shape, a: seq<XmlNode>, b: seq<XmlNode>)
    requires Formed(h) && InOrder(h, a) && InOrder(h, b) && AllEarlier(h, a, b)
    ensures InOrder(h, a + b)
  {
    hide Formed, OrderAt;
    forall i, j ensures OrderAt(h, a + b, i, j) {
      PairJoins(h, a, b, i, j);
    }
  }

  lemma PairJoins(h: Shape, a: seq<XmlNode>, b: seq<XmlNode>, i: int, j: int)
    requires Formed(h) && InOrder(h, a) && InOrder(h, b) && AllEarlier(h, a, b)
    ensures OrderAt(h, a + b, i, j)
  {
    hide Formed, Earlier;
    if 0 <= i < j < |a + b| {
      if j < |a| {
        assert OrderAt(h, a, i, j);
      } else if i < |a| {
        assert a[i] in a && b[j - |a|] in b;
      } else {
        assert OrderAt(h, b, i - |a|, j - |a|);
      }
    }
  }

  /** What is collected stands in document order. */
  lemma {:induction false} CollectedInOrder(h: Shape, ks: seq<XmlNode>, r: nat, tagname: string, p: XmlNode, from: nat)
    requires Formed(h) && Under(h, ks, r) && Stretch(h, ks, p, from)
    ensures InOrder(h, Collected(h, ks, r, tagname))
    decreases r, |ks|
  {
    FormedRanked(h);
    if ks != [] {
      CollectedStep(h, ks, r, tagname);
      UnderFirst(h, ks, r);
      var a := ks[0];
      var below, rest := Collected(h, h.Kids(a), h.Rank(a), tagname), Collected(h, ks[1..], r, tagname);
      hide Formed, Under, Ranked, Collected, InOrder, AllEarlier, Earlier, Matches;
      WholeStretch(h, a);
      CollectedInOrder(h, h.Kids(a), h.Rank(a), tagname, a, 0);
      RestStretch(h, ks, p, from);
      CollectedInOrder(h, ks[1..], r, tagname, p, from + 1);
      SelfInOrder(h, a, tagname);
      BelowLater(h, a, tagname);
      OrderJoins(h, Self(a, tagname), below);
      RestLater(h, ks, r, tagname, p, from);
      OrderJoins(h, Self(a, tagname) + below, rest);
    }
  }

  lemma WholeStretch(h: Shape, a: XmlNode)
    requires a in h.nodes
    ensures Stretch(h, h.Kids(a), a, 0)
  {
    assert h.Kids(a) == h.Kids(a)[0..];
  }

  lemma RestStretch(h: Shape, ks: seq<XmlNode>, p: XmlNode, from: nat)
    requires Stretch(h, ks, p, from) && ks != []
    ensures Stretch(h, ks[1..], p, from + 1)
  {
    if |ks| > 1 {
      assert ks[1..] == h.Kids(p)[from + 1..];
    }
  }

  lemma SelfInOrder(h: Shape, a: XmlNode, tagname: string)
    requires Formed(h)
    ensures InOrder(h, Self(a, tagname))
  {
    hide Formed, Earlier;
  }

  lemma BelowLater(h: Shape, a: XmlNode, tagname: string)
    requires Formed(h) && a in h.nodes && Ranked(h) && Under(h, h.Kids(a), h.Rank(a))
    ensures AllEarlier(h, Self(a, tagname), Collected(h, h.Kids(a), h.Rank(a), tagname))
  {
    hide Formed, Collected, Ranked, Under, Above, Matches;
    forall x, y | x in Self(a, tagname) && y in Collected(h, h.Kids(a), h.Rank(a), tagname)
      ensures x in h.nodes && y in h.nodes && Earlier(h, x, y)
    {
      CollectedBelow(h, a, tagname, y);
    }
  }

  lemma CollectedBelow(h: Shape, a: XmlNode, tagname: string, y: XmlNode)
    requires Formed(h) && a in h.nodes && Ranked(h) && Under(h, h.Kids(a), h.Rank(a))
    requires y in Collected(h, h.Kids(a), h.Rank(a), tagname)
    ensures y in h.nodes && Above(h, a, y)
  {
    CollectedInPlay(h, h.Kids(a), h.Rank(a), tagname);
    CollectedExactly(h, h.Kids(a), h.Rank(a), tagname, y);
    hide Formed, Collected, Ranked, Under, Above, Matches;
    var b :| b in h.Kids(a) && (b == y || Above(h, b, y));
    KidAbove(h, a, b, y);
  }

  lemma RestLater(h: Shape, ks: seq<XmlNode>, r: nat, tagname: string, p: XmlNode, from: nat)
    requires Formed(h) && Ranked(h) && Under(h, ks, r) && ks != [] && Stretch(h, ks, p, from) && ks[0] in h.nodes
    requires Under(h, h.Kids(ks[0]), h.Rank(ks[0])) && Under(h, ks[1..], r)
    ensures var a := ks[0];
            AllEarlier(h, Self(a, tagname) + Collected(h, h.Kids(a), h.Rank(a), tagname),
                       Collected(h, ks[1..], r, tagname))
  {
    hide Formed, Collected, Ranked, Under, Above, Matches, Earlier;
    var a := ks[0];
    forall x, y | x in Self(a, tagname) + Collected(h, h.Kids(a), h.Rank(a), tagname) &&
                  y in Collected(h, ks[1..], r, tagname)
      ensures x in h.nodes && y in h.nodes && Earlier(h, x, y)
    {
      if x != a { CollectedBelow(h, a, tagname, x); }
      CollectedInPlay(h, ks[1..], r, tagname);
      CollectedExactly(h, ks[1..], r, tagname, y);
      SiblingsOrder(h, ks, p, from, x, y);
    }
  }

  lemma SiblingsOrder(h: Shape, ks: seq<XmlNode>, p: XmlNode, from: nat, x: XmlNode, y: XmlNode)
    requires Formed(h) && ks != [] && Stretch(h, ks, p, from) && x in h.nodes && y in h.nodes
    requires Holds(h, ks[0], x) && Within(h, ks[1..], y)
    ensures Earlier(h, x, y)
  {
    hide Formed, Above;
    var k :| k in ks[1..] && (k == y || Above(h, k, y));
    var m :| 0 <= m < |ks[1..]| && ks[1..][m] == k;
    assert |ks| > 1 && h.Kids(p)[from] == ks[0] && h.Kids(p)[from + 1 + m] == k;
    assert Holds(h, h.Kids(p)[from], x) && Holds(h, h.Kids(p)[from + 1 + m], y);
  }
}
