// The parameter tree as a value: the names GetParameterNames lists and the
// nodes they lead to (libcwmp/src/cwmp.c).
module ParamPaths {

  // A parameter node of the C heap. The tree is built and changed elsewhere.
  class ParamNode {
    var name: string
    var isObject: bool
    var writable: bool
    var parent: ParamNode?
    var child: ParamNode?
    var next: ParamNode?

    constructor (name: string, isObject: bool, writable: bool)
      ensures this.name == name && this.isObject == isObject && this.writable == writable
      ensures parent == null && child == null && next == null
    {
      this.name, this.isObject, this.writable := name, isObject, writable;
      parent, child, next := null, null, null;
    }
  }

  datatype Tree = Tree(node: ParamNode, name: string, isObject: bool, writable: bool, kids: seq<Tree>)

  const TEMPLATE: string := "{i}"
  const NAME_SIZE: nat := 256
  const BUFFER_SIZE: nat := 1024

  // The siblings from first on are these trees, and lie in the given heap.
  ghost predicate Chain(ts: seq<Tree>, first: ParamNode?, parent: ParamNode?, repr: set<object>)
    reads repr
    decreases ts
  {
    if ts == [] then first == null
    else
      var n := ts[0].node;
      && first == n && n in repr
      && n.name == ts[0].name && n.isObject == ts[0].isObject && n.writable == ts[0].writable
      && n.parent == parent
      && Chain(ts[0].kids, n.child, n, repr)
      && Chain(ts[1..], n.next, parent, repr)
  }

  // ------------------------------------------------------------------ listing

  datatype Entry = Entry(name: string, tree: Tree)

  // The last part of a node's path: objects end in a dot.
  function Label(t: Tree): string {
    t.name + (if t.isObject then "." else "")
  }

  function Listed(path: string, t: Tree): seq<Entry>
    decreases t
  {
    [Entry(path, t)] + ListedKids(path, t.kids)
  }

  function ListedKids(path: string, ts: seq<Tree>): seq<Entry>
    decreases ts
  {
    if ts == [] then []
    else (if ts[0].name == TEMPLATE then [] else Listed(path + Label(ts[0]), ts[0])) + ListedKids(path, ts[1..])
  }

  // ---------------------------------------------- the definition by positions

  // A descendant by the child to take at each level; templates are not taken.
  predicate Visible(t: Tree, at: seq<nat>)
    decreases at
  {
    at == [] || (at[0] < |t.kids| && t.kids[at[0]].name != TEMPLATE && Visible(t.kids[at[0]], at[1..]))
  }

  function TreeAt(t: Tree, at: seq<nat>): Tree
    requires Visible(t, at)
    decreases at
  {
    if at == [] then t else TreeAt(t.kids[at[0]], at[1..])
  }

  function NameAt(path: string, t: Tree, at: seq<nat>): string
    requires Visible(t, at)
    decreases at
  {
    if at == [] then path else NameAt(path + Label(t.kids[at[0]]), t.kids[at[0]], at[1..])
  }

  function EntryAt(path: string, t: Tree, at: seq<nat>): Entry
    requires Visible(t, at)
  {
    Entry(NameAt(path, t, at), TreeAt(t, at))
  }

  // A position comes before another when it is a prefix of it or takes an
  // earlier child where they part.
  predicate Before(a: seq<nat>, b: seq<nat>) {
    if b == [] then false
    else if a == [] then true
    else a[0] < b[0] || (a[0] == b[0] && Before(a[1..], b[1..]))
  }

  function Positions(t: Tree): seq<seq<nat>> {
    [[]] + KidPositions(t.kids, 0)
  }

  function Under(i: nat, ps: seq<seq<nat>>): (r: seq<seq<nat>>)
    ensures |r| == |ps| && forall k :: 0 <= k < |r| ==> r[k] == [i] + ps[k]
  {
    seq(|ps|, k requires 0 <= k < |ps| => [i] + ps[k])
  }

  function KidPositions(ts: seq<Tree>, i: nat): seq<seq<nat>> {
    if ts == [] then []
    else (if ts[0].name == TEMPLATE then [] else Under(i, Positions(ts[0]))) + KidPositions(ts[1..], i + 1)
  }

  ghost predicate Increasing(ps: seq<seq<nat>>) {
    forall j, k :: 0 <= j < k < |ps| ==> Before(ps[j], ps[k])
  }

  // A position that takes one of these children, the first being the i-th.
  predicate Takes(ts: seq<Tree>, i: nat, at: seq<nat>) {
    at != [] && i <= at[0] < i + |ts| && ts[at[0] - i].name != TEMPLATE && Visible(ts[at[0] - i], at[1..])
  }

  lemma TakesStep(ts: seq<Tree>, i: nat, at: seq<nat>)
    requires ts != []
    ensures Takes(ts, i, at) <==>
              || (ts[0].name != TEMPLATE && at != [] && at[0] == i && Visible(ts[0], at[1..]))
              || Takes(ts[1..], i + 1, at)
  {
    hide Visible;
  }

  lemma {:induction false} PositionsVisible(t: Tree, at: seq<nat>)
    ensures at in Positions(t) <==> Visible(t, at)
    decreases t, 1, |at|
  {
    KidPositionsVisible(t.kids, 0, at);
    assert Takes(t.kids, 0, at) <==> at != [] && Visible(t, at);
  }

  lemma {:induction false} KidPositionsVisible(ts: seq<Tree>, i: nat, at: seq<nat>)
    ensures at in KidPositions(ts, i) <==> Takes(ts, i, at)
    decreases ts, 0, |at|
  {
    hide Visible, Positions, Under;
    if ts != [] {
      InKidPositions(ts, i, at);
      TakesStep(ts, i, at);
      InUnder(i, Positions(ts[0]), at);
      hide Takes, KidPositions;
      KidPositionsVisible(ts[1..], i + 1, at);
      if at != [] {
        PositionsVisible(ts[0], at[1..]);
      }
    }
  }

  lemma InKidPositions(ts: seq<Tree>, i: nat, at: seq<nat>)
    requires ts != []
    ensures at in KidPositions(ts, i) <==>
              (ts[0].name != TEMPLATE && at in Under(i, Positions(ts[0]))) || at in KidPositions(ts[1..], i + 1)
  {
    hide Under;
  }

  lemma InUnder(i: nat, ps: seq<seq<nat>>, at: seq<nat>)
    ensures at in Under(i, ps) <==> at != [] && at[0] == i && at[1..] in ps
  {
    var under := Under(i, ps);
    if at != [] && at[0] == i && at[1..] in ps {
      var k :| 0 <= k < |ps| && ps[k] == at[1..];
      assert under[k] == at;
    }
    if at in under {
      var k :| 0 <= k < |under| && under[k] == at;
      assert at[1..] == ps[k];
    }
  }

  // The positions come in preorder, each once.
  lemma {:induction false} PositionsIncrease(t: Tree)
    ensures Increasing(Positions(t))
    decreases t, 1
  {
    KidPositionsIncrease(t.kids, 0);
  }

  lemma {:induction false} KidPositionsIncrease(ts: seq<Tree>, i: nat)
    ensures Increasing(KidPositions(ts, i))
    ensures forall k :: 0 <= k < |KidPositions(ts, i)| ==>
              KidPositions(ts, i)[k] != [] && KidPositions(ts, i)[k][0] >= i
    decreases ts, 0
  {
    if ts != [] {
      KidPositionsIncrease(ts[1..], i + 1);
      PositionsIncrease(ts[0]);
      var first := if ts[0].name == TEMPLATE then [] else Under(i, Positions(ts[0]));
      var rest := KidPositions(ts[1..], i + 1);
      UnderIncreases(i, Positions(ts[0]));
      var all := first + rest;
      forall j, k | 0 <= j < k < |all| ensures Before(all[j], all[k]) {
      }
    }
  }

  lemma UnderIncreases(i: nat, ps: seq<seq<nat>>)
    requires Increasing(ps)
    ensures Increasing(Under(i, ps))
  {
    var r := Under(i, ps);
    forall j, k | 0 <= j < k < |r| ensures Before(r[j], r[k]) {
      assert r[j][1..] == ps[j] && r[k][1..] == ps[k];
    }
  }

  // The list is the entries of the visible positions, in that order: the whole
  // subtree in preorder, nothing twice, nothing else, and as many as counted.
  lemma {:induction false} ListedIsPreorder(path: string, t: Tree)
    ensures |Listed(path, t)| == |Positions(t)|
    ensures forall k :: 0 <= k < |Positions(t)| ==>
              Visible(t, Positions(t)[k]) && Listed(path, t)[k] == EntryAt(path, t, Positions(t)[k])
    decreases t, 1
  {
    KidsArePreorder(path, t, t.kids, 0);
    var ps := Positions(t);
    forall k | 0 <= k < |ps|
      ensures Visible(t, ps[k]) && Listed(path, t)[k] == EntryAt(path, t, ps[k])
    {
      if k > 0 {
        assert ps[k] == KidPositions(t.kids, 0)[k - 1];
        assert Listed(path, t)[k] == ListedKids(path, t.kids)[k - 1];
      }
    }
  }

  lemma UnderEntry(path: string, t: Tree, i: nat, p: seq<nat>)
    requires i < |t.kids| && t.kids[i].name != TEMPLATE && Visible(t.kids[i], p)
    ensures Visible(t, [i] + p) && EntryAt(path, t, [i] + p) == EntryAt(path + Label(t.kids[i]), t.kids[i], p)
  {
    assert ([i] + p)[1..] == p;
  }

  ghost predicate AreEntries(path: string, t: Tree, es: seq<Entry>, ps: seq<seq<nat>>) {
    |es| == |ps| && forall k :: 0 <= k < |ps| ==> Visible(t, ps[k]) && es[k] == EntryAt(path, t, ps[k])
  }

  lemma EntriesJoin(path: string, t: Tree, es: seq<Entry>, ps: seq<seq<nat>>, fs: seq<Entry>, qs: seq<seq<nat>>)
    requires AreEntries(path, t, es, ps) && AreEntries(path, t, fs, qs)
    ensures AreEntries(path, t, es + fs, ps + qs)
  {
    hide Visible, EntryAt;
  }

  lemma EntriesUnder(path: string, t: Tree, i: nat, es: seq<Entry>, ps: seq<seq<nat>>)
    requires i < |t.kids| && t.kids[i].name != TEMPLATE
    requires AreEntries(path + Label(t.kids[i]), t.kids[i], es, ps)
    ensures AreEntries(path, t, es, Under(i, ps))
  {
    forall k | 0 <= k < |ps| ensures Visible(t, Under(i, ps)[k]) && es[k] == EntryAt(path, t, Under(i, ps)[k]) {
      UnderEntry(path, t, i, ps[k]);
    }
  }

  lemma {:induction false} KidsArePreorder(path: string, t: Tree, ts: seq<Tree>, i: nat)
    requires i + |ts| == |t.kids| && ts == t.kids[i..]
    ensures AreEntries(path, t, ListedKids(path, ts), KidPositions(ts, i))
    decreases ts, 0
  {
    if ts != [] {
      assert t.kids[i] == ts[0];
      KidsArePreorder(path, t, ts[1..], i + 1);
      if ts[0].name != TEMPLATE {
        var es, ps := Listed(path + Label(ts[0]), ts[0]), Positions(ts[0]);
        ListedIsPreorder(path + Label(ts[0]), ts[0]);
        assert AreEntries(path + Label(ts[0]), ts[0], es, ps);
        EntriesUnder(path, t, i, es, ps);
        hide AreEntries;
        EntriesJoin(path, t, es, Under(i, ps), ListedKids(path, ts[1..]), KidPositions(ts[1..], i + 1));
      } else {
        assert [] + ListedKids(path, ts[1..]) == ListedKids(path, ts[1..]);
        assert [] + KidPositions(ts[1..], i + 1) == KidPositions(ts[1..], i + 1);
      }
    }
  }

  // An object A with a template, an object B below which is a leaf y, and a
  // leaf z: the template and what is below it are not listed, objects end in a dot.
  lemma SmallList(n: ParamNode)
    ensures var y := Tree(n, "y", false, true, []);
            var b := Tree(n, "B", true, false, [y]);
            var hidden := Tree(n, "{i}", true, true, [Tree(n, "x", false, true, [])]);
            var z := Tree(n, "z", false, false, []);
            var t := Tree(n, "A", true, false, [hidden, b, z]);
            Listed("A.", t) == [Entry("A.", t), Entry("A.B.", b), Entry("A.B.y", y), Entry("A.z", z)]
  {
    var y := Tree(n, "y", false, true, []);
    var b := Tree(n, "B", true, false, [y]);
    var hidden := Tree(n, "{i}", true, true, [Tree(n, "x", false, true, [])]);
    var z := Tree(n, "z", false, false, []);
    var kids := [hidden, b, z];
    OneListed("A.B.", y, "A.B.y");
    assert Listed("A.B.", b) == [Entry("A.B.", b), Entry("A.B.y", y)];
    OneListed("A.", z, "A.z");
    assert kids[1..] == [b, z] && kids[1..][1..] == [z];
    assert "A." + Label(b) == "A.B.";
    hide Listed;
    assert ListedKids("A.", kids[1..]) == [Entry("A.B.", b), Entry("A.B.y", y), Entry("A.z", z)];
    assert ListedKids("A.", kids) == ListedKids("A.", kids[1..]);
    ListedStep("A.", Tree(n, "A", true, false, kids));
  }

  lemma ListedStep(path: string, t: Tree)
    ensures Listed(path, t) == [Entry(path, t)] + ListedKids(path, t.kids)
  {
  }

  lemma OneListed(path: string, t: Tree, name: string)
    requires t.kids == [] && t.name != TEMPLATE && name == path + Label(t)
    ensures ListedKids(path, [t]) == [Entry(name, t)]
  {
    assert [t][1..] == [];
    assert ListedKids(path, []) == [] && ListedKids(name, []) == [];
    assert Listed(name, t) == [Entry(name, t)];
  }
}
