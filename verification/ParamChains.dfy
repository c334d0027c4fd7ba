// What the resolvers answer, told from the parts of a path and chains of nodes:
// a node is found exactly if its name and those above it are the parts.
module ParamChains {
  import opened Wrappers
  import opened ParamPaths
  import opened ParamResolve

  // The parts with dots between them.
  function Joined(parts: seq<string>): string
    requires parts != []
  {
    if |parts| == 1 then parts[0] else parts[0] + "." + Joined(parts[1..])
  }

  // The path is its parts with dots between them, and may end in another dot.
  predicate Spelled(path: string, parts: seq<string>) {
    && parts != [] && (forall part :: part in parts ==> '.' !in part)
    && (path == Joined(parts) + "." || (path == Joined(parts) && parts[|parts| - 1] != ""))
  }

  // A node of the list, one of its children, and so on down to t, each at its
  // place among its siblings and each named by its part.
  predicate Chain(ts: seq<Tree>, parts: seq<string>, at: seq<nat>, t: Tree)
    decreases |at|
  {
    && 0 < |at| == |parts| && at[0] < |ts| && ts[at[0]].name == parts[0]
    && if |at| == 1 then t == ts[at[0]] else Chain(ts[at[0]].kids, parts[1..], at[1..], t)
  }

  ghost predicate LeadsTo(ts: seq<Tree>, parts: seq<string>, t: Tree) {
    exists at: seq<nat> :: Chain(ts, parts, at, t)
  }

  // ---------------------------------------------------------------- the parts

  // One part off the front of a path.
  lemma SpelledFirst(path: string, parts: seq<string>)
    requires Spelled(path, parts)
    ensures path != "" && Component(path) == parts[0]
    ensures |parts| == 1 ==> Remainder(path) == ""
    ensures |parts| > 1 ==> Remainder(path) != "" && Spelled(Remainder(path), parts[1..])
  {
    hide Component, Remainder;
    assert parts[0] in parts;
    if |parts| == 1 {
      if path == parts[0] + "." {
        SplitPart(path, parts[0], "");
        assert parts[0] + "." + "" == path;
      } else {
        WholePart(path);
      }
    } else {
      var rest := parts[1..];
      assert rest[|rest| - 1] == parts[|parts| - 1];
      var tail := if path == Joined(parts) + "." then Joined(rest) + "." else Joined(rest);
      assert path == parts[0] + "." + tail;
      SplitPart(path, parts[0], tail);
      assert Spelled(tail, rest);
      SpelledSome(tail, rest);
    }
  }

  lemma {:induction false} SpelledSome(path: string, parts: seq<string>)
    requires Spelled(path, parts)
    ensures path != ""
  {
    if path == Joined(parts) && |parts| > 1 {
      assert path == parts[0] + "." + Joined(parts[1..]);
    }
  }

  lemma SpelledParts(path: string, parts: seq<string>)
    requires Spelled(path, parts)
    ensures parts != []
  {
  }

  lemma WholePart(path: string)
    requires '.' !in path
    ensures Component(path) == path && Remainder(path) == ""
  {
    assert path[..|path|] == path;
    DotIs(path, |path|);
  }

  // Every path has its parts.
  lemma {:induction false} PartsOfPath(path: string) returns (parts: seq<string>)
    requires path != ""
    ensures Spelled(path, parts)
    decreases |path|
  {
    var i := Dot(path);
    assert path[..i] == Component(path);
    if i == |path| {
      parts := [path];
      assert path[..i] == path;
    } else if i + 1 == |path| {
      parts := [path[..i]];
      assert path == path[..i] + ".";
    } else {
      var rest := PartsOfPath(path[i + 1..]);
      parts := [path[..i]] + rest;
      assert parts[1..] == rest && parts[|parts| - 1] == rest[|rest| - 1];
      assert path == path[..i] + "." + path[i + 1..];
      assert Joined(parts) == path[..i] + "." + Joined(rest);
    }
  }

  // --------------------------------------------------------------- the chains

  lemma LeadsFirst(ts: seq<Tree>, parts: seq<string>, t: Tree)
    requires parts != []
    ensures LeadsTo(ts, parts, t) <==> exists i: nat :: LeadsVia(ts, parts, t, i)
  {
    if LeadsTo(ts, parts, t) {
      var at: seq<nat> :| Chain(ts, parts, at, t);
      if |parts| > 1 {
        assert Chain(ts[at[0]].kids, parts[1..], at[1..], t);
      }
      assert LeadsVia(ts, parts, t, at[0]);
    }
    if i: nat :| LeadsVia(ts, parts, t, i) {
      if |parts| == 1 {
        assert Chain(ts, parts, [i], t);
      } else {
        var at: seq<nat> :| Chain(ts[i].kids, parts[1..], at, t);
        assert ([i] + at)[1..] == at;
        assert Chain(ts, parts, [i] + at, t);
      }
    }
  }

  ghost predicate LeadsVia(ts: seq<Tree>, parts: seq<string>, t: Tree, i: nat) {
    && parts != [] && i < |ts| && ts[i].name == parts[0]
    && if |parts| == 1 then ts[i] == t else LeadsTo(ts[i].kids, parts[1..], t)
  }

  // The first node of a name is the only one.
  lemma {:induction false} NamedOnly(ts: seq<Tree>, name: string, i: nat)
    requires (forall j, k :: 0 <= j < k < |ts| ==> ts[j].name != ts[k].name) && i < |ts|
    ensures ts[i].name == name <==> Named(ts, name) == Some(ts[i])
  {
    NamedIn(ts, name);
    if i > 0 {
      var rest := ts[1..];
      assert rest[i - 1] == ts[i];
      forall j, k | 0 <= j < k < |rest| ensures rest[j].name != rest[k].name {
        assert rest[j] == ts[j + 1] && rest[k] == ts[k + 1];
      }
      NamedOnly(rest, name, i - 1);
    }
  }

  lemma {:induction false} NamedIn(ts: seq<Tree>, name: string)
    ensures Named(ts, name).Some? ==>
              exists i: nat :: i < |ts| && ts[i] == Named(ts, name).value && ts[i].name == name
  {
    if ts != [] && ts[0].name != name {
      NamedIn(ts[1..], name);
      if Named(ts, name).Some? {
        var i: nat :| i < |ts[1..]| && ts[1..][i] == Named(ts[1..], name).value && ts[1..][i].name == name;
        assert ts[i + 1] == ts[1..][i];
      }
    }
  }

  // cwmp_get_parameter_node answers with the node a chain of the path's parts
  // leads to, and with null exactly if there is no such chain.
  lemma {:induction false} ResolveFollows(ts: seq<Tree>, path: string, parts: seq<string>, t: Tree)
    requires Good(ts) && Spelled(path, parts)
    ensures path != "" && (Resolve(ts, path) == Some(t) <==> LeadsTo(ts, parts, t))
    decreases |parts|
  {
    hide Good, Spelled, LeadsTo, Component, Remainder, Joined;
    SpelledFirst(path, parts);
    assert parts != [] by { SpelledParts(path, parts); }
    LeadsFirst(ts, parts, t);
    GoodNames(ts);
    NamedIn(ts, parts[0]);
    forall i: nat | i < |ts| && ts[i].name == parts[0] ensures Named(ts, parts[0]) == Some(ts[i]) {
      NamedOnly(ts, parts[0], i);
    }
    if Named(ts, parts[0]).Some? {
      var i: nat :| i < |ts| && ts[i] == Named(ts, parts[0]).value && ts[i].name == parts[0];
      if |parts| > 1 {
        GoodKids(ts, i);
        ResolveFollows(ts[i].kids, Remainder(path), parts[1..], t);
      }
      assert Resolve(ts, path) == Some(t) ==> LeadsVia(ts, parts, t, i);
    }
  }

  lemma GoodNames(ts: seq<Tree>)
    requires Good(ts)
    ensures forall j, k :: 0 <= j < k < |ts| ==> ts[j].name != ts[k].name
  {
  }

  lemma GoodKids(ts: seq<Tree>, i: nat)
    requires Good(ts) && i < |ts|
    ensures Good(ts[i].kids)
  {
    assert GoodTree(ts[i]);
  }

  // ------------------------------------------------------ the other resolver

  predicate Visible(parts: seq<string>) {
    forall part :: part in parts ==> part != TEMPLATE
  }

  // A chain through visible nodes leads to t, along all of the path, or to a
  // leaf before its end.
  ghost predicate Arrives(ts: seq<Tree>, parts: seq<string>, t: Tree) {
    exists k: nat :: ArrivesAt(ts, parts, t, k)
  }

  ghost predicate ArrivesAt(ts: seq<Tree>, parts: seq<string>, t: Tree, k: nat) {
    && 0 < k <= |parts| && Visible(parts[..k]) && LeadsTo(ts, parts[..k], t)
    && (k == |parts| || t.kids == [])
  }

  // No visible node has the name, and the search ends on a visible one.
  predicate Missed(ts: seq<Tree>, name: string) {
    && ts != [] && ts[|ts| - 1].name != TEMPLATE
    && forall i :: 0 <= i < |ts| ==> ts[i].name == TEMPLATE || ts[i].name != name
  }

  // All parts but the last lead to t, through visible nodes, and the last is
  // missed among its children.
  ghost predicate FallsShort(ts: seq<Tree>, parts: seq<string>, t: Tree) {
    && |parts| >= 2
    && var front := parts[..|parts| - 1];
       Visible(front) && LeadsTo(ts, front, t) && Missed(t.kids, parts[|parts| - 1])
  }

  lemma {:induction false} WalkIs(ts: seq<Tree>, name: string, last: bool)
    requires ts != []
    ensures Walk(ts, name, last) ==
            if name != TEMPLATE && Named(ts, name).Some? then Here(Named(ts, name).value)
            else if last && Missed(ts, name) then Up else Nothing
  {
    var rest := ts[1..];
    if rest == [] {
      assert ts == [ts[0]];
    } else {
      WalkIs(rest, name, last);
      assert Missed(ts, name) <==> (ts[0].name == TEMPLATE || ts[0].name != name) && Missed(rest, name) by {
        assert rest[|rest| - 1] == ts[|ts| - 1];
        assert forall i :: 0 < i < |ts| ==> ts[i] == rest[i - 1];
      }
    }
  }

  lemma ArrivesFirst(ts: seq<Tree>, parts: seq<string>, t: Tree)
    requires parts != []
    ensures Arrives(ts, parts, t) <==> parts[0] != TEMPLATE && exists i: nat :: ArrivesVia(ts, parts, t, i)
  {
    hide LeadsTo;
    if Arrives(ts, parts, t) {
      var k: nat :| ArrivesAt(ts, parts, t, k);
      var front := parts[..k];
      assert front[0] in front;
      LeadsFirst(ts, front, t);
      var i: nat :| LeadsVia(ts, front, t, i);
      if k > 1 {
        assert front[1..] == parts[1..][..k - 1];
        assert forall part :: part in front[1..] ==> part in front;
        assert ArrivesAt(ts[i].kids, parts[1..], t, k - 1);
      }
      assert ArrivesVia(ts, parts, t, i);
    }
    if parts[0] != TEMPLATE && exists i: nat :: ArrivesVia(ts, parts, t, i) {
      var i: nat :| ArrivesVia(ts, parts, t, i);
      var k: nat := 1;
      if !(ts[i] == t && (|parts| == 1 || t.kids == [])) {
        var k1: nat :| ArrivesAt(ts[i].kids, parts[1..], t, k1);
        k := k1 + 1;
      }
      var front := parts[..k];
      assert front[1..] == parts[1..][..k - 1] && front == [parts[0]] + front[1..];
      assert LeadsVia(ts, front, t, i);
      LeadsFirst(ts, front, t);
      assert ArrivesAt(ts, parts, t, k);
    }
  }

  ghost predicate ArrivesVia(ts: seq<Tree>, parts: seq<string>, t: Tree, i: nat) {
    && parts != [] && i < |ts| && ts[i].name == parts[0]
    && ((ts[i] == t && (|parts| == 1 || t.kids == [])) || (|parts| > 1 && Arrives(ts[i].kids, parts[1..], t)))
  }

  lemma FallsFirst(ts: seq<Tree>, parts: seq<string>, t: Tree)
    requires |parts| >= 2
    ensures FallsShort(ts, parts, t) <==> parts[0] != TEMPLATE && exists i: nat :: FallsVia(ts, parts, t, i)
  {
    hide LeadsTo, Missed;
    var n := |parts| - 1;
    var front := parts[..n];
    LeadsFirst(ts, front, t);
    assert front[1..] == parts[1..][..n - 1] && front == [parts[0]] + front[1..];
    assert parts[1..][n - 1] == parts[n];
    if FallsShort(ts, parts, t) {
      var i: nat :| LeadsVia(ts, front, t, i);
      assert front[0] in front && forall part :: part in front[1..] ==> part in front;
      assert FallsVia(ts, parts, t, i);
    }
    if parts[0] != TEMPLATE && exists i: nat :: FallsVia(ts, parts, t, i) {
      var i: nat :| FallsVia(ts, parts, t, i);
      assert LeadsVia(ts, front, t, i);
    }
  }

  ghost predicate FallsVia(ts: seq<Tree>, parts: seq<string>, t: Tree, i: nat) {
    && |parts| >= 2 && i < |ts| && ts[i].name == parts[0]
    && if |parts| == 2 then ts[i] == t && Missed(t.kids, parts[1]) else FallsShort(ts[i].kids, parts[1..], t)
  }

  lemma OnePart(ts: seq<Tree>, parts: seq<string>, t: Tree)
    requires |parts| < 2
    ensures !FallsShort(ts, parts, t)
  {
  }

  lemma NotMissed(ts: seq<Tree>, name: string, i: nat)
    requires i < |ts| && ts[i].name == name != TEMPLATE
    ensures !Missed(ts, name)
  {
  }

  lemma NoKids(n: Tree, parts: seq<string>, t: Tree)
    requires n.kids == []
    ensures !Arrives(n.kids, parts, t) && !FallsShort(n.kids, parts, t)
    ensures forall name :: !Missed(n.kids, name)
  {
  }

  // A single node of the first name decides.
  lemma Only(ts: seq<Tree>, parts: seq<string>, t: Tree, i: nat)
    requires i < |ts| && parts != [] && ts[i].name == parts[0]
    requires forall j: nat | j < |ts| && ts[j].name == parts[0] :: ts[j] == ts[i]
    ensures (exists j: nat :: ArrivesVia(ts, parts, t, j)) <==> ArrivesVia(ts, parts, t, i)
    ensures (exists j: nat :: FallsVia(ts, parts, t, j)) <==> FallsVia(ts, parts, t, i)
  {
    hide Arrives, FallsShort, Missed;
  }

  // cwmp_get_parameter_path_node answers with a node exactly in these cases;
  // the parent is that of the list the path starts in.
  lemma {:induction false} PathFollows(ts: seq<Tree>, parent: Option<Tree>, path: string, parts: seq<string>, t: Tree)
    requires Good(ts) && Spelled(path, parts) && ts != []
    ensures path != "" &&
            (ResolvePath(ts, parent, path) == Some(t) <==>
               || Arrives(ts, parts, t) || FallsShort(ts, parts, t)
               || (|parts| == 1 && Missed(ts, parts[0]) && parent == Some(t)))
    decreases |parts|
  {
    hide Good, Spelled, Arrives, FallsShort, Missed, Component, Remainder, Joined, Walk, LeadsTo;
    SpelledFirst(path, parts);
    assert parts != [] by { SpelledParts(path, parts); }
    var name := parts[0];
    WalkIs(ts, name, |parts| == 1);
    ArrivesFirst(ts, parts, t);
    if |parts| > 1 { FallsFirst(ts, parts, t); } else { assert !FallsShort(ts, parts, t) by { OnePart(ts, parts, t); } }
    GoodNames(ts);
    NamedIn(ts, name);
    forall i: nat | i < |ts| && ts[i].name == name ensures Named(ts, name) == Some(ts[i]) {
      NamedOnly(ts, name, i);
    }
    if name != TEMPLATE && Named(ts, name).Some? {
      var i: nat :| i < |ts| && ts[i] == Named(ts, name).value && ts[i].name == name;
      assert !Missed(ts, name) by { NotMissed(ts, name, i); }
      if |parts| > 1 && ts[i].kids != [] {
        GoodKids(ts, i);
        PathFollows(ts[i].kids, Some(ts[i]), Remainder(path), parts[1..], t);
      }
      if ts[i].kids == [] { NoKids(ts[i], parts[1..], t); }
      Only(ts, parts, t, i);
      assert Arrives(ts, parts, t) <==> ArrivesVia(ts, parts, t, i);
      if |parts| == 1 {
        assert ResolvePath(ts, parent, path) == Some(ts[i]);
        assert ArrivesVia(ts, parts, t, i) <==> ts[i] == t;
      } else if ts[i].kids == [] {
        assert ResolvePath(ts, parent, path) == Some(ts[i]);
        assert ArrivesVia(ts, parts, t, i) <==> ts[i] == t;
        assert !FallsVia(ts, parts, t, i);
      } else {
        assert FallsShort(ts, parts, t) <==> FallsVia(ts, parts, t, i);
        if |parts| == 2 { OnePart(ts[i].kids, parts[1..], t); }
        assert parts[1..][0] == parts[1];
        assert ArrivesVia(ts, parts, t, i) <==> Arrives(ts[i].kids, parts[1..], t);
        assert ResolvePath(ts, parent, path) == ResolvePath(ts[i].kids, Some(ts[i]), Remainder(path));
      }
    }
  }
}
