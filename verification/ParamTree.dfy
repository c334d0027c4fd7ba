// The lister and the resolvers as they walk the C heap of parameter nodes.
module ParamTree {
  import opened Wrappers
  import opened ParamPaths
  import opened ParamResolve
  import C = ParamChains

  function NodeOf(t: Option<Tree>): ParamNode? {
    match t
    case None => null
    case Some(tree) => tree.node
  }

  // Every part of a path goes into the buffer for it.
  predicate ShortParts(path: string)
    decreases |path|
  {
    path == "" || (Dot(path) < NAME_SIZE && ShortParts(Remainder(path)))
  }

  // cwmp_get_parameter_nodename: the part before the dot, copied into a buffer,
  // and what follows the dot.
  method GetNodename(path: string) returns (rest: string, name: string)
    requires Dot(path) < NAME_SIZE
    ensures name == Component(path) && rest == Remainder(path)
  {
    var buffer := new char[NAME_SIZE];
    var p, q := 0, 0;
    while p < |path|
      invariant 0 <= p == q <= Dot(path) && buffer[..q] == path[..p]
    {
      if path[p] == '.' {
        break;
      }
      Onward(path, p);
      buffer[q] := path[p];
      assert buffer[..q + 1] == path[..p + 1];
      p, q := p + 1, q + 1;
    }
    DotIs(path, p);
    if p < |path| {
      p := p + 1;
    }
    rest, name := path[p..], buffer[..q];
  }

  lemma Onward(path: string, p: nat)
    requires p < |path| && p <= Dot(path) && path[p] != '.'
    ensures p + 1 <= Dot(path)
  {
  }

  // One level of cwmp_get_parameter_node: along the siblings to the name.
  method Search(first: ParamNode?, name: string, ghost ts: seq<Tree>, ghost parent: ParamNode?,
                ghost repr: set<object>)
    returns (node: ParamNode?, ghost rest: seq<Tree>)
    requires Chain(ts, first, parent, repr)
    ensures Chain(rest, node, parent, repr)
    ensures node == null ==> Named(ts, name) == None
    ensures node != null ==> rest != [] && Named(ts, name) == Some(rest[0])
  {
    node, rest := first, ts;
    while node != null
      invariant Chain(rest, node, parent, repr) && Named(ts, name) == Named(rest, name)
      decreases rest
    {
      if node.name == name {
        return;
      }
      node := node.next;
      rest := rest[1..];
    }
  }

  // cwmp_get_parameter_node. An empty path stands for the root.
  method GetParameterNode(root: ParamNode?, path: string, ghost ts: seq<Tree>, ghost repr: set<object>)
    returns (found: ParamNode?)
    requires Chain(ts, root, null, repr) && ShortParts(path)
    ensures path == "" ==> found == root
    ensures path != "" ==> found == NodeOf(Resolve(ts, path))
    ensures Good(ts) ==> forall parts | C.Spelled(path, parts) ::
              if found == null then forall t :: !C.LeadsTo(ts, parts, t)
              else exists t :: C.LeadsTo(ts, parts, t) && t.node == found
  {
    hide Dot, Named;
    var node, dot := root, path;
    ghost var level, parent: ParamNode? := ts, null;
    while dot != ""
      invariant Chain(level, node, parent, repr) && ShortParts(dot)
      invariant path == "" ==> dot == "" && node == root
      invariant path != "" ==> dot != "" && Resolve(ts, path) == Resolve(level, dot)
      decreases |dot|
    {
      var name;
      dot, name := GetNodename(dot);
      node, level := Search(node, name, level, parent, repr);
      if node == null || dot == "" {
        if Good(ts) { NodeTold(ts, path, node); }
        return node;
      }
      parent := node;
      level := level[0].kids;
      node := node.child;
    }
    if Good(ts) { NodeTold(ts, path, node); }
    return node;
  }

  // The answer told by chains: null exactly without one, or else its node.
  lemma NodeTold(ts: seq<Tree>, path: string, found: ParamNode?)
    requires Good(ts) && (path != "" ==> found == NodeOf(Resolve(ts, path)))
    ensures forall parts | C.Spelled(path, parts) ::
              if found == null then forall t :: !C.LeadsTo(ts, parts, t)
              else exists t :: C.LeadsTo(ts, parts, t) && t.node == found
  {
    hide Resolve, C.LeadsTo, C.Spelled, Good;
    forall parts | C.Spelled(path, parts)
      ensures if found == null then forall t :: !C.LeadsTo(ts, parts, t)
              else exists t :: C.LeadsTo(ts, parts, t) && t.node == found
    {
      C.SpelledSome(path, parts);
      forall t ensures Resolve(ts, path) == Some(t) <==> C.LeadsTo(ts, parts, t) {
        C.ResolveFollows(ts, path, parts, t);
      }
      if Resolve(ts, path).Some? {
        assert C.LeadsTo(ts, parts, Resolve(ts, path).value);
      }
    }
  }

  // One level of cwmp_get_parameter_path_node. Done tells that the search ends
  // here with the node returned, if any.
  method SearchPath(first: ParamNode, name: string, last: bool, ghost ts: seq<Tree>,
                    ghost parent: Option<Tree>, ghost repr: set<object>)
    returns (node: ParamNode?, done: bool, ghost rest: seq<Tree>)
    requires Chain(ts, first, NodeOf(parent), repr)
    ensures done ==> !Walk(ts, name, last).Here?
    ensures done ==> node == if Walk(ts, name, last).Up? then NodeOf(parent) else null
    ensures !done ==> rest != [] && node != null && Chain(rest, node, NodeOf(parent), repr)
    ensures !done ==> Walk(ts, name, last) == Here(rest[0])
  {
    node, rest, done := first, ts, false;
    while node != null
      invariant Chain(rest, node, NodeOf(parent), repr) && Walk(ts, name, last) == Walk(rest, name, last)
      decreases rest
    {
      if node.name == TEMPLATE {
        node := node.next;
        rest := rest[1..];
        continue;
      }
      if node.name == name {
        return;
      }
      if node.next != null {
        node := node.next;
        rest := rest[1..];
      } else {
        assert |rest| == 1;
        done := true;
        node := if last then node.parent else null;
        return;
      }
    }
    done := true;
  }

  // cwmp_get_parameter_path_node
  method GetParameterPathNode(start: ParamNode?, path: string, ghost ts: seq<Tree>, ghost repr: set<object>)
    returns (found: ParamNode?)
    requires Chain(ts, start, null, repr) && ShortParts(path)
    ensures start == null || path == "" ==> found == start
    ensures start != null && path != "" ==> found == NodeOf(ResolvePath(ts, None, path))
    ensures Good(ts) && ts != [] ==> forall parts | C.Spelled(path, parts) ::
              if found == null then forall t :: !C.Arrives(ts, parts, t) && !C.FallsShort(ts, parts, t)
              else exists t: Tree :: t.node == found && (C.Arrives(ts, parts, t) || C.FallsShort(ts, parts, t))
  {
    hide Dot, Walk;
    if start == null {
      return null;
    }
    var node: ParamNode, dot := start, path;
    ghost var level, parent: Option<Tree> := ts, None;
    while dot != ""
      invariant Chain(level, node, NodeOf(parent), repr) && ShortParts(dot)
      invariant path == "" ==> dot == "" && node == start
      invariant path != "" ==> dot != "" && ResolvePath(ts, None, path) == ResolvePath(level, parent, dot)
      decreases |dot|
    {
      var name, done;
      var at: ParamNode?;
      dot, name := GetNodename(dot);
      at, done, level := SearchPath(node, name, dot == "", level, parent, repr);
      if done {
        if Good(ts) && ts != [] { PathNodeTold(ts, path, at); }
        return at;
      }
      node := at;
      if dot == "" || node.child == null {
        if Good(ts) && ts != [] { PathNodeTold(ts, path, node); }
        return node;
      }
      parent := Some(level[0]);
      node := node.child;
      level := level[0].kids;
    }
    if Good(ts) && ts != [] { PathNodeTold(ts, path, node); }
    return node;
  }

  // The answer told by chains: null exactly if nothing arrives or falls short.
  lemma PathNodeTold(ts: seq<Tree>, path: string, found: ParamNode?)
    requires Good(ts) && ts != [] && (path != "" ==> found == NodeOf(ResolvePath(ts, None, path)))
    ensures forall parts | C.Spelled(path, parts) ::
              if found == null then forall t :: !C.Arrives(ts, parts, t) && !C.FallsShort(ts, parts, t)
              else exists t: Tree :: t.node == found && (C.Arrives(ts, parts, t) || C.FallsShort(ts, parts, t))
  {
    hide ResolvePath, C.Arrives, C.FallsShort, C.Missed, C.Spelled, Good;
    forall parts | C.Spelled(path, parts)
      ensures if found == null then forall t :: !C.Arrives(ts, parts, t) && !C.FallsShort(ts, parts, t)
              else exists t: Tree :: t.node == found && (C.Arrives(ts, parts, t) || C.FallsShort(ts, parts, t))
    {
      C.SpelledSome(path, parts);
      forall t ensures ResolvePath(ts, None, path) == Some(t) <==>
                         C.Arrives(ts, parts, t) || C.FallsShort(ts, parts, t)
      {
        C.PathFollows(ts, None, path, parts, t);
      }
      if ResolvePath(ts, None, path).Some? {
        var t := ResolvePath(ts, None, path).value;
        assert C.Arrives(ts, parts, t) || C.FallsShort(ts, parts, t);
      }
    }
  }

  // ------------------------------------------------------------------ the list

  // One ParameterInfoStruct of the response.
  datatype Info = Info(name: string, writable: bool)

  function Infos(es: seq<Entry>): (s: seq<Info>)
    ensures |s| == |es|
    ensures forall k :: 0 <= k < |s| ==> s[k] == Info(es[k].name, es[k].tree.writable)
  {
    seq(|es|, k requires 0 <= k < |es| => Info(es[k].name, es[k].tree.writable))
  }

  // A writable leaf and one that is not.
  lemma TwoInfos(n: ParamNode)
    ensures var w, r := Tree(n, "w", false, true, []), Tree(n, "r", false, false, []);
            Infos([Entry("A.w", w), Entry("A.r", r)]) == [Info("A.w", true), Info("A.r", false)]
  {
  }

  // The response under construction.
  class ParameterList {
    var infos: seq<Info>
    var count: nat

    constructor ()
      ensures infos == [] && count == 0
    {
      infos, count := [], 0;
    }
  }

  // What the buffer for a path keeps of it.
  function Formatted(s: string): (r: string)
    ensures |r| < BUFFER_SIZE && (|s| < BUFFER_SIZE <==> r == s)
  {
    if |s| < BUFFER_SIZE then s else s[..BUFFER_SIZE - 1]
  }

  // 1023 characters and the NUL go into it.
  lemma LongPath(s: string)
    ensures Formatted(s) == if |s| <= 1023 then s else s[..1023]
  {
  }

  // The list with every path but the first one cut to the buffer.
  function Printed(path: string, t: Tree): seq<Entry>
    decreases t
  {
    [Entry(path, t)] + PrintedKids(path, t.kids)
  }

  function PrintedKids(path: string, ts: seq<Tree>): seq<Entry>
    decreases ts
  {
    if ts == [] then []
    else
      (if ts[0].name == TEMPLATE then [] else Printed(Formatted(path + Label(ts[0])), ts[0])) +
      PrintedKids(path, ts[1..])
  }

  predicate PathsFit(es: seq<Entry>) {
    forall e :: e in es ==> |e.name| < BUFFER_SIZE
  }

  lemma FitsJoin(a: seq<Entry>, b: seq<Entry>)
    ensures PathsFit(a + b) <==> PathsFit(a) && PathsFit(b)
  {
    assert forall e :: e in a ==> e in a + b;
    assert forall e :: e in b ==> e in a + b;
  }

  lemma {:induction false} PrintedFits(path: string, ts: seq<Tree>)
    ensures PathsFit(PrintedKids(path, ts))
    decreases ts
  {
    if ts != [] {
      PrintedFits(path, ts[1..]);
      var name := Formatted(path + Label(ts[0]));
      PrintedFits(name, ts[0].kids);
      FitsJoin([Entry(name, ts[0])], PrintedKids(name, ts[0].kids));
      FitsJoin(if ts[0].name == TEMPLATE then [] else Printed(name, ts[0]), PrintedKids(path, ts[1..]));
    }
  }

  lemma {:induction false} PrintedWhenFits(path: string, ts: seq<Tree>)
    requires PathsFit(ListedKids(path, ts))
    ensures PrintedKids(path, ts) == ListedKids(path, ts)
    decreases ts
  {
    if ts != [] {
      var name := path + Label(ts[0]);
      FitsJoin(if ts[0].name == TEMPLATE then [] else Listed(name, ts[0]), ListedKids(path, ts[1..]));
      PrintedWhenFits(path, ts[1..]);
      if ts[0].name != TEMPLATE {
        assert Entry(name, ts[0]) in Listed(name, ts[0]);
        FitsJoin([Entry(name, ts[0])], ListedKids(name, ts[0].kids));
        PrintedWhenFits(name, ts[0].kids);
      }
    }
  }

  // The names printed are the paths exactly when every path below the one asked
  // for goes into the buffer.
  lemma PrintedIsListed(path: string, t: Tree)
    ensures Printed(path, t) == Listed(path, t) <==> PathsFit(ListedKids(path, t.kids))
  {
    PrintedFits(path, t.kids);
    if PathsFit(ListedKids(path, t.kids)) {
      PrintedWhenFits(path, t.kids);
    }
    assert Printed(path, t)[1..] == PrintedKids(path, t.kids) && Listed(path, t)[1..] == ListedKids(path, t.kids);
  }

  ghost predicate NodeIs(t: Tree, node: ParamNode, repr: set<object>)
    reads repr
  {
    node == t.node && node in repr && node.writable == t.writable && Chain(t.kids, node.child, node, repr)
  }

  lemma InfosMore(a: seq<Entry>, b: seq<Entry>)
    ensures Infos(a + b) == Infos(a) + Infos(b)
  {
  }

  // cwmp_create_getparameternames_response_all_parameter_names: the node by the
  // path given, then its children by longer ones.
  method AllParameterNames(list: ParameterList, path: string, node: ParamNode, ghost t: Tree, ghost repr: set<object>)
    requires NodeIs(t, node, repr) && list !in repr
    modifies list
    ensures list.infos == old(list.infos) + Infos(Printed(path, t))
    ensures list.count == old(list.count) + |Printed(path, t)|
    decreases t
  {
    hide Infos, Printed, PrintedKids, Formatted;
    FirstInfo(path, t);
    NoInfos(path);
    list.infos := list.infos + [Info(path, node.writable)];
    list.count := list.count + 1;
    var child := node.child;
    ghost var i := 0;
    while child != null
      invariant i <= |t.kids| && Chain(t.kids[i..], child, node, repr)
      invariant list.infos + Infos(PrintedKids(path, t.kids[i..])) == old(list.infos) + Infos(Printed(path, t))
      invariant list.count + |PrintedKids(path, t.kids[i..])| == old(list.count) + |Printed(path, t)|
      decreases |t.kids| - i
    {
      ghost var ts := t.kids[i..];
      assert ts[1..] == t.kids[i + 1..];
      KidInfos(path, ts, list.infos);
      if child.name != TEMPLATE {
        var buffer := Formatted(path + (child.name + (if child.isObject then "." else "")));
        AllParameterNames(list, buffer, child, ts[0], repr);
      }
      child := child.next;
      i := i + 1;
    }
  }

  lemma FirstInfo(path: string, t: Tree)
    ensures forall before: seq<Info> ::
              before + [Info(path, t.writable)] + Infos(PrintedKids(path, t.kids)) == before + Infos(Printed(path, t))
    ensures |Printed(path, t)| == 1 + |PrintedKids(path, t.kids)|
  {
    InfosMore([Entry(path, t)], PrintedKids(path, t.kids));
    assert Infos([Entry(path, t)]) == [Info(path, t.writable)];
  }

  lemma KidInfos(path: string, ts: seq<Tree>, before: seq<Info>)
    requires ts != []
    ensures ts[0].name == TEMPLATE ==> PrintedKids(path, ts) == PrintedKids(path, ts[1..])
    ensures ts[0].name != TEMPLATE ==>
              var name := Formatted(path + Label(ts[0]));
              && before + Infos(PrintedKids(path, ts))
                 == before + Infos(Printed(name, ts[0])) + Infos(PrintedKids(path, ts[1..]))
              && |PrintedKids(path, ts)| == |Printed(name, ts[0])| + |PrintedKids(path, ts[1..])|
  {
    var name := Formatted(path + Label(ts[0]));
    if ts[0].name != TEMPLATE {
      InfosMore(Printed(name, ts[0]), PrintedKids(path, ts[1..]));
    } else {
      assert [] + PrintedKids(path, ts[1..]) == PrintedKids(path, ts[1..]);
    }
  }

  lemma NoInfos(path: string)
    ensures PrintedKids(path, []) == [] && Infos([]) == []
  {
  }
}
