// The two resolvers of parameter names against the lister: every name listed
// leads back to the node it was listed for.
module ParamResolve {
  import opened Wrappers
  import opened ParamPaths

  function Dot(path: string): (i: nat)
    ensures i <= |path| && '.' !in path[..i] && (i < |path| ==> path[i] == '.')
  {
    if path == "" || path[0] == '.' then 0
    else
      var i := Dot(path[1..]) + 1;
      assert path[..i] == [path[0]] + path[1..][..i - 1];
      i
  }

  function Component(path: string): string {
    path[..Dot(path)]
  }

  function Remainder(path: string): (r: string)
    ensures path != "" ==> |r| < |path|
  {
    if Dot(path) < |path| then path[Dot(path) + 1..] else ""
  }

  function Named(ts: seq<Tree>, name: string): Option<Tree> {
    if ts == [] then None else if ts[0].name == name then Some(ts[0]) else Named(ts[1..], name)
  }

  // cwmp_get_parameter_node
  function Resolve(ts: seq<Tree>, path: string): Option<Tree>
    requires path != ""
    decreases |path|
  {
    match Named(ts, Component(path))
    case None => None
    case Some(t) => if Remainder(path) == "" then Some(t) else Resolve(t.kids, Remainder(path))
  }

  datatype Walked = Nothing | Here(tree: Tree) | Up

  // One level of cwmp_get_parameter_path_node: templates are passed over, and
  // the last part of a path that nothing matches stands for the parent.
  function Walk(ts: seq<Tree>, name: string, last: bool): Walked {
    if ts == [] then Nothing
    else if ts[0].name == TEMPLATE then Walk(ts[1..], name, last)
    else if ts[0].name == name then Here(ts[0])
    else if |ts| > 1 then Walk(ts[1..], name, last)
    else if last then Up else Nothing
  }

  function ResolvePath(ts: seq<Tree>, parent: Option<Tree>, path: string): Option<Tree>
    requires path != ""
    decreases |path|
  {
    match Walk(ts, Component(path), Remainder(path) == "")
    case Nothing => None
    case Up => parent
    case Here(t) => if Remainder(path) == "" || t.kids == [] then Some(t) else ResolvePath(t.kids, Some(t),
        Remainder(path))
  }

  // ----------------------------------------------------------- a proper tree

  predicate GoodName(name: string) {
    name != "" && '.' !in name
  }

  // Siblings have distinct names, and only objects have children.
  predicate Good(ts: seq<Tree>)
    decreases ts
  {
    && (forall j, k :: 0 <= j < k < |ts| ==> ts[j].name != ts[k].name)
    && (forall j :: 0 <= j < |ts| ==> GoodTree(ts[j]))
  }

  predicate GoodTree(t: Tree)
    decreases t
  {
    GoodName(t.name) && (t.kids != [] ==> t.isObject) && Good(t.kids)
  }

  lemma DotIs(path: string, i: nat)
    requires i <= |path| && '.' !in path[..i] && (i < |path| ==> path[i] == '.')
    ensures Dot(path) == i
  {
    var j := Dot(path);
    assert forall k :: 0 <= k < i ==> path[..i][k] != '.';
    assert forall k :: 0 <= k < j ==> path[..j][k] != '.';
  }

  // What the first part of a listed path is, and what is left of it.
  lemma LabelSplits(t: Tree, more: string)
    requires GoodTree(t) && (more != "" ==> t.isObject)
    ensures Component(Label(t) + more) == t.name && Remainder(Label(t) + more) == more && Label(t) + more != ""
  {
    var path := Label(t) + more;
    assert path[..|t.name|] == t.name;
    DotIs(path, |t.name|);
    assert t.isObject ==> path[|t.name| + 1..] == more;
  }

  lemma {:induction false} NamedIs(ts: seq<Tree>, i: nat)
    requires i < |ts| && forall j, k :: 0 <= j < k < |ts| ==> ts[j].name != ts[k].name
    ensures Named(ts, ts[i].name) == Some(ts[i])
    ensures ts[i].name != TEMPLATE ==> forall last :: Walk(ts, ts[i].name, last) == Here(ts[i])
  {
    if i > 0 {
      assert ts[0].name != ts[i].name;
      NamedIs(ts[1..], i - 1);
    }
  }

  // ------------------------------------------------------ listed names resolve

  // Listing under a longer path puts the same text before every name.
  lemma {:induction false} ListedPrefix(before: string, path: string, t: Tree)
    ensures |Listed(before + path, t)| == |Listed(path, t)|
    ensures forall k :: 0 <= k < |Listed(path, t)| ==>
              Listed(before + path, t)[k] == Entry(before + Listed(path, t)[k].name, Listed(path, t)[k].tree)
    decreases t
  {
    KidsPrefix(before, path, t.kids);
  }

  lemma {:induction false} KidsPrefix(before: string, path: string, ts: seq<Tree>)
    ensures |ListedKids(before + path, ts)| == |ListedKids(path, ts)|
    ensures forall k :: 0 <= k < |ListedKids(path, ts)| ==>
              ListedKids(before + path, ts)[k] == Entry(before + ListedKids(path, ts)[k].name, ListedKids(path,
                  ts)[k].tree)
    decreases ts
  {
    if ts != [] {
      KidsPrefix(before, path, ts[1..]);
      ListedPrefix(before, path + Label(ts[0]), ts[0]);
      assert before + path + Label(ts[0]) == before + (path + Label(ts[0]));
    }
  }

  lemma {:induction false} KidsInside(path: string, ts: seq<Tree>, e: Entry)
    ensures e in ListedKids(path, ts) <==>
              exists i :: 0 <= i < |ts| && ts[i].name != TEMPLATE && e in Listed(path + Label(ts[i]), ts[i])
  {
    if ts != [] {
      KidsInside(path, ts[1..], e);
      if e in ListedKids(path, ts[1..]) {
        var i :| 0 <= i < |ts[1..]| && ts[1..][i].name != TEMPLATE && e in Listed(path + Label(ts[1..][i]), ts[1..][i]);
        assert ts[i + 1] == ts[1..][i];
      }
      if i :| 0 <= i < |ts| && ts[i].name != TEMPLATE && e in Listed(path + Label(ts[i]), ts[i]) {
        assert i > 0 ==> ts[i] == ts[1..][i - 1];
      }
    }
  }

  // An entry of a node is the node itself, or an entry of a child with the
  // node's own label in front.
  lemma EntryOf(t: Tree, e: Entry)
    requires e in Listed(Label(t), t)
    ensures e == Entry(Label(t), t) ||
            exists i, name :: Below(t, e, i, name)
  {
    if e != Entry(Label(t), t) {
      KidsInside(Label(t), t.kids, e);
      var i :| 0 <= i < |t.kids| && t.kids[i].name != TEMPLATE && e in Listed(Label(t) + Label(t.kids[i]), t.kids[i]);
      ListedPrefix(Label(t), Label(t.kids[i]), t.kids[i]);
      var es := Listed(Label(t.kids[i]), t.kids[i]);
      var k :| 0 <= k < |es| && Listed(Label(t) + Label(t.kids[i]), t.kids[i])[k] == e;
      assert es[k] == Entry(es[k].name, e.tree);
      assert Below(t, e, i, es[k].name);
    }
  }

  ghost predicate Below(t: Tree, e: Entry, i: nat, name: string) {
    && i < |t.kids| && t.kids[i].name != TEMPLATE
    && e.name == Label(t) + name && Entry(name, e.tree) in Listed(Label(t.kids[i]), t.kids[i])
  }

  // Both resolvers, from the siblings of a node on, lead each name listed for
  // the node back to the tree it was listed for.
  lemma {:induction false} ListedResolves(ts: seq<Tree>, i: nat, parent: Option<Tree>, e: Entry)
    requires Good(ts) && i < |ts| && ts[i].name != TEMPLATE
    requires e in Listed(Label(ts[i]), ts[i])
    ensures e.name != "" && Resolve(ts, e.name) == Some(e.tree) && ResolvePath(ts, parent, e.name) == Some(e.tree)
    decreases ts
  {
    hide Named, Walk, Listed;
    var t := ts[i];
    assert GoodTree(t);
    NamedIs(ts, i);
    EntryOf(t, e);
    if e == Entry(Label(t), t) {
      LabelSplits(t, "");
      assert Label(t) + "" == Label(t);
    } else {
      var k, name :| Below(t, e, k, name);
      ListedResolves(t.kids, k, Some(t), Entry(name, e.tree));
      LabelSplits(t, name);
    }
  }

  // What is listed under a node that was listed is part of the list: so a list
  // asked for any listed path resolves too.
  lemma {:induction false} ListedWithin(path: string, t: Tree, e: Entry, f: Entry)
    requires e in Listed(path, t) && f in Listed(e.name, e.tree)
    ensures f in Listed(path, t)
    decreases t
  {
    if e != Entry(path, t) {
      KidsInside(path, t.kids, e);
      var i :| 0 <= i < |t.kids| && t.kids[i].name != TEMPLATE && e in Listed(path + Label(t.kids[i]), t.kids[i]);
      ListedWithin(path + Label(t.kids[i]), t.kids[i], e, f);
      KidsInside(path, t.kids, f);
    }
  }

  // Whatever listed path is asked for, each name in the answer resolves.
  lemma AskedListResolves(ts: seq<Tree>, i: nat, asked: Entry, e: Entry)
    requires Good(ts) && i < |ts| && ts[i].name != TEMPLATE
    requires asked in Listed(Label(ts[i]), ts[i]) && e in Listed(asked.name, asked.tree)
    ensures e.name != "" && Resolve(ts, e.name) == Some(e.tree) && ResolvePath(ts, None, e.name) == Some(e.tree)
  {
    ListedWithin(Label(ts[i]), ts[i], asked, e);
    ListedResolves(ts, i, None, e);
  }

  // ---------------------------------------------------- any path asked for

  // Every part of the path names a visible node, each among the children of
  // the one before.
  predicate Matched(ts: seq<Tree>, path: string)
    requires path != ""
    decreases |path|
  {
    var w := Walk(ts, Component(path), Remainder(path) == "");
    w.Here? && (Remainder(path) == "" || Matched(w.tree.kids, Remainder(path)))
  }

  predicate EndsInDot(path: string) {
    path != "" && path[|path| - 1] == '.'
  }

  lemma {:induction false} WalkNamed(ts: seq<Tree>, name: string, last: bool)
    requires Walk(ts, name, last).Here?
    ensures Walk(ts, name, last).tree.name == name != TEMPLATE
    ensures Named(ts, name) == Some(Walk(ts, name, last).tree)
    ensures forall other :: Walk(ts, name, other) == Walk(ts, name, last)
  {
    if ts[0].name == TEMPLATE || ts[0].name != name {
      WalkNamed(ts[1..], name, last);
    }
  }

  lemma {:induction false} WalkFails(ts: seq<Tree>, name: string)
    requires Walk(ts, name, true).Up?
    ensures Walk(ts, name, false) == Nothing
    ensures ts != [] && ts[|ts| - 1].name != TEMPLATE
  {
    if ts[0].name == TEMPLATE || |ts| > 1 {
      WalkFails(ts[1..], name);
    }
  }

  // More text behind a path that ends in a dot leaves its first part.
  lemma PartsOfLonger(path: string, more: string)
    requires EndsInDot(path)
    ensures Component(path + more) == Component(path) && Remainder(path + more) == Remainder(path) + more
    ensures Remainder(path) != "" ==> EndsInDot(Remainder(path))
  {
    var i := Dot(path);
    assert '.' in path;
    assert i < |path| by {
      assert path[..|path|] == path;
    }
    assert (path + more)[..i] == path[..i];
    DotIs(path + more, i);
    assert (path + more)[i + 1..] == path[i + 1..] + more;
  }

  // A matched path leads both resolvers to its node, and on from there.
  lemma {:induction false} MatchedLeads(ts: seq<Tree>, parent: Option<Tree>, path: string, t: Tree, more: string)
    requires EndsInDot(path) && Matched(ts, path) && ResolvePath(ts, parent, path) == Some(t)
    ensures Resolve(ts, path) == Some(t)
    ensures more != "" ==> Resolve(ts, path + more) == Resolve(t.kids, more)
    ensures more != "" && t.kids != [] ==> ResolvePath(ts, parent, path + more) == ResolvePath(t.kids, Some(t), more)
    decreases |path|
  {
    hide Walk, Named, Dot;
    var rest := Remainder(path);
    WalkNamed(ts, Component(path), rest == "");
    PartsOfLonger(path, more);
    if rest == "" {
      assert rest + more == more;
    } else {
      var u := Walk(ts, Component(path), false).tree;
      SomeKids(u.kids, rest);
      MatchedLeads(u.kids, Some(u), rest, t, more);
    }
  }

  lemma SomeKids(ts: seq<Tree>, path: string)
    requires path != "" && Matched(ts, path)
    ensures ts != []
  {
  }

  // A path that is answered without being matched: it resolves to nothing by
  // the one resolver, or a child of its node listed under it does by the other.
  lemma {:induction false} UnmatchedFails(ts: seq<Tree>, parent: Option<Tree>, path: string, t: Tree)
    requires EndsInDot(path) && !Matched(ts, path) && ResolvePath(ts, parent, path) == Some(t)
    requires Good(ts) && (parent.Some? ==> parent.value.kids == ts)
    ensures Resolve(ts, path).None? || exists i :: Stray(ts, parent, path, t, i)
    decreases |path|
  {
    hide Walk, Named, Dot, Stray, Good;
    var rest := Remainder(path);
    var w := Walk(ts, Component(path), rest == "");
    if w.Up? {
      UpStrays(ts, parent, path, t);
    } else {
      WalkNamed(ts, Component(path), rest == "");
      PartsOfLonger(path, "");
      GoodWalked(ts, Component(path), rest == "");
      var u := w.tree;
      if u.kids == [] {
        NothingNamed(Component(rest));
      } else {
        UnmatchedFails(u.kids, Some(u), rest, t);
        if i: nat :| Stray(u.kids, Some(u), rest, t, i) {
          DeeperStrays(ts, parent, path, t, u, i);
        }
      }
    }
  }

  lemma GoodWalked(ts: seq<Tree>, name: string, last: bool)
    requires Good(ts) && Walk(ts, name, last).Here?
    ensures Good(Walk(ts, name, last).tree.kids)
  {
    WalkInside(ts, name, last);
    hide Walk;
    var u := Walk(ts, name, last).tree;
    assert GoodTree(u);
  }

  // Answered with the parent: the last of its children, listed, leads nowhere.
  lemma UpStrays(ts: seq<Tree>, parent: Option<Tree>, path: string, t: Tree)
    requires EndsInDot(path) && parent == Some(t) && t.kids == ts && Good(ts)
    requires Walk(ts, Component(path), Remainder(path) == "").Up?
    ensures exists i :: Stray(ts, parent, path, t, i)
  {
    var i := |ts| - 1;
    UpIsLast(ts, Component(path), Remainder(path) == "");
    WalkFails(ts, Component(path));
    assert GoodTree(ts[i]);
    hide Walk, Dot, Good;
    PartsOfLonger(path, Label(ts[i]));
    assert Remainder(path) + Label(ts[i]) == Label(ts[i]);
    assert Stray(ts, parent, path, t, i);
  }

  lemma DeeperStrays(ts: seq<Tree>, parent: Option<Tree>, path: string, t: Tree, u: Tree, i: nat)
    requires EndsInDot(path) && Remainder(path) != "" && u.kids != []
    requires Walk(ts, Component(path), false) == Here(u) && Stray(u.kids, Some(u), Remainder(path), t, i)
    ensures Stray(ts, parent, path, t, i)
  {
    hide Walk, Dot;
    PartsOfLonger(path, Label(t.kids[i]));
  }

  // The i-th child of t, listed under the path, resolves to nothing.
  ghost predicate Stray(ts: seq<Tree>, parent: Option<Tree>, path: string, t: Tree, i: nat) {
    && i < |t.kids| && t.kids[i].name != TEMPLATE && path + Label(t.kids[i]) != ""
    && ResolvePath(ts, parent, path + Label(t.kids[i])).None?
  }

  lemma {:induction false} UpIsLast(ts: seq<Tree>, name: string, last: bool)
    requires Walk(ts, name, last).Up?
    ensures last
  {
    if ts[0].name == TEMPLATE || |ts| > 1 {
      UpIsLast(ts[1..], name, last);
    }
  }

  lemma NothingNamed(name: string)
    ensures Named([], name) == None
  {
  }

  ghost predicate Resolves(ts: seq<Tree>, e: Entry) {
    e.name != "" && Resolve(ts, e.name) == Some(e.tree) && ResolvePath(ts, None, e.name) == Some(e.tree)
  }

  // Whatever path is asked for and answered with a list, all of the list leads
  // back to its nodes exactly when every part of the path names a visible
  // node. The resolver also answers with the parent when the last part matches
  // nothing, and with a leaf when the path goes on behind it.
  lemma AnswerResolves(ts: seq<Tree>, path: string, t: Tree)
    requires Good(ts) && EndsInDot(path) && ResolvePath(ts, None, path) == Some(t)
    ensures (forall e :: e in Listed(path, t) ==> Resolves(ts, e)) <==> Matched(ts, path)
  {
    hide Good, Matched, Resolves, Stray;
    if Matched(ts, path) {
      MatchedGood(ts, None, path, t);
      forall e | e in Listed(path, t) ensures Resolves(ts, e) {
        MatchedResolves(ts, path, t, e);
      }
    } else {
      UnmatchedFails(ts, None, path, t);
      if Resolve(ts, path).None? {
        FirstFails(ts, path, t);
      } else {
        var i: nat :| Stray(ts, None, path, t, i);
        StrayFails(ts, path, t, i);
      }
    }
  }

  lemma FirstFails(ts: seq<Tree>, path: string, t: Tree)
    requires path != "" && Resolve(ts, path).None?
    ensures exists e :: e in Listed(path, t) && !Resolves(ts, e)
  {
    hide Resolve, ResolvePath;
    var e := Entry(path, t);
    assert e in Listed(path, t) && !Resolves(ts, e);
  }

  lemma StrayFails(ts: seq<Tree>, path: string, t: Tree, i: nat)
    requires Stray(ts, None, path, t, i)
    ensures exists e :: e in Listed(path, t) && !Resolves(ts, e)
  {
    hide Resolve, ResolvePath;
    var name := path + Label(t.kids[i]);
    var e := Entry(name, t.kids[i]);
    assert e in Listed(name, t.kids[i]);
    KidsInside(path, t.kids, e);
    assert e in Listed(path, t) && !Resolves(ts, e);
  }

  lemma {:induction false} MatchedGood(ts: seq<Tree>, parent: Option<Tree>, path: string, t: Tree)
    requires Good(ts) && path != "" && Matched(ts, path) && ResolvePath(ts, parent, path) == Some(t)
    ensures GoodTree(t)
    decreases |path|
  {
    hide Dot;
    var rest := Remainder(path);
    var u := Walk(ts, Component(path), rest == "").tree;
    WalkInside(ts, Component(path), rest == "");
    if rest != "" {
      SomeKids(u.kids, rest);
      MatchedGood(u.kids, Some(u), rest, t);
    }
  }

  lemma {:induction false} WalkInside(ts: seq<Tree>, name: string, last: bool)
    requires Walk(ts, name, last).Here?
    ensures Walk(ts, name, last).tree in ts
  {
    if ts[0].name == TEMPLATE || ts[0].name != name {
      WalkInside(ts[1..], name, last);
    }
  }

  lemma MatchedResolves(ts: seq<Tree>, path: string, t: Tree, e: Entry)
    requires EndsInDot(path) && Matched(ts, path) && ResolvePath(ts, None, path) == Some(t) && GoodTree(t)
    requires e in Listed(path, t)
    ensures Resolves(ts, e)
  {
    hide Good, Walk, Dot;
    MatchedLeads(ts, None, path, t, "");
    if e != Entry(path, t) {
      KidsInside(path, t.kids, e);
      var i :| 0 <= i < |t.kids| && t.kids[i].name != TEMPLATE && e in Listed(path + Label(t.kids[i]), t.kids[i]);
      ListedPrefix(path, Label(t.kids[i]), t.kids[i]);
      var es := Listed(Label(t.kids[i]), t.kids[i]);
      var k :| 0 <= k < |es| && Listed(path + Label(t.kids[i]), t.kids[i])[k] == e;
      assert es[k] == Entry(es[k].name, e.tree) && e.name == path + es[k].name;
      ListedResolves(t.kids, i, Some(t), es[k]);
      MatchedLeads(ts, None, path, t, es[k].name);
    }
  }

  // ------------------------------------------------------------- no name twice

  lemma {:induction false} NamePrefix(before: string, path: string, t: Tree, at: seq<nat>)
    requires Visible(t, at)
    ensures NameAt(before + path, t, at) == before + NameAt(path, t, at)
    decreases |at|
  {
    if at != [] {
      var kid := t.kids[at[0]];
      assert before + path + Label(kid) == before + (path + Label(kid));
      NamePrefix(before, path + Label(kid), kid, at[1..]);
    }
  }

  lemma FirstPart(t: Tree, at: seq<nat>)
    requires Visible(t, at) && at != [] && Good(t.kids)
    ensures var kid := t.kids[at[0]];
            && NameAt("", t, at) == Label(kid) + NameAt("", kid, at[1..])
            && Component(NameAt("", t, at)) == kid.name && NameAt("", t, at) != ""
            && Remainder(NameAt("", t, at)) == NameAt("", kid, at[1..])
  {
    var kid := t.kids[at[0]];
    assert GoodTree(kid);
    assert "" + Label(kid) == Label(kid) && Label(kid) + "" == Label(kid);
    NamePrefix(Label(kid), "", kid, at[1..]);
    LabelSplits(kid, NameAt("", kid, at[1..]));
  }

  lemma {:induction false} NamesDiffer(t: Tree, a: seq<nat>, b: seq<nat>)
    requires Good(t.kids) && Visible(t, a) && Visible(t, b)
    requires NameAt("", t, a) == NameAt("", t, b)
    ensures a == b
    decreases |a|
  {
    if a != [] {
      FirstPart(t, a);
    }
    if b != [] {
      FirstPart(t, b);
    }
    if a != [] && b != [] {
      assert a[0] == b[0];
      assert GoodTree(t.kids[a[0]]);
      NamesDiffer(t.kids[a[0]], a[1..], b[1..]);
      assert a == [a[0]] + a[1..] && b == [b[0]] + b[1..];
    }
  }

  // Distinct positions have distinct full names.
  lemma ListedNamesDiffer(path: string, t: Tree, j: nat, k: nat)
    requires Good(t.kids) && j < k < |Listed(path, t)|
    ensures Listed(path, t)[j].name != Listed(path, t)[k].name
  {
    ListedIsPreorder(path, t);
    PositionsIncrease(t);
    var a, b := Positions(t)[j], Positions(t)[k];
    assert path + "" == path;
    NamePrefix(path, "", t, a);
    NamePrefix(path, "", t, b);
    assert (path + NameAt("", t, a))[|path|..] == NameAt("", t, a);
    assert (path + NameAt("", t, b))[|path|..] == NameAt("", t, b);
    if NameAt(path, t, a) == NameAt(path, t, b) {
      NamesDiffer(t, a, b);
      NotBefore(a);
      assert false;
    }
  }

  lemma {:induction false} NotBefore(a: seq<nat>)
    ensures !Before(a, a)
  {
    if a != [] {
      NotBefore(a[1..]);
    }
  }

  function SmallTree(a: ParamNode, x: ParamNode): Tree {
    Tree(a, "A", true, false, [Tree(x, "x", false, true, [])])
  }

  // The tree of one object A with a leaf x. A list asked for under "A.y." is
  // answered, and the name "A.y.x" in it leads to no node.
  lemma StrayAnswer(a: ParamNode, x: ParamNode)
    ensures var t := SmallTree(a, x);
            && Good([t]) && ResolvePath([t], None, "A.y.") == Some(t)
            && Entry("A.y.x", t.kids[0]) in Listed("A.y.", t) && Resolve([t], "A.y.x") == None
  {
    hide *;
    SmallIsGood(a, x);
    SmallAnswers(a, x);
    SmallListed(a, x);
    SmallFails(a, x);
  }

  lemma SmallIsGood(a: ParamNode, x: ParamNode)
    ensures Good([SmallTree(a, x)])
  {
    var t := SmallTree(a, x);
    assert Good([]) && GoodTree(t.kids[0]) && Good(t.kids) && GoodTree(t);
  }

  lemma SmallAnswers(a: ParamNode, x: ParamNode)
    ensures ResolvePath([SmallTree(a, x)], None, "A.y.") == Some(SmallTree(a, x))
  {
    hide Component, Remainder, Dot;
    var t := SmallTree(a, x);
    SplitPart("A.y.", "A", "y.");
    SplitPart("y.", "y", "");
    assert Walk(t.kids, "y", true) == Up;
    assert ResolvePath(t.kids, Some(t), "y.") == Some(t);
    assert Walk([t], "A", false) == Here(t);
  }

  lemma SmallListed(a: ParamNode, x: ParamNode)
    ensures Entry("A.y.x", SmallTree(a, x).kids[0]) in Listed("A.y.", SmallTree(a, x))
  {
    var t := SmallTree(a, x);
    var leaf := t.kids[0];
    assert "A.y." + Label(leaf) == "A.y.x";
    assert Entry("A.y.x", leaf) in Listed("A.y.x", leaf);
    assert Entry("A.y.x", leaf) in ListedKids("A.y.", t.kids);
  }

  lemma SmallFails(a: ParamNode, x: ParamNode)
    ensures Resolve([SmallTree(a, x)], "A.y.x") == None
  {
    hide Component, Remainder, Dot;
    var t := SmallTree(a, x);
    SplitPart("A.y.x", "A", "y.x");
    SplitPart("y.x", "y", "x");
    assert Named(t.kids, "y") == None;
    assert Resolve(t.kids, "y.x") == None;
  }

  lemma SplitPart(path: string, first: string, rest: string)
    requires '.' !in first && path == first + "." + rest
    ensures Component(path) == first && Remainder(path) == rest
  {
    assert path[..|first|] == first && path[|first|] == '.';
    DotIs(path, |first|);
    assert path[|first| + 1..] == rest;
  }
}
