/** What every reachable state of the XML parser keeps, and what an accepted document
    therefore is (XML 1.0, sections 2.1, 3 and 3.1). */
module XmlNesting {
  import opened Wrappers
  import opened XmlSyntax

  // ---- Trees ----

  predicate DistinctAttrs(attrs: seq<Attr>) {
    forall i, j | 0 <= i < j < |attrs| :: attrs[i].name != attrs[j].name
  }

  /** No element of the tree repeats an attribute name. */
  predicate ValidTree(n: Node) {
    n.Text? || (DistinctAttrs(n.attrs) && forall k | 0 <= k < |n.children| :: ValidTree(n.children[k]))
  }

  predicate ValidForest(ns: seq<Node>) {
    forall k | 0 <= k < |ns| :: ValidTree(ns[k])
  }

  // ---- The invariant ----

  predicate StackNamesPath(st: State) {
    |st.stack| == |st.path| && forall k | 0 <= k < |st.path| :: st.stack[k] == st.path[k].name
  }

  predicate OneRoot(st: State) {
    (st.hasTop <==> st.roots != [] || st.path != []) &&
    |st.roots| <= 1 && (st.path != [] ==> st.roots == []) &&
    forall k | 0 <= k < |st.roots| :: st.roots[k].Element?
  }

  predicate ValidOpen(o: Open) {
    DistinctAttrs(o.attrs) && ValidForest(o.children)
  }

  predicate Inv(st: State) {
    && StackNamesPath(st)
    && OneRoot(st)
    && ValidForest(st.roots)
    && (forall k | 0 <= k < |st.path| :: ValidOpen(st.path[k]))
    && (st.mode == AttributeMode ==> st.path != [] && st.path[0].children == [])
  }

  lemma AttachKeeps(st: State, n: Node)
    requires Inv(st) && st.mode == ContentMode && n.Element? && ValidTree(n)
    requires st.path == [] ==> st.roots == [] && st.hasTop
    ensures Inv(Attach(st, n))
  {
    hide ValidTree;
  }

  /** The two comparisons of ParserETagVerification agree. */
  lemma LeaveMatches(st: State, name: string)
    requires StackNamesPath(st)
    ensures Leave(st, name).More? <==> st.path != [] && st.path[0].name == name
    ensures st.stack == [] <==> st.path == []
  {
  }

  lemma LeaveKeeps(st: State, name: string)
    requires Inv(st) && Leave(st, name).More?
    ensures Inv(Leave(st, name).st)
  {
    var o := st.path[0];
    var up := st.(stack := st.stack[1..], path := st.path[1..], mode := ContentMode);
    assert ValidOpen(o);
    assert ValidTree(Closed(o));
    hide ValidTree;
    if up.path == [] {
      assert Attach(up, Closed(o)).roots == [Closed(o)];
    } else {
      assert Inv(up);
      AttachKeeps(up, Closed(o));
    }
  }

  lemma AddAttrKeeps(st: State, name: string, value: Option<string>)
    requires Inv(st) && st.path != [] && st.path[0].children == [] && AddAttr(st, name, value).More?
    ensures Inv(AddAttr(st, name, value).st)
  {
    hide ValidTree;
    var attrs := st.path[0].attrs;
    var more := attrs + [Attr(name, value)];
    assert ValidOpen(st.path[0]);
    forall i, j | 0 <= i < j < |more| ensures more[i].name != more[j].name {
      if j == |attrs| { assert attrs[i].name != name; }
    }
  }

  /** The reader moves only the pointer, the mode and lastElem, and enters AttributeMode only with a start tag. */
  lemma NextMode(s: string, st: State)
    requires st.pos <= |s|
    ensures var (n, st1) := GetNextNode(s, st);
            n.NoNode? && st1.mode == AttributeMode ==> st.mode == AttributeMode
    ensures GetNextNode(s, st).0.TextNode? ==> GetNextNode(s, st).1.mode == ContentMode
    ensures GetNextNode(s, st).0.AttrNode? ==> st.mode == AttributeMode
  {
    hide NextToken, Attribute, ETag, STag, Find, SkipSpaces;
  }

  lemma StepKeeps(s: string, st: State)
    requires st.pos <= |s| && Inv(st) && Step(s, st).More?
    ensures Inv(Step(s, st).st)
  {
    var (n, st1) := GetNextNode(s, st);
    NextMode(s, st);
    hide GetNextNode, ValidTree, Leave, Inv, Enter, AddText, AddAttr;
    assert Moved(st, st1);
    match n
    case EndNode(name) => LeaveInv(st, st1, name);
    case AttrNode(name, value) => AttrInv(st, st1, name, value);
    case StartNode(name) => EnterInv(st, st1, name);
    case TextNode(text) => TextInv(st, st1, text);
    case _ => SameInv(st, st1);
  }

  /** A state after a read: everything built is as before. */
  predicate Moved(st: State, st1: State) {
    st1.path == st.path && st1.roots == st.roots && st1.stack == st.stack && st1.hasTop == st.hasTop
  }

  lemma LeaveInv(st: State, st1: State, name: string)
    requires Inv(st) && Moved(st, st1) && Leave(st1, name).More?
    ensures Inv(Leave(st1, name).st)
  {
    hide ValidTree, Leave;
    assert Inv(st1.(mode := ContentMode));
    LeaveMode(st1, name);
    LeaveKeeps(st1.(mode := ContentMode), name);
  }

  lemma AttrInv(st: State, st1: State, name: string, value: Option<string>)
    requires Inv(st) && Moved(st, st1) && st.mode == AttributeMode && AddAttr(st1, name, value).More?
    ensures Inv(AddAttr(st1, name, value).st)
  {
    hide ValidTree;
    assert AddAttr(st1, name, value).st.mode == st1.mode;
    AddAttrKeeps(st1.(mode := AttributeMode), name, value);
  }

  lemma EnterInv(st: State, st1: State, name: string)
    requires Inv(st) && Moved(st, st1) && Enter(st1, name).More?
    ensures Inv(Enter(st1, name).st)
  {
    hide ValidTree;
  }

  lemma TextInv(st: State, st1: State, text: string)
    requires Inv(st) && Moved(st, st1) && st1.mode == ContentMode && AddText(st1, text).More?
    ensures Inv(AddText(st1, text).st)
  {
    assert ValidTree(Text(text)) && ValidOpen(st.path[0]);
    hide ValidTree;
  }

  lemma SameInv(st: State, st1: State)
    requires Inv(st) && Moved(st, st1) && (st1.mode == AttributeMode ==> st.mode == AttributeMode)
    ensures Inv(st1)
  {
    hide ValidTree;
  }

  lemma LeaveMode(st: State, name: string)
    ensures Leave(st.(mode := ContentMode), name) == Leave(st, name)
  {
  }

  // ---- The tree is the events read, in order ----

  function AttrEvents(attrs: seq<Attr>): (r: seq<Next>) {
    seq(|attrs|, k requires 0 <= k < |attrs| => AttrNode(attrs[k].name, attrs[k].value))
  }

  /** The events of an element up to the end of its children. */
  function OpenEvents(o: Open): seq<Next> {
    [StartNode(o.name)] + AttrEvents(o.attrs) + ForestEvents(o.children)
  }

  function TreeEvents(n: Node): seq<Next>
    decreases n, 1
  {
    match n
    case Text(text) => [TextNode(text)]
    case Element(name, _, attrs, children) =>
      [StartNode(name)] + AttrEvents(attrs) + ForestEvents(children) + [EndNode(name)]
  }

  function ForestEvents(ns: seq<Node>): seq<Next>
    decreases ns, 0
  {
    if ns == [] then [] else TreeEvents(ns[0]) + ForestEvents(ns[1..])
  }

  /** The events that led to a state: the closed part of the tree, then the open path, outermost first. */
  function PathEvents(path: seq<Open>, roots: seq<Node>): seq<Next> {
    if path == [] then ForestEvents(roots) else PathEvents(path[1..], roots) + OpenEvents(path[0])
  }

  /** The events the loop reads from a state on, as long as it goes on. */
  function Trace(s: string, st: State): seq<Next>
    requires st.pos <= |s|
    decreases Measure(s, st)
  {
    match Step(s, st)
    case More(st1) =>
      var n := GetNextNode(s, st).0;
      (if n.NoNode? then [] else [n]) + Trace(s, st1)
    case _ => []
  }

  lemma {:induction false} ForestEventsAppend(ns: seq<Node>, n: Node)
    ensures ForestEvents(ns + [n]) == ForestEvents(ns) + TreeEvents(n)
  {
    hide TreeEvents;
    if ns == [] {
      assert ns + [n] == [n];
      assert ForestEvents([n]) == TreeEvents(n) + ForestEvents([]);
    } else {
      assert (ns + [n])[1..] == ns[1..] + [n];
      ForestEventsAppend(ns[1..], n);
    }
  }

  lemma AddTextEvents(st: State, text: string)
    requires st.path != []
    ensures var st1 := AddText(st, text).st;
            PathEvents(st1.path, st1.roots) == PathEvents(st.path, st.roots) + [TextNode(text)]
  {
    ForestEventsAppend(st.path[0].children, Text(text));
    var st1 := AddText(st, text).st;
    assert st1.path[1..] == st.path[1..];
    assert OpenEvents(st1.path[0]) == OpenEvents(st.path[0]) + [TextNode(text)];
  }

  lemma AddAttrEvents(st: State, name: string, value: Option<string>)
    requires st.path != [] && st.path[0].children == [] && AddAttr(st, name, value).More?
    ensures var st1 := AddAttr(st, name, value).st;
            PathEvents(st1.path, st1.roots) == PathEvents(st.path, st.roots) + [AttrNode(name, value)]
  {
    var st1 := AddAttr(st, name, value).st;
    assert st1.path[1..] == st.path[1..];
    assert AttrEvents(st1.path[0].attrs) == AttrEvents(st.path[0].attrs) + [AttrNode(name, value)];
    assert OpenEvents(st1.path[0]) == OpenEvents(st.path[0]) + [AttrNode(name, value)];
  }

  lemma EnterEvents(st: State, name: string)
    requires Enter(st, name).More?
    ensures var st1 := Enter(st, name).st;
            PathEvents(st1.path, st1.roots) == PathEvents(st.path, st.roots) + [StartNode(name)]
  {
    var st1 := Enter(st, name).st;
    assert st1.path[1..] == st.path;
    assert OpenEvents(st1.path[0]) == [StartNode(name)];
  }

  lemma AttachEvents(st: State, n: Node)
    ensures var st1 := Attach(st, n);
            PathEvents(st1.path, st1.roots) == PathEvents(st.path, st.roots) + TreeEvents(n)
  {
    hide TreeEvents;
    if st.path == [] {
      ForestEventsAppend(st.roots, n);
    } else {
      ForestEventsAppend(st.path[0].children, n);
      var st1 := Attach(st, n);
      assert st1.path[1..] == st.path[1..];
      assert OpenEvents(st1.path[0]) == OpenEvents(st.path[0]) + TreeEvents(n);
    }
  }

  lemma LeaveEvents(st: State, name: string)
    requires Leave(st, name).More?
    ensures var st1 := Leave(st, name).st;
            PathEvents(st1.path, st1.roots) == PathEvents(st.path, st.roots) + [EndNode(name)]
  {
    var o := st.path[0];
    var up := st.(stack := st.stack[1..], path := st.path[1..], mode := ContentMode);
    AttachEvents(up, Closed(o));
    assert TreeEvents(Closed(o)) == OpenEvents(o) + [EndNode(name)];
  }

  lemma StepEvents(s: string, st: State)
    requires st.pos <= |s| && Inv(st) && Step(s, st).More?
    ensures var n := GetNextNode(s, st).0;
            var st1 := Step(s, st).st;
            PathEvents(st1.path, st1.roots) ==
            PathEvents(st.path, st.roots) + (if n.NoNode? then [] else [n])
  {
    var (n, st1) := GetNextNode(s, st);
    NextMode(s, st);
    hide GetNextNode, Leave, Enter, AddAttr, AddText, PathEvents;
    match n
    case EndNode(name) => LeaveEvents(st1, name);
    case AttrNode(name, value) => AddAttrEvents(st1, name, value);
    case StartNode(name) => EnterEvents(st1, name);
    case TextNode(text) =>
      assert st1.path != [] by { assert AddText(st1, text).More?; TextNeedsElement(st1, text); }
      AddTextEvents(st1, text);
    case _ =>
  }

  lemma TextNeedsElement(st: State, text: string)
    ensures AddText(st, text).More? ==> st.path != []
  {
  }

  lemma {:induction false} RunEvents(s: string, st: State)
    requires st.pos <= |s| && Inv(st) && Run(s, st).Parsed?
    ensures ForestEvents(Run(s, st).roots) == PathEvents(st.path, st.roots) + Trace(s, st)
    ensures |Run(s, st).roots| <= 1 && ValidForest(Run(s, st).roots)
    ensures forall k | 0 <= k < |Run(s, st).roots| :: Run(s, st).roots[k].Element?
    decreases Measure(s, st)
  {
    hide Step, GetNextNode, Inv, ValidForest, PathEvents;
    if Step(s, st).More? {
      StepKeeps(s, st);
      StepEvents(s, st);
      RunEvents(s, Step(s, st).st);
    } else {
      RunStops(s, st);
    }
  }

  lemma RunStops(s: string, st: State)
    requires st.pos <= |s| && Inv(st) && Step(s, st).Finished? && Run(s, st).Parsed?
    ensures st.path == [] && PathEvents(st.path, st.roots) == ForestEvents(st.roots)
    ensures |st.roots| <= 1 && ValidForest(st.roots)
    ensures forall k | 0 <= k < |st.roots| :: st.roots[k].Element?
  {
    hide Step;
  }

  /** Replays events against a stack of open names; None when an end tag does not match. */
  function Play(stack: seq<string>, es: seq<Next>): Option<seq<string>>
    decreases |es|
  {
    if es == [] then Some(stack)
    else
      match es[0]
      case StartNode(name) => Play([name] + stack, es[1..])
      case EndNode(name) => if stack != [] && stack[0] == name then Play(stack[1..], es[1..]) else None
      case _ => Play(stack, es[1..])
  }

  lemma {:induction false} PlayAppend(stack: seq<string>, a: seq<Next>, b: seq<Next>)
    ensures Play(stack, a + b) == (match Play(stack, a) case Some(t) => Play(t, b) case None => None)
    decreases |a|
  {
    if a == [] {
      assert a + b == b;
    } else {
      assert (a + b)[1..] == a[1..] + b;
      match a[0]
      case StartNode(name) => PlayAppend([name] + stack, a[1..], b);
      case EndNode(name) => if stack != [] { PlayAppend(stack[1..], a[1..], b); }
      case _ => PlayAppend(stack, a[1..], b);
    }
  }

  lemma {:induction false} PlayAttrs(stack: seq<string>, attrs: seq<Attr>)
    ensures Play(stack, AttrEvents(attrs)) == Some(stack)
  {
    if attrs != [] {
      assert AttrEvents(attrs)[1..] == AttrEvents(attrs[1..]);
      PlayAttrs(stack, attrs[1..]);
    }
  }

  lemma {:induction false} TreeBalanced(stack: seq<string>, n: Node)
    ensures Play(stack, TreeEvents(n)) == Some(stack)
    decreases n, 1
  {
    match n
    case Text(_) =>
      assert TreeEvents(n)[1..] == [];
    case Element(name, _, attrs, children) =>
      var up, a, c, e := [name] + stack, AttrEvents(attrs), ForestEvents(children), [EndNode(name)];
      PlayAttrs(up, attrs);
      ForestBalanced(up, children);
      assert TreeEvents(n) == [StartNode(name)] + a + c + e;
      PlayElement(stack, name, a, c);
  }

  lemma PlayElement(stack: seq<string>, name: string, a: seq<Next>, c: seq<Next>)
    requires Play([name] + stack, a) == Some([name] + stack) && Play([name] + stack, c) == Some([name] + stack)
    ensures Play(stack, [StartNode(name)] + a + c + [EndNode(name)]) == Some(stack)
  {
    var up, e := [name] + stack, [EndNode(name)];
    assert Play(up, e) == Some(stack) by {
      assert up[1..] == stack && e[1..] == [];
    }
    assert Play(stack, [StartNode(name)]) == Some(up) by {
      assert [StartNode(name)][1..] == [];
    }
    hide Play;
    PlayAppend(stack, [StartNode(name)], a);
    PlayAppend(stack, [StartNode(name)] + a, c);
    PlayAppend(stack, [StartNode(name)] + a + c, e);
  }

  lemma {:induction false} ForestBalanced(stack: seq<string>, ns: seq<Node>)
    ensures Play(stack, ForestEvents(ns)) == Some(stack)
    decreases ns, 0
  {
    if ns != [] {
      TreeBalanced(stack, ns[0]);
      ForestBalanced(stack, ns[1..]);
      PlayAppend(stack, TreeEvents(ns[0]), ForestEvents(ns[1..]));
    }
  }

  /** An accepted document: its tree holds exactly the events read, in order, with every end
      tag matching the innermost open start tag; at most one root; no repeated attribute. */
  lemma AcceptedDocument(s: string)
    requires Parse(s).Parsed?
    ensures var roots := Parse(s).roots;
            var events := Trace(s, Start(Prolog(s).1));
            && ForestEvents(roots) == events
            && Play([], events) == Some([])
            && |roots| <= 1 && (forall k | 0 <= k < |roots| :: roots[k].Element?)
            && ValidForest(roots)
  {
    hide Run, Prolog, ForestEvents, ValidForest, Trace, Play, PathEvents, Inv;
    var st := Start(Prolog(s).1);
    StartInv(st.pos);
    RunEvents(s, st);
    assert [] + Trace(s, st) == Trace(s, st);
    ForestBalanced([], Parse(s).roots);
  }

  lemma StartInv(pos: nat)
    ensures Inv(Start(pos)) && PathEvents(Start(pos).path, Start(pos).roots) == []
  {
  }
}
