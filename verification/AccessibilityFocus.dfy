/** The accessibility focus of one window: the manager's fields and the focus flags of its nodes. */
module AccessibilityFocus {

  const NONE := -1

  // ----- the state machine -----

  /** The ids of the window's nodes, and those among them of web cores. */
  datatype Window = Window(ids: set<int>, web: set<int>) {
    ghost predicate Valid() {
      NONE !in ids && web <= ids
    }
  }

  /** `focused` are the nodes whose focus flag is set. */
  datatype State = State(focused: set<int>, current: int, last: int, registered: bool)

  datatype Action = Focus(id: int) | Clear(id: int) | Register(ok: bool) | Deregister

  const INITIAL := State({}, NONE, NONE, false)

  function Next(w: Window, s: State, a: Action): State {
    match a
    case Focus(id) =>
      if id !in w.ids then s
      else if id == s.current then s.(last := id)
      else State((s.focused - ({s.current} - w.web)) + {id}, id, id, s.registered)
    case Clear(id) =>
      if id !in w.ids then s
      else if id != s.current then s.(last := id)
      else State(s.focused - {id}, NONE, id, s.registered)
    case Register(ok) => if s.registered then s else s.(registered := ok)
    case Deregister =>
      if !s.registered then s
      else if s.current != NONE && s.last != NONE && s.last !in w.web then
        State(s.focused - {s.last}, NONE, NONE, false)
      else State(s.focused, NONE, NONE, false)
  }

  // ----- the objects -----

  class FrameNode {
    const id: int
    const web: bool
    var focused: bool

    constructor (id: int, web: bool)
      ensures this.id == id && this.web == web && !focused
    {
      this.id, this.web, focused := id, web, false;
    }
  }

  class FocusManager {
    /** The nodes the lookup by id goes through, in its order. */
    const nodes: seq<FrameNode>
    var currentFocusNodeId: int
    var lastElementId: int
    var lastFrameNode: FrameNode?
    var registered: bool

    constructor (nodes: seq<FrameNode>)
      requires forall i, j :: 0 <= i < j < |nodes| ==> nodes[i].id != nodes[j].id
      requires forall i :: 0 <= i < |nodes| ==> nodes[i].id != NONE && !nodes[i].focused
      ensures this.nodes == nodes && Valid() && Abs() == INITIAL
    {
      this.nodes := nodes;
      currentFocusNodeId, lastElementId, lastFrameNode, registered := NONE, NONE, null, false;
    }

    ghost predicate Valid()
      reads this
    {
      && (forall i, j :: 0 <= i < j < |nodes| ==> nodes[i].id != nodes[j].id)
      && (forall i :: 0 <= i < |nodes| ==> nodes[i].id != NONE)
      && (lastElementId == NONE ==> lastFrameNode == null)
      && (lastElementId != NONE ==> lastFrameNode in nodes && lastFrameNode.id == lastElementId)
    }

    ghost function Nodes(): Window {
      Window(set n | n in nodes :: n.id, set n | n in nodes && n.web :: n.id)
    }

    ghost function Abs(): State
      reads this, nodes
    {
      State(set n | n in nodes && n.focused :: n.id, currentFocusNodeId, lastElementId, registered)
    }

    /** GetFramenodeByAccessibilityId */
    method Find(id: int) returns (r: FrameNode?)
      ensures r != null ==> r in nodes && r.id == id
      ensures r == null ==> id !in Nodes().ids
    {
      for i := 0 to |nodes|
        invariant forall j :: 0 <= j < i ==> nodes[j].id != id
      {
        if nodes[i].id == id {
          return nodes[i];
        }
      }
      return null;
    }

    /** ClearAccessibilityFocus, the free function. */
    method ClearFlag(focusNodeId: int)
      requires Valid()
      modifies nodes
      ensures Valid()
      ensures Abs() == old(Abs()).(focused := old(Abs().focused) - ({focusNodeId} - Nodes().web))
    {
      var oldFocusNode := Find(focusNodeId);
      if oldFocusNode == null {
        return;
      }
      if !oldFocusNode.web {
        oldFocusNode.focused := false;
      }
      assert oldFocusNode.web ==> focusNodeId in Nodes().web;
    }

    method ActAccessibilityFocus(elementId: int, frameNode: FrameNode, isNeedClear: bool) returns (r: bool)
      requires Valid() && frameNode in nodes && frameNode.id == elementId && lastElementId == elementId
      modifies this`currentFocusNodeId, nodes
      ensures Valid()
      ensures Abs() == Next(Nodes(), old(Abs()), if isNeedClear then Clear(elementId) else Focus(elementId))
      ensures r == (isNeedClear == (elementId == old(currentFocusNodeId)))
    {
      assert elementId in Nodes().ids;
      if isNeedClear {
        if elementId != currentFocusNodeId {
          return false;
        }
        frameNode.focused := false;
        currentFocusNodeId := NONE;
        return true;
      }
      if elementId == currentFocusNodeId {
        return false;
      }
      ClearFlag(currentFocusNodeId);
      frameNode.focused := true;
      currentFocusNodeId := frameNode.id;
      return true;
    }

    /** ExecuteActionNG for the two accessibility focus actions. */
    method ExecuteAction(elementId: int, isNeedClear: bool) returns (r: bool)
      requires Valid()
      modifies this`currentFocusNodeId, this`lastElementId, this`lastFrameNode, nodes
      ensures Valid()
      ensures Abs() == Next(Nodes(), old(Abs()), if isNeedClear then Clear(elementId) else Focus(elementId))
      ensures r == (elementId in Nodes().ids && isNeedClear == (elementId == old(currentFocusNodeId)))
    {
      var frameNode := Find(elementId);
      if frameNode == null && elementId == lastElementId {
        frameNode := lastFrameNode;
      }
      if frameNode == null {
        return false;
      }
      lastElementId, lastFrameNode := elementId, frameNode;
      r := ActAccessibilityFocus(elementId, frameNode, isNeedClear);
    }

    /** `bRet` is the answer of the platform to the registration. */
    method RegisterInteractionOperation(bRet: bool) returns (r: int)
      requires Valid()
      modifies this`registered
      ensures Valid()
      ensures Abs() == Next(Nodes(), old(Abs()), Register(bRet))
      ensures r == if !old(registered) && bRet then 1 else 0
    {
      if registered {
        return 0;
      }
      registered := bRet;
      return if bRet then 1 else 0;
    }

    method DeregisterInteractionOperation()
      requires Valid()
      modifies this`currentFocusNodeId, this`lastElementId, this`lastFrameNode, this`registered, nodes
      ensures Valid()
      ensures Abs() == Next(Nodes(), old(Abs()), Deregister)
    {
      if !registered {
        return;
      }
      registered := false;
      if currentFocusNodeId != NONE && lastElementId != NONE {
        var focusNode := lastFrameNode;
        if focusNode != null && !focusNode.web {
          focusNode.focused := false;
        }
        assert focusNode.web <==> lastElementId in Nodes().web;
      }
      lastFrameNode := null;
      lastElementId := NONE;
      currentFocusNodeId := NONE;
    }
  }

  // ----- main results -----

  /** A node that is no web core has its flag set exactly when it is the current focus; a web core
      that is the current focus has its flag set. */
  ghost predicate Unique(w: Window, s: State) {
    && (forall id :: id in w.ids - w.web ==> (id in s.focused <==> id == s.current))
    && (s.current in w.web ==> s.current in s.focused)
    && (s.current == NONE || s.current in w.ids)
    && s.focused <= w.ids
    && (s.last == NONE || s.last in w.ids)
    && (s.last == NONE ==> s.current == NONE)
  }

  function Run(w: Window, s: State, actions: seq<Action>): State
    decreases |actions|
  {
    if actions == [] then s else Run(w, Next(w, s, actions[0]), actions[1..])
  }

  /** The node saved last is the current focus, unless there is none or it is a web core. */
  predicate Settled(w: Window, s: State) {
    s.current == NONE || s.last == s.current || s.current in w.web
  }

  /** Deregistering here clears every flag it has to. */
  predicate Safe(w: Window, s: State) {
    s.registered ==> Settled(w, s)
  }

  /** Every deregistration of the run starts from a safe state. */
  predicate SafeRun(w: Window, s: State, actions: seq<Action>)
    decreases |actions|
  {
    actions == [] ||
    ((actions[0].Deregister? ==> Safe(w, s)) && SafeRun(w, Next(w, s, actions[0]), actions[1..]))
  }

  /** A step keeps focus unique exactly if it is no unsafe deregistration. */
  lemma StepKeepsUnique(w: Window, s: State, a: Action)
    requires w.Valid() && Unique(w, s)
    ensures Unique(w, Next(w, s, a)) <==> (a.Deregister? ==> Safe(w, s))
  {
    if a.Deregister? && !Safe(w, s) {
      assert s.current in w.ids - w.web;
    }
  }

  lemma {:induction false} SafeKeepsUnique(w: Window, s: State, actions: seq<Action>, k: nat)
    requires w.Valid() && Unique(w, s) && SafeRun(w, s, actions) && k <= |actions|
    ensures Unique(w, Run(w, s, actions[..k]))
    decreases |actions|
  {
    if k > 0 {
      StepKeepsUnique(w, s, actions[0]);
      SafeKeepsUnique(w, Next(w, s, actions[0]), actions[1..], k - 1);
      assert actions[..k][1..] == actions[1..][..k - 1];
    }
  }

  lemma {:induction false} UnsafeLosesUnique(w: Window, s: State, actions: seq<Action>) returns (k: nat)
    requires w.Valid() && Unique(w, s) && !SafeRun(w, s, actions)
    ensures k <= |actions| && !Unique(w, Run(w, s, actions[..k]))
    decreases |actions|
  {
    StepKeepsUnique(w, s, actions[0]);
    if Unique(w, Next(w, s, actions[0])) {
      k := UnsafeLosesUnique(w, Next(w, s, actions[0]), actions[1..]);
      assert actions[..k + 1][1..] == actions[1..][..k];
      k := k + 1;
    } else {
      k := 1;
      assert actions[..1][1..] == [];
    }
  }

  /** Focus is unique all through a run, so that at any time at most one node that is no web core
      has its flag set, and it is the current focus, exactly if every deregistration is safe. */
  lemma FocusIsUnique(w: Window, s: State, actions: seq<Action>)
    requires w.Valid() && Unique(w, s)
    ensures (forall k :: 0 <= k <= |actions| ==> Unique(w, Run(w, s, actions[..k]))) <==> SafeRun(w, s, actions)
  {
    if SafeRun(w, s, actions) {
      forall k | 0 <= k <= |actions| ensures Unique(w, Run(w, s, actions[..k])) {
        SafeKeepsUnique(w, s, actions, k);
      }
    } else {
      var k := UnsafeLosesUnique(w, s, actions);
    }
  }

  lemma UniqueAtEnd(w: Window, s: State, actions: seq<Action>)
    requires w.Valid() && Unique(w, s) && SafeRun(w, s, actions)
    ensures Unique(w, Run(w, s, actions))
  {
    SafeKeepsUnique(w, s, actions, |actions|);
    assert actions[..|actions|] == actions;
  }

  lemma {:induction false} WithoutDeregisterSafe(w: Window, s: State, actions: seq<Action>)
    requires forall i :: 0 <= i < |actions| ==> !actions[i].Deregister?
    ensures SafeRun(w, s, actions)
    decreases |actions|
  {
    if actions != [] {
      WithoutDeregisterSafe(w, Next(w, s, actions[0]), actions[1..]);
    }
  }

  /** In particular, no run of focus, clear and register actions alone loses it. */
  lemma UniqueWithoutDeregister(w: Window, s: State, actions: seq<Action>)
    requires w.Valid() && Unique(w, s) && forall i :: 0 <= i < |actions| ==> !actions[i].Deregister?
    ensures Unique(w, Run(w, s, actions))
  {
    WithoutDeregisterSafe(w, s, actions);
    UniqueAtEnd(w, s, actions);
  }

  /** Deregistering a registered manager leaves no flag set (but those of web cores) exactly when
      the state is safe. */
  lemma DeregisterClearsExactly(w: Window, s: State)
    requires w.Valid() && Unique(w, s) && s.registered
    ensures Next(w, s, Deregister).focused <= w.web <==> Safe(w, s)
    ensures Next(w, s, Deregister).current == NONE
  {
    var t := Next(w, s, Deregister);
    if Safe(w, s) {
      forall id | id in t.focused ensures id in w.web {
        assert id in s.focused && id in w.ids;
      }
    } else {
      assert s.current in s.focused && s.current in t.focused && s.current !in w.web;
    }
  }

  predicate Reaches(w: Window, a: Action) {
    (a.Focus? || a.Clear?) && a.id in w.ids
  }

  /** What makes a state unsafe: of the actions that reach a node, only a clear on a node that is
      not the current focus, while there is one that is no web core. */
  lemma WhatIsUnsafe(w: Window, s: State, a: Action)
    requires w.Valid() && Unique(w, s) && Reaches(w, a)
    ensures Settled(w, Next(w, s, a))
       <==> a.Focus? || s.current == a.id || s.current == NONE || s.current in w.web
  {
  }

  lemma {:induction false} RunAppend(w: Window, s: State, a: seq<Action>, b: seq<Action>)
    ensures Run(w, s, a + b) == Run(w, Run(w, s, a), b)
    decreases |a|
  {
    if a == [] {
      assert a + b == b;
    } else {
      assert (a + b)[1..] == a[1..] + b;
      RunAppend(w, Next(w, s, a[0]), a[1..], b);
    }
  }

  lemma {:induction false} UnreachedRun(w: Window, s: State, actions: seq<Action>)
    requires forall i :: 0 <= i < |actions| ==> !actions[i].Deregister? && !Reaches(w, actions[i])
    ensures Run(w, s, actions) == s.(registered := Run(w, s, actions).registered)
    decreases |actions|
  {
    if actions != [] {
      UnreachedRun(w, Next(w, s, actions[0]), actions[1..]);
    }
  }

  /** Whether a deregistration of a registered manager is safe is decided by the last action before
      it that reached a node, whenever it was registered: it is unsafe exactly if that was a failed
      clear, on a node other than the current focus while there is one that is no web core. */
  lemma LastReachingActionDecides(w: Window, s: State, before: seq<Action>, a: Action, after: seq<Action>)
    requires w.Valid() && Unique(w, s) && SafeRun(w, s, before) && Reaches(w, a)
    requires forall i :: 0 <= i < |after| ==> !after[i].Deregister? && !Reaches(w, after[i])
    requires Run(w, s, before + [a] + after).registered
    ensures var t := Run(w, s, before);
      var failed := a.Clear? && t.current != a.id && t.current != NONE && t.current !in w.web;
      Safe(w, Run(w, s, before + [a] + after)) <==> !failed
  {
    var t := Run(w, s, before);
    UniqueAtEnd(w, s, before);
    RunAppend(w, s, before, [a]);
    RunAppend(w, s, before + [a], after);
    assert [a][1..] == [];
    assert Run(w, t, [a]) == Run(w, Next(w, t, a), []);
    UnreachedRun(w, Next(w, t, a), after);
    WhatIsUnsafe(w, t, a);
  }

  // ----- what a run leaves in each field -----

  lemma {:induction false} RunLast(w: Window, s: State, actions: seq<Action>)
    requires actions != []
    ensures var k := |actions| - 1;
      Run(w, s, actions) == Next(w, Run(w, s, actions[..k]), actions[k])
  {
    var k := |actions| - 1;
    assert actions == actions[..k] + [actions[k]];
    RunAppend(w, s, actions[..k], [actions[k]]);
    var t := Run(w, s, actions[..k]);
    assert [actions[k]][1..] == [];
    assert Run(w, t, [actions[k]]) == Run(w, Next(w, t, actions[k]), []);
  }

  /** The i-th action is a registration that succeeds, and no deregistration comes after it. */
  predicate RegistersAt(actions: seq<Action>, i: int) {
    0 <= i < |actions| && actions[i] == Register(true) && forall j :: i < j < |actions| ==> !actions[j].Deregister?
  }

  /** A manager is registered exactly if it registered with success and has not deregistered since. */
  lemma {:induction false} RegisteredExactly(w: Window, actions: seq<Action>)
    ensures Run(w, INITIAL, actions).registered <==> exists i :: RegistersAt(actions, i)
    decreases |actions|
  {
    if actions != [] {
      var k := |actions| - 1;
      var init := actions[..k];
      RunLast(w, INITIAL, actions);
      RegisteredExactly(w, init);
      if i :| RegistersAt(init, i) && !actions[k].Deregister? {
        assert RegistersAt(actions, i);
      }
      if i :| RegistersAt(actions, i) {
        assert i < k ==> RegistersAt(init, i);
      }
      assert actions[k] == Register(true) ==> RegistersAt(actions, k);
    }
  }

  /** An action before which the manager is in state `s` does not take the focus from `c`: it
      focuses no other node, does not clear `c`, and is no deregistration of a registered manager. */
  predicate Keeps(w: Window, s: State, a: Action, c: int) {
    match a
    case Focus(id) => id == c || id !in w.ids
    case Clear(id) => id != c
    case Register(_) => true
    case Deregister => !s.registered
  }

  /** The i-th action focuses `c`, and no later one takes the focus from it. */
  predicate FocusesAt(w: Window, actions: seq<Action>, c: int, i: int) {
    && 0 <= i < |actions| && actions[i] == Focus(c) && c in w.ids
    && forall j :: i < j < |actions| ==> Keeps(w, Run(w, INITIAL, actions[..j]), actions[j], c)
  }

  lemma FocusesAtInit(w: Window, actions: seq<Action>, c: int, i: int)
    requires 0 <= i < |actions| - 1
    ensures var k := |actions| - 1; var init := actions[..k];
      FocusesAt(w, actions, c, i) <==> FocusesAt(w, init, c, i) && Keeps(w, Run(w, INITIAL, init), actions[k], c)
  {
    var init := actions[..|actions| - 1];
    assert forall j :: i < j < |init| ==> init[..j] == actions[..j] && init[j] == actions[j];
  }

  /** The current focus is the node focused last, unless it was cleared or deregistered since. */
  lemma {:induction false} CurrentExactly(w: Window, actions: seq<Action>, c: int)
    requires w.Valid() && c != NONE
    ensures Run(w, INITIAL, actions).current == c <==> exists i :: FocusesAt(w, actions, c, i)
    decreases |actions|
  {
    if actions != [] {
      var k := |actions| - 1;
      var init := actions[..k];
      RunLast(w, INITIAL, actions);
      CurrentExactly(w, init, c);
      forall i | 0 <= i < k
        ensures FocusesAt(w, actions, c, i)
           <==> FocusesAt(w, init, c, i) && Keeps(w, Run(w, INITIAL, init), actions[k], c)
      {
        FocusesAtInit(w, actions, c, i);
      }
      if i :| FocusesAt(w, init, c, i) && Keeps(w, Run(w, INITIAL, init), actions[k], c) {
        assert FocusesAt(w, actions, c, i);
      }
      if i :| FocusesAt(w, actions, c, i) {
        assert i < k ==> FocusesAt(w, init, c, i);
      }
      assert actions[k] == Focus(c) && c in w.ids ==> FocusesAt(w, actions, c, k);
    }
  }

  /** The i-th action focuses the web core `c`, and no later one clears it while it is the current
      focus. */
  predicate MarksAt(w: Window, actions: seq<Action>, c: int, i: int) {
    && 0 <= i < |actions| && actions[i] == Focus(c)
    && forall j :: i < j < |actions| ==> actions[j] == Clear(c) ==> Run(w, INITIAL, actions[..j]).current != c
  }

  lemma MarksAtInit(w: Window, actions: seq<Action>, c: int, i: int)
    requires 0 <= i < |actions| - 1
    ensures var k := |actions| - 1; var init := actions[..k];
      MarksAt(w, actions, c, i)
      <==> MarksAt(w, init, c, i) && (actions[k] == Clear(c) ==> Run(w, INITIAL, init).current != c)
  {
    var init := actions[..|actions| - 1];
    assert forall j :: i < j < |init| ==> init[..j] == actions[..j] && init[j] == actions[j];
  }

  lemma {:induction false} CurrentIsMarked(w: Window, actions: seq<Action>)
    requires w.Valid()
    ensures var s := Run(w, INITIAL, actions); s.current != NONE ==> s.current in s.focused
    decreases |actions|
  {
    if actions != [] {
      RunLast(w, INITIAL, actions);
      CurrentIsMarked(w, actions[..|actions| - 1]);
    }
  }

  /** The flag of a web core is left set when the focus moves on and when the manager deregisters:
      only a clear of the current focus resets it. */
  lemma {:induction false} WebFlagExactly(w: Window, actions: seq<Action>, c: int)
    requires w.Valid() && c in w.web
    ensures c in Run(w, INITIAL, actions).focused <==> exists i :: MarksAt(w, actions, c, i)
    decreases |actions|
  {
    if actions != [] {
      var k := |actions| - 1;
      var init := actions[..k];
      RunLast(w, INITIAL, actions);
      WebFlagExactly(w, init, c);
      CurrentIsMarked(w, init);
      forall i | 0 <= i < k
        ensures MarksAt(w, actions, c, i)
           <==> MarksAt(w, init, c, i) && (actions[k] == Clear(c) ==> Run(w, INITIAL, init).current != c)
      {
        MarksAtInit(w, actions, c, i);
      }
      if i :| MarksAt(w, init, c, i) && (actions[k] == Clear(c) ==> Run(w, INITIAL, init).current != c) {
        assert MarksAt(w, actions, c, i);
      }
      if i :| MarksAt(w, actions, c, i) {
        assert i < k ==> MarksAt(w, init, c, i);
      }
      assert actions[k] == Focus(c) ==> MarksAt(w, actions, c, k);
    }
  }

  /** A run that ends with two focused nodes: the failed clear makes deregistration forget the
      first one. */
  lemma TwoFocusedNodes()
    ensures var w := Window({1, 2}, {});
      Run(w, INITIAL, [Register(true), Focus(1), Clear(2), Deregister, Focus(2)]).focused == {1, 2}
  {
    var w := Window({1, 2}, {});
    var s := Next(w, Next(w, Next(w, INITIAL, Register(true)), Focus(1)), Clear(2));
    assert s == State({1}, 1, 2, true);
    assert Next(w, s, Deregister) == State({1}, NONE, NONE, false);
  }
}
