/** Epoch-guarded handles into a JSON tree (`src/json.rs`).

    A handle holds a raw node address. A modification may free nodes and the allocator may hand their
    addresses out again, so nothing but the epoch test keeps a handle from reaching a wrong node. A
    value carries its address and an identity that stays with it; a handle is right when its address
    leads to the value it was made for. */
module JsonHandles {
  import opened Bytes

  // ---------------------------------------------------------------- the tree

  datatype Value = Value(addr: nat, id: nat, children: Values)
  datatype Values = Nil | Cons(first: Value, rest: Values)

  function Addrs(v: Value): (a: set<nat>) { {v.addr} + AddrsOf(v.children) }

  function AddrsOf(vs: Values): (a: set<nat>) {
    match vs
    case Nil => {}
    case Cons(v, rest) => Addrs(v) + AddrsOf(rest)
  }

  /** Live values have different addresses. */
  predicate Distinct(v: Value) { v.addr !in AddrsOf(v.children) && DistinctAll(v.children) }

  predicate DistinctAll(vs: Values) {
    match vs
    case Nil => true
    case Cons(v, rest) => Distinct(v) && DistinctAll(rest) && Addrs(v) !! AddrsOf(rest)
  }

  /** The value at an address, when it is live. */
  function Locate(v: Value, a: nat): (r: Option<Value>) {
    if v.addr == a then Some(v) else LocateIn(v.children, a)
  }

  function LocateIn(vs: Values, a: nat): (r: Option<Value>) {
    match vs
    case Nil => None
    case Cons(v, rest) => var r := Locate(v, a); if r.Some? then r else LocateIn(rest, a)
  }

  /** The tree with another value written at an address. */
  function Write(v: Value, a: nat, new': Value): (r: Value) {
    if v.addr == a then new' else v.(children := WriteIn(v.children, a, new'))
  }

  function WriteIn(vs: Values, a: nat, new': Value): (r: Values) {
    match vs
    case Nil => Nil
    case Cons(v, rest) => Cons(Write(v, a, new'), WriteIn(rest, a, new'))
  }

  lemma {:induction false} LocateIff(v: Value, a: nat)
    ensures Locate(v, a).Some? <==> a in Addrs(v)
    ensures Locate(v, a).Some? ==> Locate(v, a).value.addr == a
  {
    LocateInIff(v.children, a);
  }

  lemma {:induction false} LocateInIff(vs: Values, a: nat)
    ensures LocateIn(vs, a).Some? <==> a in AddrsOf(vs)
    ensures LocateIn(vs, a).Some? ==> LocateIn(vs, a).value.addr == a
  {
    if vs.Cons? { LocateIff(vs.first, a); LocateInIff(vs.rest, a); }
  }

  /** Inside the value at a live address, an address leads to the same value as from the top. */
  lemma {:induction false} LocateNested(v: Value, a: nat, b: nat)
    requires Distinct(v) && Locate(v, a).Some? && Locate(Locate(v, a).value, b).Some?
    ensures Locate(v, b) == Locate(Locate(v, a).value, b)
  {
    if v.addr != a {
      LocateNestedIn(v.children, a, b);
      LocateInIff(v.children, b);
    }
  }

  lemma {:induction false} LocateNestedIn(vs: Values, a: nat, b: nat)
    requires DistinctAll(vs) && LocateIn(vs, a).Some? && Locate(LocateIn(vs, a).value, b).Some?
    ensures LocateIn(vs, b) == Locate(LocateIn(vs, a).value, b)
  {
    LocateIff(vs.first, b);
    if Locate(vs.first, a).Some? {
      LocateNested(vs.first, a, b);
    } else {
      LocateNestedIn(vs.rest, a, b);
      LocateInIff(vs.rest, b);
    }
  }

  lemma {:induction false} LocateWritten(v: Value, a: nat, new': Value)
    requires Locate(v, a).Some? && new'.addr == a
    ensures Locate(Write(v, a, new'), a) == Some(new')
  {
    if v.addr != a { LocateWrittenIn(v.children, a, new'); }
  }

  lemma {:induction false} LocateWrittenIn(vs: Values, a: nat, new': Value)
    requires LocateIn(vs, a).Some? && new'.addr == a
    ensures LocateIn(WriteIn(vs, a, new'), a) == Some(new')
  {
    if Locate(vs.first, a).Some? {
      LocateWritten(vs.first, a, new');
    } else {
      LocateIff(vs.first, a);
      WriteElsewhere(vs.first, a, new');
      LocateWrittenIn(vs.rest, a, new');
    }
  }

  lemma {:induction false} WriteElsewhere(v: Value, a: nat, new': Value)
    requires a !in Addrs(v)
    ensures Write(v, a, new') == v
  {
    WriteInElsewhere(v.children, a, new');
  }

  lemma {:induction false} WriteInElsewhere(vs: Values, a: nat, new': Value)
    requires a !in AddrsOf(vs)
    ensures WriteIn(vs, a, new') == vs
  {
    if vs.Cons? { WriteElsewhere(vs.first, a, new'); WriteInElsewhere(vs.rest, a, new'); }
  }

  // ---------------------------------------------------------------- the operations

  /** A handle; `target` is the identity of the value it was made for. */
  datatype Handle = Handle(node: nat, epoch: nat, target: nat)

  /** A call that has run its checks and is now inside the caller's closure. */
  datatype Call = Reading(handle: Handle) | Writing(node: nat, target: nat)

  datatype State = State(
    root: Value, latestEpoch: nat, readers: nat, writer: bool, handles: seq<Handle>, calls: seq<Call>)

  /** Closures may call back into the same tree, so a call is a beginning and an end. A modification
      writes any number of times in between. */
  datatype Event =
    | Clone(h: nat)
    | Root
    | BeginRead(h: nat)
    | EndView
    | EndGet(b: nat)
    | BeginModify(h: nat)
    | Mutate(new': Value)
    | EndModify

  function Init(root: Value): (s: State) {
    State(root, 0, 0, false, [Handle(root.addr, 0, root.id)], [])
  }

  predicate Passes(s: State, h: nat)
    requires h < |s.handles|
  {
    s.handles[h].epoch == s.latestEpoch
  }

  /** The closure that runs now. */
  function Innermost(s: State): (c: Option<Call>) {
    if s.calls == [] then None else Some(s.calls[|s.calls| - 1])
  }

  /** No event is a panic: a passing handle is not used while a writer is active, nor to modify while
      a reader is. What a closure is given limits what it can return and write. */
  predicate Enabled(s: State, e: Event) {
    match e
    case Clone(h) => h < |s.handles|
    case Root => true
    case BeginRead(h) => h < |s.handles| && (Passes(s, h) ==> !s.writer)
    case EndView => Innermost(s).Some? && Innermost(s).value.Reading?
    case EndGet(b) =>
      && Innermost(s).Some? && Innermost(s).value.Reading?
      && var v := Locate(s.root, Innermost(s).value.handle.node);
      v.Some? && Locate(v.value, b).Some?
    case BeginModify(h) => h < |s.handles| && (Passes(s, h) ==> !s.writer && s.readers == 0)
    case Mutate(new') =>
      && Innermost(s).Some? && Innermost(s).value.Writing?
      && new'.addr == Innermost(s).value.node && new'.id == Innermost(s).value.target
      && Distinct(Write(s.root, new'.addr, new'))
    case EndModify => Innermost(s).Some? && Innermost(s).value.Writing?
  }

  function Apply(s: State, e: Event): (t: State)
    requires Enabled(s, e)
  {
    match e
    case Clone(h) => s.(handles := s.handles + [s.handles[h]])
    case Root => s.(handles := s.handles + [Handle(s.root.addr, s.latestEpoch, s.root.id)])
    case BeginRead(h) =>
      if !Passes(s, h) then s
      else s.(readers := s.readers + 1, calls := s.calls + [Reading(s.handles[h])])
    case EndView => s.(readers := if s.readers > 0 then s.readers - 1 else 0, calls := s.calls[..|s.calls| - 1])
    case EndGet(b) =>
      var v := Locate(Locate(s.root, Innermost(s).value.handle.node).value, b).value;
      s.(readers := if s.readers > 0 then s.readers - 1 else 0, calls := s.calls[..|s.calls| - 1],
         handles := s.handles + [Handle(b, Innermost(s).value.handle.epoch, v.id)])
    case BeginModify(h) =>
      if !Passes(s, h) then s
      else
        var g := s.handles[h];
        s.(latestEpoch := s.latestEpoch + 1, writer := true, calls := s.calls + [Writing(g.node, g.target)],
           handles := s.handles[h := g.(epoch := g.epoch + 1)])
    case Mutate(new') => s.(root := Write(s.root, new'.addr, new'))
    case EndModify => s.(writer := false, calls := s.calls[..|s.calls| - 1])
  }

  ghost predicate Run(states: seq<State>, events: seq<Event>) {
    && |states| == |events| + 1
    && Distinct(states[0].root) && states[0] == Init(states[0].root)
    && forall i :: 0 <= i < |events| ==> Enabled(states[i], events[i]) && states[i + 1] == Apply(states[i], events[i])
  }

  // ---------------------------------------------------------------- the invariant

  /** The handle's address leads to the value the handle was made for. */
  predicate Right(root: Value, h: Handle) {
    var v := Locate(root, h.node);
    v.Some? && v.value.id == h.target
  }

  /** Calls in progress: any number of readers, or one writer. */
  predicate CallsAgree(s: State) {
    if s.writer then s.readers == 0 && |s.calls| == 1 && s.calls[0].Writing?
    else s.readers == |s.calls| && forall k :: 0 <= k < |s.calls| ==> s.calls[k].Reading?
  }

  predicate HandleOk(s: State, h: Handle) {
    && h.epoch <= s.latestEpoch
    && (h.epoch == s.latestEpoch ==> Right(s.root, h))
    // While a writer is active only its own handle and the root can pass.
    && (h.epoch == s.latestEpoch && s.writer ==>
          || (h.node == s.root.addr && h.target == s.root.id)
          || (|s.calls| == 1 && s.calls[0] == Writing(h.node, h.target)))
  }

  predicate CallOk(s: State, c: Call) {
    match c
    case Reading(h) => h.epoch == s.latestEpoch && Right(s.root, h)
    case Writing(node, target) => Right(s.root, Handle(node, s.latestEpoch, target))
  }

  predicate Inv(s: State) {
    && Distinct(s.root)
    && CallsAgree(s)
    && (forall k :: 0 <= k < |s.handles| ==> HandleOk(s, s.handles[k]))
    && (forall k :: 0 <= k < |s.calls| ==> CallOk(s, s.calls[k]))
  }

  lemma MutateKeeps(s: State, e: Event)
    requires Inv(s) && Enabled(s, e) && e.Mutate?
    ensures Inv(Apply(s, e))
  {
    hide Distinct, Locate, Write, Inv;
    var t := Apply(s, e);
    var c := s.calls[0];
    assert CallOk(s, c) && CallsAgree(s) && Distinct(t.root) && s.calls == [c] by { InvParts(s); }
    LocateWritten(s.root, e.new'.addr, e.new');
    RootStays(s.root, e.new'.addr, e.new');
    forall k | 0 <= k < |t.handles|
      ensures HandleOk(t, t.handles[k])
    {
      HandleParts(s, k);
    }
    assert CallOk(t, c);
    InvFromParts(t);
  }

  lemma InvParts(s: State)
    requires Inv(s)
    ensures Distinct(s.root) && CallsAgree(s)
    ensures forall k :: 0 <= k < |s.calls| ==> CallOk(s, s.calls[k])
    ensures s.writer ==> s.calls == [s.calls[0]]
  {
  }

  lemma HandleParts(s: State, k: nat)
    requires Inv(s) && k < |s.handles|
    ensures HandleOk(s, s.handles[k])
  {
  }

  lemma InvFromParts(s: State)
    requires Distinct(s.root) && CallsAgree(s)
    requires forall k :: 0 <= k < |s.handles| ==> HandleOk(s, s.handles[k])
    requires forall k :: 0 <= k < |s.calls| ==> CallOk(s, s.calls[k])
    ensures Inv(s)
  {
  }

  /** The root value lives in the tree object itself: its address always leads to it. */
  lemma RootStays(root: Value, a: nat, new': Value)
    requires new'.addr == a && Locate(root, a).Some? && new'.id == Locate(root, a).value.id
    ensures Write(root, a, new').addr == root.addr && Write(root, a, new').id == root.id
    ensures Right(Write(root, a, new'), Handle(root.addr, 0, root.id))
  {
  }

  lemma GetKeeps(s: State, e: Event)
    requires Inv(s) && Enabled(s, e) && e.EndGet?
    ensures Inv(Apply(s, e))
  {
    hide Distinct, Locate;
    var h := Innermost(s).value.handle;
    assert CallOk(s, s.calls[|s.calls| - 1]);
    LocateNested(s.root, h.node, e.b);
  }

  lemma StepKeeps(s: State, e: Event)
    requires Inv(s) && Enabled(s, e)
    ensures Inv(Apply(s, e))
  {
    if e.Mutate? {
      MutateKeeps(s, e);
    } else if e.EndGet? {
      GetKeeps(s, e);
    } else if e.BeginModify? {
      BeginModifyKeeps(s, e);
    } else {
      hide Distinct;
      if e.Root? { assert Locate(s.root, s.root.addr) == Some(s.root); }
      hide Locate;
    }
  }

  lemma BeginModifyKeeps(s: State, e: Event)
    requires Inv(s) && Enabled(s, e) && e.BeginModify?
    ensures Inv(Apply(s, e))
  {
    hide Distinct, Locate;
    var t := Apply(s, e);
    if Passes(s, e.h) {
      HandleParts(s, e.h);
      forall k | 0 <= k < |t.handles|
        ensures HandleOk(t, t.handles[k])
      {
        HandleParts(s, k);
      }
    }
  }

  // ---------------------------------------------------------------- whole runs

  /** In every run a handle that passes the epoch test leads to a live value of the current tree, the
      one it was made for. */
  lemma {:induction false} PassingHandlesAreRight(states: seq<State>, events: seq<Event>, i: nat)
    requires Run(states, events) && i < |states|
    ensures Inv(states[i])
    ensures forall h: nat :: h < |states[i].handles| && Passes(states[i], h) ==>
              Right(states[i].root, states[i].handles[h])
  {
    if i > 0 {
      PassingHandlesAreRight(states, events, i - 1);
      StepKeeps(states[i - 1], events[i - 1]);
    }
    hide Right;
    forall h: nat | h < |states[i].handles| && Passes(states[i], h)
      ensures Right(states[i].root, states[i].handles[h])
    {
      HandleParts(states[i], h);
    }
  }

  /** A modification through another handle begins at step `i`. */
  predicate Overtakes(s: State, e: Event, h: nat) {
    e.BeginModify? && e.h != h && e.h < |s.handles| && Passes(s, e.h)
  }

  lemma PassesStep(s: State, e: Event, h: nat)
    requires Inv(s) && Enabled(s, e) && h < |s.handles|
    ensures h < |Apply(s, e).handles|
    ensures Passes(Apply(s, e), h) <==> Passes(s, h) && !Overtakes(s, e, h)
  {
    hide Distinct, Locate;
    HandleParts(s, h);
  }

  /** Exactly which handles are refused. A handle that exists at time `i` passes at a later time `j`
      if and only if it passed at time `i` and no modification through another handle began since. */
  lemma {:induction false} RefusedForever(states: seq<State>, events: seq<Event>, i: nat, j: nat, h: nat)
    requires Run(states, events) && i <= j < |states| && h < |states[i].handles|
    ensures h < |states[j].handles|
    ensures Passes(states[j], h) <==>
            Passes(states[i], h) && forall k :: i <= k < j ==> !Overtakes(states[k], events[k], h)
  {
    hide Apply, Enabled, Inv, Init, Distinct, Passes, Overtakes;
    if i < j {
      RefusedForever(states, events, i, j - 1, h);
      PassingHandlesAreRight(states, events, j - 1);
      PassesStep(states[j - 1], events[j - 1], h);
    }
  }

  /** A clone made at time `i` is the same handle at another place: at any later time it passes exactly when
      it passed then and no modification, not even through its original, began since; and as long as none
      began, it and its original lead to the same value. */
  lemma CloneIsACopy(states: seq<State>, events: seq<Event>, i: nat, j: nat, h: nat)
    requires Run(states, events) && i < |events| && events[i] == Clone(h) && i < j < |states|
    ensures var clone := |states[i].handles|;
            && h < clone < |states[j].handles| && states[i + 1].handles[clone] == states[i].handles[h]
            && (Passes(states[j], clone) <==>
                Passes(states[i], h) && forall k :: i < k < j ==> !Overtakes(states[k], events[k], clone))
            && (Passes(states[j], clone) && Passes(states[j], h) ==>
                  forall k :: i < k < j ==> !Modifies(states[k], events[k]))
  {
    var clone := |states[i].handles|;
    assert Enabled(states[i], events[i]) && states[i + 1] == Apply(states[i], events[i]);
    hide Apply, Enabled, Distinct;
    RefusedForever(states, events, i + 1, j, clone);
    RefusedForever(states, events, i + 1, j, h);
    hide Run;
    forall k | i < k < j && Passes(states[j], clone) && Passes(states[j], h)
      ensures !Modifies(states[k], events[k])
    {
      assert !Overtakes(states[k], events[k], clone) && !Overtakes(states[k], events[k], h);
    }
  }

  /** A modification that is not refused begins. */
  predicate Modifies(s: State, e: Event) {
    e.BeginModify? && e.h < |s.handles| && Passes(s, e.h)
  }

  /** What a closure reads stays as it is: as long as a reader is active the tree does not change. */
  lemma {:induction false} ReadersSeeOneTree(states: seq<State>, events: seq<Event>, i: nat, j: nat)
    requires Run(states, events) && i <= j < |states|
    requires forall k :: i <= k < j ==> states[k].readers > 0
    ensures states[j].root == states[i].root
  {
    if i < j {
      ReadersSeeOneTree(states, events, i, j - 1);
      PassingHandlesAreRight(states, events, j - 1);
      InvParts(states[j - 1]);
    }
  }

  /** No step reads or writes through a dangling pointer: a reader that starts or ends and a writer
      that starts or writes does so at the address of a live value. */
  lemma DereferencesAreLive(states: seq<State>, events: seq<Event>, i: nat)
    requires Run(states, events) && i < |events|
    ensures var s, e := states[i], events[i];
            && ((e.BeginRead? || e.BeginModify?) && Passes(s, e.h) ==> Locate(s.root, s.handles[e.h].node).Some?)
            && (e.EndView? || e.EndGet? ==> Locate(s.root, Innermost(s).value.handle.node).Some?)
            && (e.Mutate? ==> Locate(s.root, e.new'.addr).Some?)
  {
    PassingHandlesAreRight(states, events, i);
    var s, e := states[i], events[i];
    InvParts(s);
    if Innermost(s).Some? { assert CallOk(s, s.calls[|s.calls| - 1]); }
  }

  // ---------------------------------------------------------------- the objects

  predicate Possible(s: State, events: seq<Event>)
    decreases |events|
  {
    events == [] || (Enabled(s, events[0]) && Possible(Apply(s, events[0]), events[1..]))
  }

  function Follow(s: State, events: seq<Event>): (t: State)
    requires Possible(s, events)
    decreases |events|
  {
    if events == [] then s else Follow(Apply(s, events[0]), events[1..])
  }

  /** What a `get` does to the protocol; `found` is what the mapper gave, if it was called. */
  function GetEvents(h: nat, found: Option<Option<nat>>): (events: seq<Event>) {
    match found
    case None => [BeginRead(h)]
    case Some(None) => [BeginRead(h), EndView]
    case Some(Some(b)) => [BeginRead(h), EndGet(b)]
  }

  lemma TwoSteps(s: State, a: Event, b: Event)
    requires Enabled(s, a) && Enabled(Apply(s, a), b)
    ensures Possible(s, [a, b]) && Follow(s, [a, b]) == Apply(Apply(s, a), b)
  {
    hide Apply, Enabled;
    var s1, t := Apply(s, a), Apply(Apply(s, a), b);
    assert [a, b][1..] == [b] && [b][1..] == [];
    assert Possible(t, []) && Possible(s1, [b]);
    assert Follow(t, []) == t && Follow(s1, [b]) == t;
  }

  lemma OneStep(s: State, a: Event)
    requires Enabled(s, a)
    ensures Possible(s, [a]) && Follow(s, [a]) == Apply(s, a)
  {
    hide Apply, Enabled;
    assert [a][1..] == [];
    assert Possible(Apply(s, a), []) && Follow(Apply(s, a), []) == Apply(s, a);
  }

  /** A read leaves everything as it was, except that a successful `get` makes a handle. */
  lemma GetSteps(s: State, h: nat, found: Option<Option<nat>>) returns (g: Handle)
    requires h < |s.handles| && (Passes(s, h) ==> !s.writer) && (found.Some? <==> Passes(s, h))
    requires found.Some? && found.value.Some? ==>
               var v := Locate(s.root, s.handles[h].node); v.Some? && Locate(v.value, found.value.value).Some?
    ensures Possible(s, GetEvents(h, found))
    ensures if found.Some? && found.value.Some?
            then
              && Follow(s, GetEvents(h, found)) == s.(handles := s.handles + [g])
              && g.node == found.value.value && g.epoch == s.latestEpoch
            else Follow(s, GetEvents(h, found)) == s
  {
    hide Locate, Possible, Follow;
    g := s.handles[h];
    if found.None? {
      OneStep(s, BeginRead(h));
    } else {
      var s1 := Apply(s, BeginRead(h));
      assert s1.calls[..|s.calls|] == s.calls;
      var end := if found.value.Some? then EndGet(found.value.value) else EndView;
      TwoSteps(s, BeginRead(h), end);
      if found.value.Some? { g := Apply(s1, end).handles[|s.handles|]; }
    }
  }

  /** A modification that writes `v` through handle `h`. */
  function ModifyEvents(h: nat, v: Value): (events: seq<Event>) { [BeginModify(h), Mutate(v), EndModify] }

  lemma ModifySteps(s: State, h: nat, v: Value)
    requires h < |s.handles| && Passes(s, h) && !s.writer && s.readers == 0
    requires v.addr == s.handles[h].node && v.id == s.handles[h].target && Distinct(Write(s.root, v.addr, v))
    ensures Possible(s, ModifyEvents(h, v))
    ensures var g := s.handles[h];
            Follow(s, ModifyEvents(h, v)) ==
            s.(root := Write(s.root, v.addr, v), latestEpoch := s.latestEpoch + 1,
               handles := s.handles[h := g.(epoch := g.epoch + 1)])
  {
    hide Distinct, Write;
    var events := ModifyEvents(h, v);
    assert events[1..] == [Mutate(v), EndModify] && events[1..][1..] == [EndModify] && [EndModify][1..] == [];
    var s1 := Apply(s, BeginModify(h));
    var s2 := Apply(s1, Mutate(v));
    var t := Apply(s2, EndModify);
    assert s1.calls[..|s.calls|] == s.calls;
    assert Possible(t, []) && Possible(s2, [EndModify]) && Possible(s1, events[1..]);
    assert Follow(t, []) == t && Follow(s2, [EndModify]) == t && Follow(s1, events[1..]) == t;
  }

  class Tree {
    var root: Value
    var latestEpoch: nat
    var readers: nat
    var writer: bool

    constructor (root: Value)
      ensures this.root == root && latestEpoch == 0 && readers == 0 && !writer
    {
      this.root, latestEpoch, readers, writer := root, 0, 0, false;
    }
  }

  /** A handle as an object. The closures here do not call back into the tree; calls from inside a
      reader's closure are calls with `readers` above zero. */
  class JsonRef {
    const tree: Tree
    const node: nat
    var epoch: nat

    predicate Valid()
      reads this, tree
    {
      epoch <= tree.latestEpoch && (epoch == tree.latestEpoch ==> Locate(tree.root, node).Some?)
    }

    /** The object is handle `h` of this state of the protocol, and its tree is the tree of that state. */
    ghost predicate Shows(s: State, h: nat)
      reads this, tree
    {
      && h < |s.handles| && s.handles[h].node == node && s.handles[h].epoch == epoch
      && tree.root == s.root && tree.latestEpoch == s.latestEpoch
      && tree.readers == s.readers && tree.writer == s.writer
    }

    constructor (tree: Tree, node: nat, epoch: nat)
      ensures this.tree == tree && this.node == node && this.epoch == epoch
    {
      this.tree, this.node, this.epoch := tree, node, epoch;
    }

    method Root() returns (r: JsonRef)
      ensures fresh(r) && r.tree == tree && r.Valid()
      ensures r.epoch == tree.latestEpoch && Locate(tree.root, r.node) == Some(tree.root)
      ensures forall s: State, h: nat :: Shows(s, h) ==> r.Shows(Apply(s, Event.Root), |s.handles|)
    {
      r := new JsonRef(tree, tree.root.addr, tree.latestEpoch);
    }

    /** A handle on what the mapper finds. It is valid exactly when that is a value of the tree, and then
        the call is a reader's beginning and end in the protocol. */
    method Get(mapper: Value -> Option<nat>) returns (r: Option<Option<JsonRef>>)
      requires Valid() && Distinct(tree.root) && (epoch == tree.latestEpoch ==> !tree.writer)
      modifies tree`readers
      ensures tree.readers == old(tree.readers)
      ensures r.Some? <==> epoch == tree.latestEpoch
      ensures r.Some? ==>
                var v := Locate(tree.root, node).value;
                && (r.value.Some? <==> mapper(v).Some?)
                && (r.value.Some? ==>
                      var child := r.value.value;
                      && child.tree == tree && child.epoch == tree.latestEpoch && child.node == mapper(v).value
                      && (Locate(v, child.node).Some? ==>
                            child.Valid() && Locate(tree.root, child.node) == Locate(v, child.node)))
      ensures forall s: State, h: nat :: Shows(s, h) && Inside(r) ==> GetShown(s, h, r)
    {
      var latest := tree.latestEpoch;
      if epoch == latest {
        var v := Locate(tree.root, node).value;
        tree.readers := tree.readers + 1;
        var found := mapper(v);
        tree.readers := tree.readers - 1;
        if found.None? {
          r := Some(None);
        } else {
          if Locate(v, found.value).Some? { LocateNested(tree.root, node, found.value); }
          var child := new JsonRef(tree, found.value, latest);
          r := Some(Some(child));
        }
      } else {
        r := None;
      }
      hide Distinct, Locate, Possible, Follow, GetEvents, LocateIn;
      forall s: State, h: nat | Shows(s, h) && Inside(r)
        ensures GetShown(s, h, r)
      {
        var g := GetSteps(s, h, Found(r));
      }
    }

    /** What a mapper gave, as seen from the handle that was made. */
    ghost function Found(r: Option<Option<JsonRef>>): (found: Option<Option<nat>>) {
      match r
      case None => None
      case Some(None) => Some(None)
      case Some(Some(child)) => Some(Some(child.node))
    }

    /** The mapper gave no value, or one inside the value it was called with. */
    ghost predicate Inside(r: Option<Option<JsonRef>>)
      requires r.Some? ==> Locate(tree.root, node).Some?
      reads tree
    {
      r.Some? && r.value.Some? ==> Locate(Locate(tree.root, node).value, r.value.value.node).Some?
    }

    /** The protocol can make the same step, and then shows the tree, this handle and the new one. */
    ghost predicate GetShown(s: State, h: nat, r: Option<Option<JsonRef>>)
      reads this, tree, if r.Some? && r.value.Some? then {r.value.value, r.value.value.tree} else {}
    {
      var events := GetEvents(h, Found(r));
      && Possible(s, events) && Shows(Follow(s, events), h)
      && (r.Some? && r.value.Some? ==> r.value.value.Shows(Follow(s, events), |s.handles|))
    }

    method View<R>(view: Value -> R) returns (r: Option<R>)
      requires Valid() && (epoch == tree.latestEpoch ==> !tree.writer)
      modifies tree`readers
      ensures tree.readers == old(tree.readers)
      ensures r == if epoch == tree.latestEpoch then Some(view(Locate(tree.root, node).value)) else None
      ensures forall s: State, h: nat :: Shows(s, h) ==>
                var events := GetEvents(h, if r.Some? then Some(None) else None);
                Possible(s, events) && Follow(s, events) == s
    {
      if epoch == tree.latestEpoch {
        tree.readers := tree.readers + 1;
        r := Some(view(Locate(tree.root, node).value));
        tree.readers := tree.readers - 1;
      } else {
        r := None;
      }
      hide Locate, Possible, Follow, GetEvents;
      forall s: State, h: nat | Shows(s, h)
        ensures var events := GetEvents(h, if r.Some? then Some(None) else None);
                Possible(s, events) && Follow(s, events) == s
      {
        var g := GetSteps(s, h, if r.Some? then Some(None) else None);
      }
    }

    /** Writes through the handle; every other handle on the tree is refused from then on. In the protocol
        this is the beginning of a modification, a write that keeps the value's identity, and the end. */
    method Modify(change: Value -> Value) returns (ok: bool)
      requires Valid() && Distinct(tree.root) && (epoch == tree.latestEpoch ==> !tree.writer && tree.readers == 0)
      requires epoch == tree.latestEpoch ==>
                 var v := change(Locate(tree.root, node).value); v.addr == node && Distinct(Write(tree.root, node, v))
      modifies this, tree
      ensures Valid() && Distinct(tree.root) && tree.writer == old(tree.writer) && tree.readers == old(tree.readers)
      ensures ok <==> old(epoch == tree.latestEpoch)
      ensures !ok ==> unchanged(this) && unchanged(tree)
      ensures ok ==>
                && epoch == tree.latestEpoch == old(tree.latestEpoch) + 1
                && Locate(tree.root, node) == Some(change(old(Locate(tree.root, node).value)))
                && tree.root == Write(old(tree.root), node, Locate(tree.root, node).value)
      ensures ok ==>
                forall h: JsonRef :: old(allocated(h)) && h != this && h.tree == tree && old(h.Valid()) ==>
                  h.Valid() && h.epoch != tree.latestEpoch
      ensures ok ==>
                var v := Locate(tree.root, node).value;
                forall s: State, h: nat :: old(Shows(s, h)) && s.handles[h].target == v.id ==>
                  Possible(s, ModifyEvents(h, v)) && Shows(Follow(s, ModifyEvents(h, v)), h)
    {
      if epoch != tree.latestEpoch { return false; }
      tree.latestEpoch := tree.latestEpoch + 1;
      epoch := epoch + 1;
      tree.writer := true;
      var v := change(Locate(tree.root, node).value);
      LocateWritten(tree.root, node, v);
      tree.root := Write(tree.root, node, v);
      tree.writer := false;
      ok := true;
      hide Distinct, Locate, Write, Possible, Follow, ModifyEvents;
      forall s: State, h: nat | old(Shows(s, h)) && s.handles[h].target == v.id
        ensures Possible(s, ModifyEvents(h, v)) && Shows(Follow(s, ModifyEvents(h, v)), h)
      {
        ModifySteps(s, h, v);
      }
    }
  }
}
