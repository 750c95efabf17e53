/** Connection hand-off between workers (`src/handoff.rs`): a shared counter assigns each accepted
    connection to a worker in turn, and connections travel between workers through channels. */
module Handoff {
  import opened Bytes

  const U64: nat := 0x1_0000_0000_0000_0000

  /** `targets` are the workers drawn for the connections so far; `held` are the connections a worker
      has drawn a target for and not yet placed. */
  datatype State = State(
    next: nat, targets: seq<nat>, targeted: seq<nat>, alive: seq<bool>,
    held: seq<seq<nat>>, queues: seq<seq<nat>>, served: seq<seq<nat>>, closed: seq<nat>)

  /** Connections are numbered in the order of their draws. `ok` says whether the operating system
      lets a worker take over or take back a descriptor. */
  datatype Event =
    | Draw(w: nat)
    | Place(w: nat, ok: bool)
    | Adopt(w: nat, ok: bool)
    | Exit(w: nat)

  function Workers(s: State): (n: nat) { |s.targeted| }

  predicate Shape(s: State) {
    && |s.targeted| == |s.alive| == |s.held| == |s.queues| == |s.served| && |s.targeted| > 0
    && (forall c :: 0 <= c < |s.targets| ==> s.targets[c] < |s.targeted|)
    && (forall w, i :: 0 <= w < |s.held| && 0 <= i < |s.held[w]| ==> s.held[w][i] < |s.targets|)
  }

  predicate Enabled(s: State, e: Event) {
    && Shape(s) && e.w < Workers(s)
    && (e.Draw? ==> s.alive[e.w])
    && (e.Place? ==> s.held[e.w] != [])
    && (e.Adopt? ==> s.alive[e.w] && s.queues[e.w] != [])
    && (e.Exit? ==> s.alive[e.w])
  }

  function Apply(s: State, e: Event): (t: State)
    requires Enabled(s, e)
  {
    var w := e.w;
    match e
    case Draw(_) =>
      var target := s.next % Workers(s);
      s.(next := (s.next + 1) % U64, targets := s.targets + [target],
         targeted := s.targeted[target := s.targeted[target] + 1],
         held := s.held[w := s.held[w] + [|s.targets|]])
    case Place(_, ok) =>
      var conn := s.held[w][0];
      var target := s.targets[conn];
      var t := s.(held := s.held[w := s.held[w][1..]]);
      if target == w then t.(served := s.served[w := s.served[w] + [conn]])
      else if s.alive[target] then t.(queues := s.queues[target := s.queues[target] + [conn]])
      else if ok then t.(served := s.served[w := s.served[w] + [conn]])
      else t.(closed := s.closed + [conn])
    case Adopt(_, ok) =>
      var conn := s.queues[w][0];
      var t := s.(queues := s.queues[w := s.queues[w][1..]]);
      if ok then t.(served := s.served[w := s.served[w] + [conn]]) else t.(closed := s.closed + [conn])
    case Exit(_) =>
      s.(alive := s.alive[w := false], closed := s.closed + s.queues[w], queues := s.queues[w := []])
  }

  function Init(n: nat): (s: State) {
    State(0, [], seq(n, i => 0), seq(n, i => true), seq(n, i => []), seq(n, i => []), seq(n, i => []), [])
  }

  ghost predicate Run(n: nat, states: seq<State>, events: seq<Event>) {
    && n > 0 && |states| == |events| + 1 && states[0] == Init(n)
    && forall i :: 0 <= i < |events| ==> Enabled(states[i], events[i]) && states[i + 1] == Apply(states[i], events[i])
  }

  // ---------------------------------------------------------------- balance

  /** After `d` draws worker `w` has been the target this often. */
  function Share(d: nat, w: nat, n: nat): (k: nat)
    requires n > 0
  {
    d / n + if w < d % n then 1 else 0
  }

  lemma ShareStep(d: nat, w: nat, n: nat)
    requires w < n
    ensures Share(d + 1, w, n) == Share(d, w, n) + if w == d % n then 1 else 0
  {
    var q, r := d / n, d % n;
    assert d == q * n + r;
    if r + 1 < n {
      DivModUnique(d + 1, n, q, r + 1);
    } else {
      assert (q + 1) * n == q * n + n;
      DivModUnique(d + 1, n, q + 1, 0);
    }
  }

  predicate Balanced(s: State) {
    Shape(s) && (|s.targets| < U64 ==> s.next == |s.targets|) &&
    (|s.targets| <= U64 ==> forall w :: 0 <= w < Workers(s) ==> s.targeted[w] == Share(|s.targets|, w, Workers(s)))
  }

  lemma BalanceKept(s: State, e: Event)
    requires Balanced(s) && Enabled(s, e)
    ensures Balanced(Apply(s, e)) && Workers(Apply(s, e)) == Workers(s)
  {
    hide Share;
    var t := Apply(s, e);
    if e.Draw? && |s.targets| < U64 {
      forall w | 0 <= w < Workers(s)
        ensures t.targeted[w] == Share(|t.targets|, w, Workers(s))
      {
        ShareStep(|s.targets|, w, Workers(s));
      }
    }
  }

  /** Whoever accepts, the numbers of connections assigned to any two workers differ by at most one. */
  lemma {:induction false} RoundRobin(n: nat, states: seq<State>, events: seq<Event>, j: nat)
    requires Run(n, states, events) && j < |states|
    ensures Balanced(states[j]) && Workers(states[j]) == n
    ensures |states[j].targets| <= U64 ==>
              forall a, b :: 0 <= a < n && 0 <= b < n ==> states[j].targeted[a] <= states[j].targeted[b] + 1
  {
    if j > 0 {
      hide Balanced, Shape;
      RoundRobin(n, states, events, j - 1);
      BalanceKept(states[j - 1], events[j - 1]);
    } else {
      assert Balanced(states[0]);
    }
    SharesClose(states[j]);
  }

  lemma SharesClose(s: State)
    requires Balanced(s)
    ensures |s.targets| <= U64 ==>
              forall a, b :: 0 <= a < Workers(s) && 0 <= b < Workers(s) ==> s.targeted[a] <= s.targeted[b] + 1
  {
  }

  // ---------------------------------------------------------------- exactly one place

  function Count(l: seq<nat>, c: nat): (k: nat) {
    if l == [] then 0 else (if l[0] == c then 1 else 0) + Count(l[1..], c)
  }

  function CountAll(lists: seq<seq<nat>>, c: nat): (k: nat) {
    if lists == [] then 0 else Count(lists[0], c) + CountAll(lists[1..], c)
  }

  /** In how many places the connection is. */
  function Places(s: State, c: nat): (k: nat) {
    CountAll(s.held, c) + CountAll(s.queues, c) + CountAll(s.served, c) + Count(s.closed, c)
  }

  lemma {:induction false} CountJoined(a: seq<nat>, b: seq<nat>, c: nat)
    ensures Count(a + b, c) == Count(a, c) + Count(b, c)
  {
    if a == [] {
      assert a + b == b;
    } else {
      assert (a + b)[1..] == a[1..] + b;
      CountJoined(a[1..], b, c);
    }
  }

  lemma {:induction false} CountUpdated(lists: seq<seq<nat>>, w: nat, l: seq<nat>, c: nat)
    requires w < |lists|
    ensures CountAll(lists[w := l], c) + Count(lists[w], c) == CountAll(lists, c) + Count(l, c)
  {
    if w == 0 {
      assert lists[w := l][1..] == lists[1..];
    } else {
      assert lists[w := l][1..] == lists[1..][w - 1 := l];
      CountUpdated(lists[1..], w - 1, l, c);
    }
  }

  /** One list got one more connection at its end. */
  lemma Pushed(lists: seq<seq<nat>>, w: nat, x: nat, c: nat)
    requires w < |lists|
    ensures CountAll(lists[w := lists[w] + [x]], c) == CountAll(lists, c) + if x == c then 1 else 0
  {
    CountUpdated(lists, w, lists[w] + [x], c);
    CountJoined(lists[w], [x], c);
    assert Count([x], c) == if x == c then 1 else 0;
  }

  /** One list lost its first connection. */
  lemma Popped(lists: seq<seq<nat>>, w: nat, c: nat)
    requires w < |lists| && lists[w] != []
    ensures CountAll(lists[w := lists[w][1..]], c) + (if lists[w][0] == c then 1 else 0) == CountAll(lists, c)
  {
    CountUpdated(lists, w, lists[w][1..], c);
  }

  lemma PlacesKept(s: State, e: Event, c: nat)
    requires Enabled(s, e)
    ensures Places(Apply(s, e), c) == Places(s, c) + if e.Draw? && c == |s.targets| then 1 else 0
  {
    hide CountAll;
    var w := e.w;
    match e
    case Draw(_) => Pushed(s.held, w, |s.targets|, c);
    case Place(_, ok) =>
      Popped(s.held, w, c);
      var conn := s.held[w][0];
      Pushed(s.served, w, conn, c);
      Pushed(s.queues, s.targets[conn], conn, c);
      CountJoined(s.closed, [conn], c);
    case Adopt(_, ok) =>
      Popped(s.queues, w, c);
      Pushed(s.served, w, s.queues[w][0], c);
      CountJoined(s.closed, [s.queues[w][0]], c);
    case Exit(_) =>
      CountUpdated(s.queues, w, [], c);
      CountJoined(s.closed, s.queues[w], c);
  }

  lemma {:induction false} NothingYet(lists: seq<seq<nat>>, c: nat)
    requires forall w :: 0 <= w < |lists| ==> lists[w] == []
    ensures CountAll(lists, c) == 0
  {
    if lists != [] { NothingYet(lists[1..], c); }
  }

  /** In every run each accepted connection is in exactly one place: being placed by one worker, in one
      queue, served by one worker, or closed; and nothing else is anywhere. */
  lemma {:induction false} ExactlyOnePlace(n: nat, states: seq<State>, events: seq<Event>, j: nat, c: nat)
    requires Run(n, states, events) && j < |states|
    ensures Places(states[j], c) == if c < |states[j].targets| then 1 else 0
  {
    hide CountAll, Count;
    if j == 0 {
      var s := states[0];
      NothingYet(s.held, c);
      NothingYet(s.queues, c);
      NothingYet(s.served, c);
      assert Count([], c) == 0 by { CountNone(c); }
    } else {
      hide Places;
      ExactlyOnePlace(n, states, events, j - 1, c);
      PlacesKept(states[j - 1], events[j - 1], c);
      assert |states[j].targets| == |states[j - 1].targets| + if events[j - 1].Draw? then 1 else 0;
    }
  }

  lemma CountNone(c: nat)
    ensures Count([], c) == 0
  {
  }

  /** A connection is closed only because taking it over or back failed, or its worker ended while it
      was still queued there. */
  lemma ClosedOnlyThen(s: State, e: Event, c: nat)
    requires Enabled(s, e) && Count(Apply(s, e).closed, c) > Count(s.closed, c)
    ensures || (e.Place? && !e.ok && !s.alive[s.targets[s.held[e.w][0]]])
            || (e.Adopt? && !e.ok)
            || (e.Exit? && c in s.queues[e.w])
  {
    if e.Exit? {
      CountJoined(s.closed, s.queues[e.w], c);
      CountIn(s.queues[e.w], c);
    }
  }

  lemma {:induction false} CountIn(l: seq<nat>, c: nat)
    ensures Count(l, c) > 0 <==> c in l
  {
    if l != [] {
      CountIn(l[1..], c);
      assert l == [l[0]] + l[1..];
    }
  }

  // ---------------------------------------------------------------- the routing method

  /** The counter all workers of a group share, their channels, and which receiving ends are left. */
  class Group {
    var next: nat
    var queues: seq<seq<nat>>
    var alive: seq<bool>

    /** The object is in this state of the protocol. */
    ghost predicate Shows(s: State)
      reads this
    {
      next == s.next && queues == s.queues && alive == s.alive
    }

    constructor (workers: nat)
      ensures Shows(Init(workers))
    {
      next := 0;
      alive := seq(workers, i => true);
      queues := seq(workers, i => []);
    }

    /** Routes a connection accepted by worker `w`: it is either given back to serve here, or queued at
        the drawn worker, or lost when it could be neither sent nor taken back. In the protocol this is
        a draw and a placing. */
    method Route(w: nat, conn: nat, reclaims: bool) returns (here: bool)
      requires next < U64 && w < |queues| == |alive|
      modifies this
      ensures next == (old(next) + 1) % U64 && alive == old(alive)
      ensures var target := old(next) % |alive|;
              && here == (target == w || (!alive[target] && reclaims))
              && queues == if target == w || !alive[target] then old(queues)
                           else old(queues)[target := old(queues)[target] + [conn]]
      ensures forall s: State :: old(Shows(s)) && Accepts(s, w, conn) ==>
                var t := Routed(s, w, reclaims);
                && Shows(t) && t.served == if here then s.served[w := s.served[w] + [conn]] else s.served
    {
      var target := next % |queues|;
      next := (next + 1) % U64;
      if target == w { return true; }
      if alive[target] {
        queues := queues[target := queues[target] + [conn]];
        return false;
      }
      here := reclaims;
    }

    /** Worker `w` takes the next connection of its channel. */
    method Adopt(w: nat) returns (conn: nat)
      requires w < |queues| && queues[w] != []
      modifies this`queues
      ensures forall s: State, ok: bool :: old(Shows(s)) && Enabled(s, Event.Adopt(w, ok)) ==>
                var t := Apply(s, Event.Adopt(w, ok));
                Shows(t) && t.served == if ok then s.served[w := s.served[w] + [conn]] else s.served
    {
      conn := queues[w][0];
      queues := queues[w := queues[w][1..]];
    }

    /** Worker `w` ends and its channel goes with it. */
    method Exit(w: nat)
      requires w < |queues| == |alive|
      modifies this`queues, this`alive
      ensures forall s: State :: old(Shows(s)) && Enabled(s, Event.Exit(w)) ==> Shows(Apply(s, Event.Exit(w)))
    {
      alive, queues := alive[w := false], queues[w := []];
    }
  }

  /** Worker `w` is about to route the connection it has just accepted. */
  predicate Accepts(s: State, w: nat, conn: nat) {
    Enabled(s, Draw(w)) && s.held[w] == [] && conn == |s.targets|
  }

  function Routed(s: State, w: nat, reclaims: bool): (t: State)
    requires Enabled(s, Draw(w)) && s.held[w] == []
  {
    Apply(Apply(s, Draw(w)), Place(w, reclaims))
  }
}
