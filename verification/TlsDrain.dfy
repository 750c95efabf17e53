/** The byte queues between the TLS engine and the socket (`src/boringtls.rs`). After a split, the
    read half and the write half of a stream run concurrently on one thread: each runs undisturbed
    from one await to the next, and both drain the same outbound queue behind the in-flight flag.
    The model is that interleaving, one event per undisturbed stretch. */
module TlsDrain {
  import opened Bytes

  type Data = seq<byte>

  function Max(a: nat, b: nat): (m: nat) { if a >= b then a else b }

  // ---------------------------------------------------------------- the shared fields

  /** The outbound queue and the flag. */
  datatype Queue = Queue(outbound: Data, inFlight: bool)

  /** `flush_outbound` up to its first await: either it returns, or it hands bytes to a socket write. */
  function BeginFlush(q: Queue): (r: (Queue, Option<Data>)) {
    if q.inFlight then (q, None)
    else if q.outbound == [] then (q, None)
    else (Queue([], true), Some(q.outbound))
  }

  /** `flush_outbound` after a completed socket write, up to its next await. */
  function ResumeFlush(q: Queue): (r: (Queue, Option<Data>)) {
    if q.outbound == [] then (Queue([], false), None)
    else (Queue([], true), Some(q.outbound))
  }

  class BoringStream {
    var inbound: Data
    var inboundPos: nat
    var outbound: Data
    var flushInFlight: bool

    constructor ()
      ensures Fields() == Queue([], false) && Valid() && Unread() == []
    {
      inbound, inboundPos, outbound, flushInFlight := [], 0, [], false;
    }

    ghost predicate Valid()
      reads this
    {
      inboundPos <= |inbound|
    }

    ghost function Fields(): (q: Queue)
      reads this
    {
      Queue(outbound, flushInFlight)
    }

    ghost function Unread(): (d: Data)
      requires Valid()
      reads this
    {
      inbound[inboundPos..]
    }

    /** The engine takes ciphertext; `None` asks it to come back. */
    method Read(cap: nat) returns (r: Option<Data>)
      requires Valid()
      modifies this`inboundPos
      ensures Valid()
      ensures r.None? <==> old(Unread()) == []
      ensures r.None? ==> Unread() == old(Unread())
      ensures r.Some? ==> |r.value| == (if cap < |old(Unread())| then cap else |old(Unread())|)
      ensures r.Some? ==> r.value + Unread() == old(Unread())
    {
      var avail := inbound[inboundPos..];
      if avail == [] {
        return None;
      }
      var n := if |avail| < cap then |avail| else cap;
      inboundPos := inboundPos + n;
      return Some(avail[..n]);
    }

    /** A chunk from the socket; consumed bytes are dropped once all of them are consumed. */
    method FillInbound(chunk: Data) returns (more: bool)
      requires Valid()
      modifies this`inbound, this`inboundPos
      ensures Valid() && more == (chunk != [])
      ensures Unread() == old(Unread()) + chunk
    {
      if chunk == [] {
        return false;
      }
      if inboundPos == |inbound| {
        inbound := [];
        inboundPos := 0;
      }
      inbound := inbound + chunk;
      return true;
    }

    /** The engine queues ciphertext. */
    method Write(buf: Data)
      modifies this`outbound
      ensures outbound == old(outbound) + buf
    {
      outbound := outbound + buf;
    }

    /** `Some` is a socket write to await. */
    method FlushStart() returns (write: Option<Data>)
      modifies this`outbound, this`flushInFlight
      ensures (Fields(), write) == BeginFlush(old(Fields()))
    {
      if flushInFlight {
        return None;
      }
      flushInFlight := true;
      var out := outbound;
      outbound := [];
      if out == [] {
        flushInFlight := false;
        return None;
      }
      return Some(out);
    }

    /** The socket write has come back; `recycled` is its buffer, emptied. */
    method FlushContinue(failed: bool) returns (write: Option<Data>)
      requires flushInFlight
      modifies this`outbound, this`flushInFlight
      ensures !failed ==> (Fields(), write) == ResumeFlush(old(Fields()))
      ensures failed ==> write.None? && Fields() == Queue(old(outbound), false)
    {
      var recycled: Data := [];
      if outbound == [] {
        outbound := recycled;
      }
      if failed {
        flushInFlight := false;
        return None;
      }
      var out := outbound;
      outbound := [];
      if out == [] {
        flushInFlight := false;
        return None;
      }
      return Some(out);
    }
  }

  // ---------------------------------------------------------------- interleavings

  datatype Half = Reader | Writer

  /** A half outside `flush_outbound`, or awaiting a socket write of which `left` is not yet on the
      wire; `mark` is how much had been queued when the flush was called. */
  datatype Task = Outside | Awaiting(left: Data, mark: nat)

  /** `queued` are all bytes ever queued; `promised` is how many of them had been queued when some
      flush that has returned Ok was called; `faulty` records a failed or abandoned write. */
  datatype State = State(
    q: Queue, reader: Task, writer: Task, socket: Data,
    queued: Data, promised: nat, faulty: bool)

  datatype Event =
    | Enqueue(bytes: Data)
    | CallFlush(h: Half)
    | SocketTakes(h: Half, n: nat)
    | WriteDone(h: Half)
    | WriteFails(h: Half)
    | Abandon(h: Half)

  const INITIAL: State := State(Queue([], false), Outside, Outside, [], [], 0, false)

  function TaskOf(s: State, h: Half): (t: Task) { if h.Reader? then s.reader else s.writer }

  function SetTask(s: State, h: Half, t: Task): (r: State) {
    if h.Reader? then s.(reader := t) else s.(writer := t)
  }

  predicate Enabled(s: State, e: Event) {
    match e
    case Enqueue(_) => true
    case CallFlush(h) => TaskOf(s, h).Outside?
    case SocketTakes(h, n) => TaskOf(s, h).Awaiting? && n <= |TaskOf(s, h).left|
    case WriteDone(h) => TaskOf(s, h).Awaiting? && TaskOf(s, h).left == []
    case WriteFails(h) => TaskOf(s, h).Awaiting?
    case Abandon(h) => TaskOf(s, h).Awaiting?
  }

  /** The flush of `h` goes on with `r` after being called when `mark` bytes had been queued. */
  function Proceed(s: State, h: Half, r: (Queue, Option<Data>), mark: nat): (s': State) {
    match r.1
    case Some(out) => SetTask(s.(q := r.0), h, Awaiting(out, mark))
    case None => SetTask(s.(q := r.0, promised := Max(s.promised, mark)), h, Outside)
  }

  function Apply(s: State, e: Event): (s': State)
    requires Enabled(s, e)
  {
    match e
    case Enqueue(bytes) => s.(q := s.q.(outbound := s.q.outbound + bytes), queued := s.queued + bytes)
    case CallFlush(h) => Proceed(s, h, BeginFlush(s.q), |s.queued|)
    case SocketTakes(h, n) =>
      var t := TaskOf(s, h);
      SetTask(s.(socket := s.socket + t.left[..n]), h, t.(left := t.left[n..]))
    case WriteDone(h) => Proceed(s, h, ResumeFlush(s.q), TaskOf(s, h).mark)
    case WriteFails(h) => SetTask(s.(q := s.q.(inFlight := false), faulty := true), h, Outside)
    // A dropped future runs no further code: the flag stays set.
    case Abandon(h) => SetTask(s.(faulty := true), h, Outside)
  }

  /** The bytes handed to the socket but not yet on the wire. */
  function InTransit(s: State): (d: Data) {
    (if s.reader.Awaiting? then s.reader.left else []) + (if s.writer.Awaiting? then s.writer.left else [])
  }

  ghost predicate Inv(s: State) {
    && (s.q.inFlight <==> s.reader.Awaiting? || s.writer.Awaiting?)
    && !(s.reader.Awaiting? && s.writer.Awaiting?)
    && s.socket + InTransit(s) + s.q.outbound == s.queued
    && (!s.q.inFlight ==> s.promised <= |s.socket|)
    && (s.reader.Awaiting? ==> s.reader.mark <= |s.queued|)
    && (s.writer.Awaiting? ==> s.writer.mark <= |s.queued|)
    && s.promised <= |s.queued|
  }

  lemma EnqueueKeeps(s: State, bytes: Data)
    requires Inv(s)
    ensures Inv(Apply(s, Enqueue(bytes)))
  {
    var front := s.socket + InTransit(s);
    assert front + (s.q.outbound + bytes) == (front + s.q.outbound) + bytes;
  }

  lemma CallKeeps(s: State, h: Half)
    requires Inv(s) && Enabled(s, CallFlush(h))
    ensures Inv(Apply(s, CallFlush(h)))
  {
    if !s.q.inFlight {
      assert InTransit(s) == [] && s.socket + [] == s.socket;
      var s' := Apply(s, CallFlush(h));
      if s.q.outbound != [] {
        assert InTransit(s') == s.q.outbound && s'.q.outbound == [];
        assert s.socket + s.q.outbound + [] == s.socket + s.q.outbound;
      } else {
        assert s.socket + [] == s.socket;
      }
    }
  }

  lemma TakeKeeps(s: State, h: Half, n: nat)
    requires Inv(s) && Enabled(s, SocketTakes(h, n))
    ensures Inv(Apply(s, SocketTakes(h, n)))
  {
    var left := TaskOf(s, h).left;
    var s' := Apply(s, SocketTakes(h, n));
    assert InTransit(s) == left && InTransit(s') == left[n..] && s'.socket == s.socket + left[..n];
    Taken(s.socket, left, n);
  }

  lemma Taken(socket: Data, left: Data, n: nat)
    requires n <= |left|
    ensures socket + left[..n] + left[n..] == socket + left
  {
    assert left == left[..n] + left[n..];
  }

  lemma DoneKeeps(s: State, h: Half)
    requires Inv(s) && Enabled(s, WriteDone(h))
    ensures Inv(Apply(s, WriteDone(h)))
    ensures !Apply(s, WriteDone(h)).q.inFlight ==> s.socket == s.queued
  {
    assert InTransit(s) == [] && s.socket + [] == s.socket;
    var s' := Apply(s, WriteDone(h));
    if s.q.outbound != [] {
      assert InTransit(s') == s.q.outbound && s'.q.outbound == [];
      assert s.socket + s.q.outbound + [] == s.socket + s.q.outbound;
    } else {
      assert s.socket + [] == s.socket;
    }
  }

  lemma InvKept(s: State, e: Event)
    requires Inv(s) && Enabled(s, e) && !Apply(s, e).faulty
    ensures Inv(Apply(s, e))
  {
    hide Inv;
    match e
    case Enqueue(bytes) => EnqueueKeeps(s, bytes);
    case CallFlush(h) => CallKeeps(s, h);
    case SocketTakes(h, n) => TakeKeeps(s, h, n);
    case WriteDone(h) => DoneKeeps(s, h);
  }

  /** The states an event sequence goes through. */
  ghost predicate Run(states: seq<State>, events: seq<Event>) {
    && |states| == |events| + 1
    && states[0] == INITIAL
    && forall i :: 0 <= i < |events| ==> Enabled(states[i], events[i]) && states[i + 1] == Apply(states[i], events[i])
  }

  lemma {:induction false} FaultsStay(states: seq<State>, events: seq<Event>, i: nat, j: nat)
    requires Run(states, events) && i <= j < |states| && states[i].faulty
    ensures states[j].faulty
    decreases j
  {
    hide BeginFlush, ResumeFlush;
    if i < j {
      FaultsStay(states, events, i, j - 1);
      assert states[j] == Apply(states[j - 1], events[j - 1]);
    }
  }

  /** In every interleaving without a failed or abandoned write: nothing is lost, duplicated or
      reordered, at most one write is in flight, and whatever had been queued when a flush that
      returned Ok was called is on the socket whenever the flag is clear. */
  lemma {:induction false} DrainIsFaithful(states: seq<State>, events: seq<Event>, i: nat)
    requires Run(states, events) && i < |states| && !states[i].faulty
    ensures var s := states[i];
            && s.socket + InTransit(s) + s.q.outbound == s.queued
            && !(s.reader.Awaiting? && s.writer.Awaiting?)
            && (!s.q.inFlight ==> s.promised <= |s.socket|)
            && Inv(s)
  {
    hide Apply, Inv;
    if i == 0 {
      assert Inv(INITIAL) by { InitialInv(); }
    } else {
      if states[i - 1].faulty { FaultsStay(states, events, i - 1, i); }
      DrainIsFaithful(states, events, i - 1);
      InvKept(states[i - 1], events[i - 1]);
    }
    InvSays(states[i]);
  }

  lemma InitialInv()
    ensures Inv(INITIAL)
  {
  }

  lemma InvSays(s: State)
    requires Inv(s)
    ensures s.socket + InTransit(s) + s.q.outbound == s.queued
    ensures !(s.reader.Awaiting? && s.writer.Awaiting?)
    ensures !s.q.inFlight ==> s.promised <= |s.socket|
  {
  }

  /** More than was promised: when the flag clears, everything ever queued is on the socket. */
  lemma ClearedMeansDrained(states: seq<State>, events: seq<Event>, i: nat)
    requires Run(states, events) && i < |events| && !states[i + 1].faulty
    requires states[i].q.inFlight && !states[i + 1].q.inFlight
    ensures states[i + 1].socket == states[i + 1].queued
  {
    DrainIsFaithful(states, events, i + 1);
    if states[i].faulty { FaultsStay(states, events, i, i + 1); }
    DrainIsFaithful(states, events, i);
  }

  // ---------------------------------------------------------------- failed and abandoned writes

  /** At most one half awaits, and whoever awaits has the flag set. This holds through any fault. */
  predicate Single(s: State) {
    && !(s.reader.Awaiting? && s.writer.Awaiting?)
    && (s.reader.Awaiting? || s.writer.Awaiting? ==> s.q.inFlight)
  }

  /** The flag is set and nobody drains. */
  predicate Stalled(s: State) { s.q.inFlight && s.reader.Outside? && s.writer.Outside? }

  lemma SingleKept(s: State, e: Event)
    requires Single(s) && Enabled(s, e)
    ensures Single(Apply(s, e))
    ensures Stalled(Apply(s, e)) <==> Stalled(s) || e.Abandon?
    ensures Stalled(s) ==> Apply(s, e).socket == s.socket
  {
  }

  /** Exactly when the drain is stalled: in every run, failed writes included, the flag is set with
      nobody draining if and only if some flush was abandoned in the middle of a write. */
  lemma {:induction false} StalledIff(states: seq<State>, events: seq<Event>, i: nat)
    requires Run(states, events) && i < |states|
    ensures Single(states[i])
    ensures Stalled(states[i]) <==> exists k :: 0 <= k < i && events[k].Abandon?
  {
    hide Apply, Enabled;
    if i > 0 {
      StalledIff(states, events, i - 1);
      SingleKept(states[i - 1], events[i - 1]);
      assert events[i - 1].Abandon? ==> exists k :: 0 <= k < i && events[k].Abandon?;
    }
  }

  /** After the first abandoned flush of a run nothing is ever sent again. */
  lemma {:induction false} AbandonedDrainStalls(states: seq<State>, events: seq<Event>, k: nat, i: nat)
    requires Run(states, events) && k < i < |states| && events[k].Abandon?
    ensures Stalled(states[i]) && states[i].socket == states[k].socket
  {
    hide Enabled, Single, Stalled;
    if i == k + 1 {
      StalledIff(states, events, i);
    } else {
      AbandonedDrainStalls(states, events, k, i - 1);
      hide Apply;
      StalledIff(states, events, i - 1);
      SingleKept(states[i - 1], events[i - 1]);
    }
  }

  /** The bytes a fault takes away: what the socket had not yet taken of the write. */
  function Cut(s: State, e: Event): (n: nat) {
    if e.WriteFails? || e.Abandon? then (if TaskOf(s, e.h).Awaiting? then |TaskOf(s, e.h).left| else 0) else 0
  }

  function Held(s: State): (d: Data) { s.socket + InTransit(s) + s.q.outbound }

  lemma HeldCount(s: State, e: Event)
    requires Single(s) && Enabled(s, e)
    ensures |Apply(s, e).queued| - |Held(Apply(s, e))| == |s.queued| - |Held(s)| + Cut(s, e)
  {
    Moves(s, e);
    hide Apply, InTransit, Single, Enabled, Cut;
  }

  /** What a step moves between socket, transit and queue. */
  lemma Moves(s: State, e: Event)
    requires Single(s) && Enabled(s, e)
    ensures var t := Apply(s, e);
            && (e.Enqueue? ==>
                  t.socket == s.socket && InTransit(t) == InTransit(s) && t.q.outbound == s.q.outbound + e.bytes)
            && (e.CallFlush? || e.WriteDone? ==>
                  && t.socket == s.socket
                  && ((InTransit(t) == InTransit(s) && t.q.outbound == s.q.outbound) ||
                      (InTransit(s) == [] && InTransit(t) == s.q.outbound && t.q.outbound == [])))
            && (e.SocketTakes? ==>
                  && e.n <= |InTransit(s)| && t.socket == s.socket + InTransit(s)[..e.n]
                  && InTransit(t) == InTransit(s)[e.n..] && t.q.outbound == s.q.outbound)
            && (e.WriteFails? || e.Abandon? ==>
                  && t.socket == s.socket && InTransit(t) == []
                  && |InTransit(s)| == Cut(s, e) && t.q.outbound == s.q.outbound)
            && t.queued == s.queued + if e.Enqueue? then e.bytes else []
  {
  }

  lemma HeldKept(s: State, e: Event)
    requires Single(s) && Enabled(s, e) && Held(s) == s.queued && Cut(s, e) == 0
    ensures Held(Apply(s, e)) == Apply(s, e).queued
  {
    Moves(s, e);
    hide Apply, InTransit, Single, Enabled, Cut, TaskOf;
    var bytes := if e.Enqueue? then e.bytes else [];
    var n := if e.SocketTakes? then e.n else 0;
    Regroup(s.socket, InTransit(s), s.q.outbound, bytes, n);
  }

  lemma Regroup(a: Data, b: Data, c: Data, d: Data, n: nat)
    requires n <= |b|
    ensures a + b + (c + d) == a + b + c + d
    ensures a + b[..n] + b[n..] + c == a + b + c
    ensures b == [] ==> a + c + [] == a + b + c
    ensures a + b + c + [] == a + b + c
  {
    assert b[..n] + b[n..] == b;
    assert a + b[..n] + b[n..] == a + (b[..n] + b[n..]);
  }

  /** Exactly when bytes are lost: socket, transit and queue make up all bytes ever queued, in order,
      if and only if every failed or abandoned write had already put all its bytes on the wire. */
  lemma {:induction false} NothingLostIff(states: seq<State>, events: seq<Event>, i: nat)
    requires Run(states, events) && i < |states|
    ensures |Held(states[i])| <= |states[i].queued|
    ensures |Held(states[i])| == |states[i].queued| ==> Held(states[i]) == states[i].queued
    ensures Held(states[i]) == states[i].queued <==> forall k :: 0 <= k < i ==> Cut(states[k], events[k]) == 0
  {
    hide Apply, Enabled, Held, Cut, Single;
    if i == 0 {
      assert Held(INITIAL) == [] by { NothingYet(); }
    } else {
      var s, e := states[i - 1], events[i - 1];
      NothingLostIff(states, events, i - 1);
      StalledIff(states, events, i - 1);
      HeldCount(s, e);
      if Held(s) == s.queued && Cut(s, e) == 0 { HeldKept(s, e); }
    }
  }

  lemma NothingYet()
    ensures Held(INITIAL) == []
  {
  }

  ghost predicate Leads(s: State, events: seq<Event>, s': State)
    decreases |events|
  {
    if events == [] then s == s' else Enabled(s, events[0]) && Leads(Apply(s, events[0]), events[1..], s')
  }

  /** A concrete run into that state: bytes are queued, a flush starts and is abandoned; a later
      flush returns Ok although its byte will never be sent. */
  lemma AbandonedDrainExample()
    ensures exists s ::
              && Leads(INITIAL, [Enqueue([7]), CallFlush(Writer), Abandon(Writer), Enqueue([8]), CallFlush(Reader)], s)
              && s.promised == 2 && s.socket == [] && s.q.inFlight && s.reader.Outside? && s.writer.Outside?
  {
    var s1 := Apply(INITIAL, Enqueue([7]));
    assert s1.q.outbound == [7] && s1.queued == [7];
    var s2 := Apply(s1, CallFlush(Writer));
    var s3 := Apply(s2, Abandon(Writer));
    var s4 := Apply(s3, Enqueue([8]));
    var s5 := Apply(s4, CallFlush(Reader));
    var e5 := [CallFlush(Reader)];
    var e4 := [Enqueue([8])] + e5;
    var e3 := [Abandon(Writer)] + e4;
    var e2 := [CallFlush(Writer)] + e3;
    var e1 := [Enqueue([7])] + e2;
    assert Leads(s4, e5, s5) by { assert e5[1..] == []; }
    assert Leads(s3, e4, s5) by { assert e4[1..] == e5; }
    assert Leads(s2, e3, s5) by { assert e3[1..] == e4; }
    assert Leads(s1, e2, s5) by { assert e2[1..] == e3; }
    assert Leads(INITIAL, e1, s5) by { assert e1[1..] == e2; }
    assert e1 == [Enqueue([7]), CallFlush(Writer), Abandon(Writer), Enqueue([8]), CallFlush(Reader)];
  }
}
