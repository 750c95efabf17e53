/** The staged reload (`src/reload.rs`): a coordinator thread, one canary worker and the other workers,
    joined by first-in first-out request channels and one reply channel per reload.

    Each attempt to reload has a generation number; generation 0 is what the server started with. The
    interleaving is any: a reply may come after the coordinator stopped waiting for it, and workers
    compile at any pace and may fail or end. */
module Reload {
  // ---------------------------------------------------------------- state and steps

  datatype Request = Request(gen: nat, reply: bool)

  /** What a worker is doing: waiting for a request, compiling one, or about to answer one. */
  datatype Activity = Resting | Compiling(req: Request) | Answering(req: Request, ok: bool)

  datatype Worker = Worker(alive: bool, queue: seq<Request>, activity: Activity, installed: nat)

  datatype Phase = Idle | Waiting(gen: nat) | Committing(gen: nat, stored: nat) | RollingOut(gen: nat, next: nat)

  /** The sets record what happened: which generations the canary compiled, were accepted in time,
      were given up, and were committed, and which compilations failed. */
  datatype State = State(
    phase: Phase, attempts: nat,
    plugins: nat, site: nat, tls: nat,
    workers: seq<Worker>, replies: map<nat, bool>,
    canaryBuilt: set<nat>, accepted: set<nat>, aborted: set<nat>, committed: set<nat>, failed: set<(nat, nat)>)

  datatype Event =
    | LoadFails
    | Begin
    | Accept
    | Reject
    | TimeOut
    | StorePlugins
    | StoreSite
    | StoreTls(loaded: bool)
    | Send
    | Finish
    | Take(w: nat)
    | Compile(w: nat, ok: bool)
    | Answer(w: nat)
    | Die(w: nat)

  predicate CanWork(s: State, w: nat) { w < |s.workers| && s.workers[w].alive }

  predicate Enabled(s: State, e: Event) {
    match e
    case LoadFails => s.phase.Idle?
    case Begin => s.phase.Idle? && |s.workers| > 0
    case Accept => s.phase.Waiting? && s.phase.gen in s.replies && s.replies[s.phase.gen]
    case Reject => s.phase.Waiting? && s.phase.gen in s.replies && !s.replies[s.phase.gen]
    case TimeOut => s.phase.Waiting? && s.phase.gen !in s.replies
    case StorePlugins => s.phase.Committing? && s.phase.stored == 0
    case StoreSite => s.phase.Committing? && s.phase.stored == 1
    case StoreTls(_) => s.phase.Committing? && s.phase.stored == 2
    case Send => s.phase.RollingOut? && s.phase.next < |s.workers|
    case Finish => s.phase.RollingOut? && s.phase.next >= |s.workers|
    case Take(w) => CanWork(s, w) && s.workers[w].activity.Resting? && s.workers[w].queue != []
    case Compile(w, _) => CanWork(s, w) && s.workers[w].activity.Compiling?
    case Answer(w) => CanWork(s, w) && s.workers[w].activity.Answering?
    case Die(w) => CanWork(s, w)
  }

  /** A request put on a worker's channel; sending to a worker that ended does nothing. */
  function Sent(ws: seq<Worker>, w: nat, r: Request): (t: seq<Worker>)
    requires w < |ws|
  {
    if ws[w].alive then ws[w := ws[w].(queue := ws[w].queue + [r])] else ws
  }

  function WorkerStep(k: Worker, e: Event): (r: Worker)
    requires e.Take? || e.Compile? || e.Answer? || e.Die?
    requires e.Take? ==> k.queue != []
    requires e.Compile? ==> k.activity.Compiling?
  {
    match e
    case Take(_) => k.(queue := k.queue[1..], activity := Compiling(k.queue[0]))
    case Compile(_, ok) =>
      k.(activity := Answering(k.activity.req, ok), installed := if ok then k.activity.req.gen else k.installed)
    case Answer(_) => k.(activity := Resting)
    case Die(_) => k.(alive := false)
  }

  function Apply(s: State, e: Event): (t: State)
    requires Enabled(s, e)
  {
    match e
    case LoadFails => s
    case Begin =>
      if s.workers[0].alive then
        s.(phase := Waiting(s.attempts + 1), attempts := s.attempts + 1,
           workers := Sent(s.workers, 0, Request(s.attempts + 1, true)))
      else s.(attempts := s.attempts + 1, aborted := s.aborted + {s.attempts + 1})
    case Accept => s.(phase := Committing(s.phase.gen, 0), accepted := s.accepted + {s.phase.gen})
    case Reject => s.(phase := Idle, aborted := s.aborted + {s.phase.gen})
    case TimeOut => s.(phase := Idle, aborted := s.aborted + {s.phase.gen})
    case StorePlugins => s.(phase := Committing(s.phase.gen, 1), plugins := s.phase.gen)
    case StoreSite =>
      s.(phase := Committing(s.phase.gen, 2), site := s.phase.gen, committed := s.committed + {s.phase.gen})
    case StoreTls(loaded) => s.(phase := RollingOut(s.phase.gen, 1), tls := if loaded then s.phase.gen else s.tls)
    case Send =>
      s.(phase := RollingOut(s.phase.gen, s.phase.next + 1),
         workers := Sent(s.workers, s.phase.next, Request(s.phase.gen, false)))
    case Finish => s.(phase := Idle)
    case Compile(w, ok) =>
      var gen := s.workers[w].activity.req.gen;
      s.(workers := s.workers[w := WorkerStep(s.workers[w], e)],
         canaryBuilt := if w == 0 && ok then s.canaryBuilt + {gen} else s.canaryBuilt,
         failed := if ok then s.failed else s.failed + {(w, gen)})
    case Answer(w) =>
      var a := s.workers[w].activity;
      s.(workers := s.workers[w := WorkerStep(s.workers[w], e)],
         replies := if a.req.reply then s.replies[a.req.gen := a.ok] else s.replies)
    case Take(w) => s.(workers := s.workers[w := WorkerStep(s.workers[w], e)])
    case Die(w) => s.(workers := s.workers[w := WorkerStep(s.workers[w], e)])
  }

  function Fresh(): (k: Worker) { Worker(true, [], Resting, 0) }

  function Init(n: nat): (s: State) {
    State(Idle, 0, 0, 0, 0, seq(n, i => Fresh()), map[], {0}, {0}, {}, {0}, {})
  }

  ghost predicate Run(n: nat, states: seq<State>, events: seq<Event>) {
    && |states| == |events| + 1
    && states[0] == Init(n)
    && forall i :: 0 <= i < |events| ==> Enabled(states[i], events[i]) && states[i + 1] == Apply(states[i], events[i])
  }

  // ---------------------------------------------------------------- what a worker has in hand

  /** The requests a worker has not finished, oldest first, leaving out one it already compiled. */
  function Ahead(k: Worker): (q: seq<Request>) {
    if k.activity.Compiling? then [k.activity.req] + k.queue else k.queue
  }

  /** Requests come in increasing generations, all newer than what is installed. */
  predicate Ordered(k: Worker) {
    var q := Ahead(k);
    && (forall i :: 0 <= i < |q| ==> k.installed < q[i].gen)
    && (forall i, j :: 0 <= i < j < |q| ==> q[i].gen < q[j].gen)
    && (k.activity.Answering? ==> forall i :: 0 <= i < |q| ==> k.activity.req.gen < q[i].gen)
    && (k.activity.Answering? ==> k.installed <= k.activity.req.gen)
    && (k.activity.Answering? && k.activity.ok ==> k.installed == k.activity.req.gen)
  }

  /** A generation this worker has been given, whatever became of it. */
  predicate Given(k: Worker, g: nat) {
    || k.installed == g
    || (!k.activity.Resting? && k.activity.req.gen == g)
    || (exists i :: 0 <= i < |k.queue| && k.queue[i].gen == g)
  }

  /** Only the canary is asked to reply. */
  predicate ReplyFlags(k: Worker, canary: bool) {
    && (forall i :: 0 <= i < |k.queue| ==> k.queue[i].reply == canary)
    && (!k.activity.Resting? ==> k.activity.req.reply == canary)
  }

  lemma SendOrdered(k: Worker, r: Request)
    requires Ordered(k) && forall g: nat :: Given(k, g) ==> g < r.gen
    ensures Ordered(k.(queue := k.queue + [r]))
    ensures forall g: nat :: Given(k.(queue := k.queue + [r]), g) ==> Given(k, g) || g == r.gen
  {
    var t := k.(queue := k.queue + [r]);
    assert Ahead(t) == Ahead(k) + [r];
    forall i | 0 <= i < |Ahead(k)|
      ensures Ahead(k)[i].gen < r.gen
    {
      assert Given(k, Ahead(k)[i].gen);
    }
    assert Given(k, k.installed);
    assert !k.activity.Resting? ==> Given(k, k.activity.req.gen);
    forall g: nat | Given(t, g)
      ensures Given(k, g) || g == r.gen
    {
    }
  }

  lemma StepOrdered(k: Worker, e: Event)
    requires e.Take? || e.Compile? || e.Answer? || e.Die?
    requires e.Take? ==> k.queue != [] && k.activity.Resting?
    requires e.Compile? ==> k.activity.Compiling?
    requires Ordered(k)
    ensures Ordered(WorkerStep(k, e)) && k.installed <= WorkerStep(k, e).installed
    ensures forall g: nat :: Given(WorkerStep(k, e), g) ==> Given(k, g)
  {
    StepGiven(k, e);
    hide Given;
    var t := WorkerStep(k, e);
    if e.Take? {
      assert Ahead(t) == k.queue == Ahead(k);
    } else if k.activity.Compiling? && !e.Die? {
      var q := Ahead(k);
      assert q[0] == k.activity.req && Ahead(t) == k.queue == q[1..];
      forall i | 0 <= i < |Ahead(t)|
        ensures k.activity.req.gen < Ahead(t)[i].gen && k.installed < Ahead(t)[i].gen
      {
        assert Ahead(t)[i] == q[i + 1] && q[0].gen < q[i + 1].gen;
      }
      forall i, j | 0 <= i < j < |Ahead(t)|
        ensures Ahead(t)[i].gen < Ahead(t)[j].gen
      {
        assert Ahead(t)[i] == q[i + 1] && Ahead(t)[j] == q[j + 1];
      }
    } else {
      assert Ahead(t) == Ahead(k);
    }
  }

  lemma StepGiven(k: Worker, e: Event)
    requires e.Take? || e.Compile? || e.Answer? || e.Die?
    requires e.Take? ==> k.queue != []
    requires e.Compile? ==> k.activity.Compiling?
    ensures forall g: nat :: Given(WorkerStep(k, e), g) ==> Given(k, g)
  {
    var t := WorkerStep(k, e);
    forall g: nat | Given(t, g)
      ensures Given(k, g)
    {
      if e.Take? && exists i :: 0 <= i < |t.queue| && t.queue[i].gen == g {
        var i :| 0 <= i < |t.queue| && t.queue[i].gen == g;
        assert k.queue[i + 1].gen == g;
      }
    }
  }

  // ---------------------------------------------------------------- the invariant

  /** How far the coordinator has got with its current generation. */
  predicate PhaseOk(s: State) {
    match s.phase
    case Idle => true
    case Waiting(g) => g == s.attempts && g !in s.accepted && g !in s.aborted && g !in s.committed
    case Committing(g, k) => g == s.attempts && g in s.accepted && k <= 2 && (k == 2 <==> g in s.committed)
    case RollingOut(g, k) => g == s.attempts && g in s.committed && g == s.site && k >= 1
  }

  predicate SharedOk(s: State) {
    && s.site in s.committed && s.site <= s.attempts && s.tls in s.committed
    && (forall g :: g in s.committed ==> g <= s.site)
    && s.plugins == (if s.phase.Committing? && s.phase.stored == 1 then s.phase.gen else s.site)
  }

  ghost predicate HistoryOk(s: State) {
    && s.committed <= s.accepted && s.accepted !! s.aborted
    && (forall g :: g in s.accepted ==> g <= s.attempts && g in s.canaryBuilt)
    && (forall g :: g in s.aborted ==> 0 < g <= s.attempts)
    && (forall g :: g in s.canaryBuilt ==> g <= s.attempts)
    && (forall g :: g in s.replies ==> g <= s.attempts && (s.replies[g] <==> g in s.canaryBuilt))
    && (forall w, g :: (w, g) in s.failed ==> g <= s.attempts)
  }

  ghost predicate CanaryOk(s: State, k: Worker) {
    && Ordered(k) && ReplyFlags(k, true)
    && (forall g: nat :: Given(k, g) ==> g <= s.attempts)
    && k.installed in s.canaryBuilt
    && Unanswered(k, s.replies.Keys, s.canaryBuilt)
  }

  /** What the canary has in hand has no reply yet, and what it has still to compile is not built. */
  predicate Unanswered(k: Worker, replied: set<nat>, built: set<nat>) {
    && (forall i :: 0 <= i < |Ahead(k)| ==> Ahead(k)[i].gen !in replied && Ahead(k)[i].gen !in built)
    && (k.activity.Answering? ==> k.activity.req.gen !in replied && (k.activity.ok <==> k.activity.req.gen in built))
  }

  ghost predicate OtherOk(s: State, w: nat, k: Worker) {
    && Ordered(k) && ReplyFlags(k, false)
    && (forall g: nat :: Given(k, g) ==> g in s.committed)
    && (s.phase.RollingOut? && s.phase.next <= w ==> !Given(k, s.phase.gen))
    && (s.phase.Committing? && s.phase.stored == 2 ==> !Given(k, s.phase.gen))
    && (k.activity.Answering? && !k.activity.ok ==> (w, k.activity.req.gen) in s.failed)
    && (k.alive && Reached(s, w) ==> Given(k, s.site) || (w, s.site) in s.failed)
  }

  /** The rollout of the committed generation has got to worker `w`, or is over. */
  predicate Reached(s: State, w: nat) {
    !(s.phase.Committing? && s.phase.stored == 2) && !(s.phase.RollingOut? && s.phase.next <= w)
  }

  ghost predicate Inv(s: State) {
    && PhaseOk(s) && SharedOk(s) && HistoryOk(s)
    && (|s.workers| > 0 ==> CanaryOk(s, s.workers[0]))
    && (forall w :: 1 <= w < |s.workers| ==> OtherOk(s, w, s.workers[w]))
  }

  lemma InitOk(n: nat)
    ensures Inv(Init(n))
  {
  }

  predicate WorkerEvent(e: Event) { e.Take? || e.Compile? || e.Answer? || e.Die? }

  /** A coordinator step that sends nothing. */
  lemma QuietKeeps(s: State, e: Event)
    requires Inv(s) && Enabled(s, e) && !WorkerEvent(e) && !e.Begin? && !e.Send?
    ensures Inv(Apply(s, e))
  {
    hide Ordered, ReplyFlags;
    var t := Apply(s, e);
    assert t.workers == s.workers;
    if |s.workers| > 0 { assert CanaryOk(t, t.workers[0]); }
    forall w | 1 <= w < |t.workers|
      ensures OtherOk(t, w, t.workers[w])
    {
      assert OtherOk(s, w, s.workers[w]);
      QuietOther(s, e, w);
    }
    hide Given;
  }

  lemma QuietOther(s: State, e: Event, w: nat)
    requires Inv(s) && Enabled(s, e) && !WorkerEvent(e) && !e.Begin? && !e.Send?
    requires 1 <= w < |s.workers|
    ensures OtherOk(Apply(s, e), w, s.workers[w])
  {
    hide Ordered, ReplyFlags, Given;
    assert OtherOk(s, w, s.workers[w]);
    if e.StoreSite? { assert s.phase.gen !in s.committed; }
  }

  lemma BeginKeeps(s: State, e: Event)
    requires Inv(s) && Enabled(s, e) && e.Begin?
    ensures Inv(Apply(s, e))
  {
    hide Ordered, ReplyFlags, Given;
    var t := Apply(s, e);
    var r := Request(s.attempts + 1, true);
    if s.workers[0].alive {
      SendOrdered(s.workers[0], r);
      SendFlags(s.workers[0], r);
      SendAhead(s.workers[0], r);
      assert CanaryOk(t, t.workers[0]);
    }
    forall w | 1 <= w < |t.workers|
      ensures OtherOk(t, w, t.workers[w])
    {
      assert OtherOk(s, w, s.workers[w]);
    }
  }

  lemma SendFlags(k: Worker, r: Request)
    requires ReplyFlags(k, r.reply)
    ensures ReplyFlags(k.(queue := k.queue + [r]), r.reply)
  {
  }

  lemma SendAhead(k: Worker, r: Request)
    ensures Ahead(k.(queue := k.queue + [r])) == Ahead(k) + [r]
    ensures Given(k.(queue := k.queue + [r]), r.gen)
    ensures forall g: nat :: Given(k, g) ==> Given(k.(queue := k.queue + [r]), g)
  {
    var t := k.(queue := k.queue + [r]);
    assert t.queue[|k.queue|] == r;
    assert forall i :: 0 <= i < |k.queue| ==> t.queue[i] == k.queue[i];
  }

  lemma SendKeeps(s: State, e: Event)
    requires Inv(s) && Enabled(s, e) && e.Send?
    ensures Inv(Apply(s, e))
  {
    hide Ordered, ReplyFlags, Given;
    var t := Apply(s, e);
    var n := s.phase.next;
    var r := Request(s.phase.gen, false);
    assert CanaryOk(t, t.workers[0]);
    forall w | 1 <= w < |t.workers|
      ensures OtherOk(t, w, t.workers[w])
    {
      assert OtherOk(s, w, s.workers[w]);
      if w == n && s.workers[n].alive {
        var k := s.workers[n];
        assert forall g: nat :: Given(k, g) ==> g < r.gen;
        SendOrdered(k, r);
        SendFlags(k, r);
        SendAhead(k, r);
      }
    }
  }

  /** The canary's part of the invariant reads only these parts of the state. */
  lemma CanaryFrame(s: State, t: State, k: Worker)
    requires CanaryOk(s, k) && t.attempts == s.attempts && t.canaryBuilt == s.canaryBuilt && t.replies == s.replies
    ensures CanaryOk(t, k)
  {
    hide Ordered, ReplyFlags, Given;
  }

  lemma OtherFrame(s: State, t: State, w: nat, k: Worker)
    requires OtherOk(s, w, k) && t.phase == s.phase && t.committed == s.committed
    requires t.site == s.site && s.failed <= t.failed
    ensures OtherOk(t, w, k)
  {
    hide Ordered, ReplyFlags, Given;
  }

  lemma UnansweredStep(k: Worker, e: Event, replied: set<nat>, built: set<nat>)
    requires WorkerEvent(e) && (e.Take? ==> k.queue != [] && k.activity.Resting?)
    requires e.Compile? ==> k.activity.Compiling?
    requires Ordered(k) && (e.Answer? ==> k.activity.Answering?) && Unanswered(k, replied, built)
    ensures Unanswered(WorkerStep(k, e), if e.Answer? then replied + {k.activity.req.gen} else replied,
                       if e.Compile? && e.ok then built + {k.activity.req.gen} else built)
  {
    var t := WorkerStep(k, e);
    var ahead, was := Ahead(t), Ahead(k);
    StepAhead(k, e);
    hide Ordered, Ahead;
    assert e.Compile? ==> was[0] == k.activity.req;
    forall i | 0 <= i < |ahead|
      ensures ahead[i].gen !in replied && ahead[i].gen !in built
      ensures e.Answer? || e.Compile? ==> ahead[i].gen != k.activity.req.gen
    {
      assert ahead[i] == was[if e.Compile? then i + 1 else i];
    }
  }

  lemma CanaryStepOk(s: State, e: Event)
    requires Inv(s) && Enabled(s, e) && WorkerEvent(e) && e.w == 0
    ensures CanaryOk(Apply(s, e), Apply(s, e).workers[0])
  {
    hide Ordered, ReplyFlags, Given, Unanswered, OtherOk;
    var t := Apply(s, e);
    var k := s.workers[0];
    StepOrdered(k, e);
    StepFlags(k, e, true);
    UnansweredStep(k, e, s.replies.Keys, s.canaryBuilt);
    assert !k.activity.Resting? ==> k.activity.req.reply by { CompilesNew(s, e); }
    assert t.replies.Keys == if e.Answer? then s.replies.Keys + {k.activity.req.gen} else s.replies.Keys;
  }

  lemma CanaryStepKeeps(s: State, e: Event)
    requires Inv(s) && Enabled(s, e) && WorkerEvent(e) && e.w == 0
    ensures Inv(Apply(s, e))
  {
    hide Ordered, ReplyFlags, Given, OtherOk;
    var t := Apply(s, e);
    var k := s.workers[0];
    CanaryStepOk(s, e);
    CompilesNew(s, e);
    forall w | 1 <= w < |t.workers|
      ensures OtherOk(t, w, t.workers[w])
    {
      OtherFrame(s, t, w, s.workers[w]);
    }
    hide CanaryOk;
    assert HistoryOk(t);
  }

  /** What the canary compiles has no reply yet. */
  lemma CompilesNew(s: State, e: Event)
    requires Inv(s) && Enabled(s, e) && WorkerEvent(e) && e.w == 0
    ensures var a := s.workers[0].activity;
            && (!a.Resting? ==> a.req.reply && a.req.gen !in s.replies && a.req.gen <= s.attempts)
            && (a.Answering? ==> (a.ok <==> a.req.gen in s.canaryBuilt))
  {
    hide Ordered;
    var k := s.workers[0];
    assert CanaryOk(s, k);
    assert k.activity.Compiling? ==> Ahead(k)[0] == k.activity.req;
    assert !k.activity.Resting? ==> Given(k, k.activity.req.gen);
  }

  lemma StepFlags(k: Worker, e: Event, canary: bool)
    requires WorkerEvent(e) && (e.Take? ==> k.queue != []) && (e.Compile? ==> k.activity.Compiling?)
    requires ReplyFlags(k, canary)
    ensures ReplyFlags(WorkerStep(k, e), canary)
  {
  }

  lemma StepAhead(k: Worker, e: Event)
    requires WorkerEvent(e) && (e.Take? ==> k.queue != [] && k.activity.Resting?)
    requires e.Compile? ==> k.activity.Compiling?
    requires Ordered(k) && (e.Answer? ==> k.activity.Answering?)
    ensures Ahead(k) == (if e.Compile? then [k.activity.req] else []) + Ahead(WorkerStep(k, e))
    ensures e.Answer? && k.activity.Answering? ==>
              forall i :: 0 <= i < |Ahead(k)| ==> k.activity.req.gen < Ahead(k)[i].gen
    ensures e.Compile? ==> k.installed < k.activity.req.gen
    ensures var q := Ahead(WorkerStep(k, e));
            e.Compile? ==> forall i :: 0 <= i < |q| ==> k.activity.req.gen < q[i].gen
  {
    if e.Take? { assert [k.queue[0]] + k.queue[1..] == k.queue; }
    if e.Compile? {
      assert Ahead(k)[0] == k.activity.req;
      assert forall i :: 0 <= i < |k.queue| ==> k.queue[i] == Ahead(k)[i + 1];
    }
  }

  lemma OtherStepOk(s: State, e: Event)
    requires Inv(s) && Enabled(s, e) && WorkerEvent(e) && e.w >= 1
    ensures OtherOk(Apply(s, e), e.w, Apply(s, e).workers[e.w])
  {
    hide Ordered, ReplyFlags, Given;
    var k := s.workers[e.w];
    assert OtherOk(s, e.w, k);
    StepOrdered(k, e);
    StepFlags(k, e, false);
    if Given(k, s.site) { SiteStays(s, e); }
  }

  lemma OtherStepKeeps(s: State, e: Event)
    requires Inv(s) && Enabled(s, e) && WorkerEvent(e) && e.w >= 1
    ensures Inv(Apply(s, e))
  {
    hide Ordered, Given, OtherOk, CanaryOk;
    var t := Apply(s, e);
    var k := s.workers[e.w];
    assert ReplyFlags(k, false) && (!k.activity.Resting? ==> k.activity.req.gen <= s.attempts) by {
      OtherParts(s, e.w);
    }
    OtherStepOk(s, e);
    CanaryFrame(s, t, s.workers[0]);
    forall w | 1 <= w < |t.workers|
      ensures OtherOk(t, w, t.workers[w])
    {
      if w != e.w { OtherFrame(s, t, w, s.workers[w]); }
    }
  }

  lemma OtherParts(s: State, w: nat)
    requires Inv(s) && 1 <= w < |s.workers|
    ensures var k := s.workers[w]; ReplyFlags(k, false) && (!k.activity.Resting? ==> k.activity.req.gen <= s.attempts)
  {
    hide Ordered, ReplyFlags;
    var k := s.workers[w];
    assert OtherOk(s, w, k);
    assert !k.activity.Resting? ==> Given(k, k.activity.req.gen);
  }

  /** A worker that was given the committed generation keeps it until it is installed or has failed. */
  lemma SiteStays(s: State, e: Event)
    requires Inv(s) && Enabled(s, e) && WorkerEvent(e) && e.w >= 1 && Given(s.workers[e.w], s.site)
    ensures Given(WorkerStep(s.workers[e.w], e), s.site) || (e.w, s.site) in Apply(s, e).failed
  {
    var k := s.workers[e.w];
    var t := WorkerStep(k, e);
    assert OtherOk(s, e.w, k);
    if e.Take? {
      assert forall i :: 1 <= i < |k.queue| ==> k.queue[i] == t.queue[i - 1];
    } else if e.Compile? {
      assert Given(k, k.activity.req.gen) && Ahead(k)[0] == k.activity.req;
    }
  }

  lemma StepKeeps(s: State, e: Event)
    requires Inv(s) && Enabled(s, e)
    ensures Inv(Apply(s, e))
  {
    hide Inv, Apply;
    if e.Begin? { BeginKeeps(s, e); }
    else if e.Send? { SendKeeps(s, e); }
    else if !WorkerEvent(e) { QuietKeeps(s, e); }
    else if e.w == 0 { CanaryStepKeeps(s, e); }
    else { OtherStepKeeps(s, e); }
  }

  lemma {:induction false} InvHolds(n: nat, states: seq<State>, events: seq<Event>, j: nat)
    requires Run(n, states, events) && j < |states|
    ensures Inv(states[j]) && |states[j].workers| == n
  {
    hide Inv;
    if j == 0 {
      InitOk(n);
    } else {
      InvHolds(n, states, events, j - 1);
      StepKeeps(states[j - 1], events[j - 1]);
      assert |states[j].workers| == |states[j - 1].workers|;
    }
  }

  // ---------------------------------------------------------------- only what the canary acknowledged

  /** What happened to a generation: the canary compiled it, the coordinator took its acknowledgement
      while still waiting, and the coordinator stored the site. */
  predicate Builds(s: State, e: Event, g: nat) {
    e == Compile(0, true) && Enabled(s, e) && s.workers[0].activity.req.gen == g
  }

  predicate Accepts(s: State, e: Event, g: nat) { e.Accept? && s.phase == Waiting(g) }

  predicate Commits(s: State, e: Event, g: nat) { e.StoreSite? && s.phase == Committing(g, 1) }

  predicate Passed(states: seq<State>, events: seq<Event>, a: nat, b: nat, c: nat, g: nat)
    requires a < |states| && b < |states| && c < |states| && a < |events| && b < |events| && c < |events|
  {
    Builds(states[a], events[a], g) && Accepts(states[b], events[b], g) && Commits(states[c], events[c], g)
  }

  lemma {:induction false} BuiltWhen(n: nat, states: seq<State>, events: seq<Event>, j: nat, g: nat) returns (k: nat)
    requires Run(n, states, events) && j < |states| && g in states[j].canaryBuilt && g > 0
    ensures k < j && Builds(states[k], events[k], g)
  {
    if j > 0 && g in states[j - 1].canaryBuilt { k := BuiltWhen(n, states, events, j - 1, g); } else { k := j - 1; }
  }

  lemma {:induction false} AcceptedWhen(n: nat, states: seq<State>, events: seq<Event>, j: nat, g: nat) returns (k: nat)
    requires Run(n, states, events) && j < |states| && g in states[j].accepted && g > 0
    ensures k < j && Accepts(states[k], events[k], g)
  {
    if j > 0 && g in states[j - 1].accepted { k := AcceptedWhen(n, states, events, j - 1, g); } else { k := j - 1; }
  }

  lemma {:induction false} CommittedWhen(n: nat, states: seq<State>, events: seq<Event>, j: nat, g: nat)
    returns (k: nat)
    requires Run(n, states, events) && j < |states| && g in states[j].committed && g > 0
    ensures k < j && Commits(states[k], events[k], g)
  {
    if j > 0 && g in states[j - 1].committed { k := CommittedWhen(n, states, events, j - 1, g); } else { k := j - 1; }
  }

  lemma WorkersRunCommitted(s: State, w: nat)
    requires Inv(s) && 1 <= w < |s.workers|
    ensures s.workers[w].installed in s.committed
  {
    assert OtherOk(s, w, s.workers[w]);
    assert Given(s.workers[w], s.workers[w].installed);
  }

  /** A worker other than the canary runs the first generation, or one that the canary compiled, then
      the coordinator accepted in time, and then committed, in this order and all before now. */
  lemma OnlyCanaryApproved(n: nat, states: seq<State>, events: seq<Event>, j: nat, w: nat)
    requires Run(n, states, events) && j < |states| && 1 <= w < n
    ensures |states[j].workers| == n
    ensures var g := states[j].workers[w].installed;
            g == 0 || exists a, b, c :: 0 <= a < b < c < j && Passed(states, events, a, b, c, g)
  {
    hide Inv, Apply;
    InvHolds(n, states, events, j);
    var g := states[j].workers[w].installed;
    if g > 0 {
      WorkersRunCommitted(states[j], w);
      var c := CommittedWhen(n, states, events, j, g);
      InvHolds(n, states, events, c);
      assert g in states[c].accepted by { PhaseParts(states[c]); }
      var b := AcceptedWhen(n, states, events, c, g);
      InvHolds(n, states, events, b);
      assert g in states[b].canaryBuilt by { PhaseParts(states[b]); }
      var a := BuiltWhen(n, states, events, b, g);
      assert Passed(states, events, a, b, c, g);
    }
  }

  lemma PhaseParts(s: State)
    requires Inv(s)
    ensures s.phase.Committing? ==> s.phase.gen in s.accepted
    ensures forall g :: g in s.replies && s.replies[g] ==> g in s.canaryBuilt
  {
  }

  // ---------------------------------------------------------------- never backwards

  lemma StepForward(s: State, e: Event)
    requires Inv(s) && Enabled(s, e)
    ensures var t := Apply(s, e);
            && |t.workers| == |s.workers|
            && (forall w :: 0 <= w < |s.workers| ==> s.workers[w].installed <= t.workers[w].installed)
            && s.plugins <= t.plugins && s.site <= t.site && s.tls <= t.tls
            && s.aborted <= t.aborted && s.canaryBuilt <= t.canaryBuilt
  {
    hide Given, HistoryOk, ReplyFlags;
    if WorkerEvent(e) {
      var k := s.workers[e.w];
      assert Ordered(k) by { if e.w > 0 { assert OtherOk(s, e.w, k); } else { assert CanaryOk(s, k); } }
      StepOrdered(k, e);
    }
    hide Ordered, CanaryOk, OtherOk;
  }

  /** No worker and no part of the shared state ever goes back to an older generation. */
  lemma {:induction false} NeverBackwards(n: nat, states: seq<State>, events: seq<Event>, i: nat, j: nat)
    requires Run(n, states, events) && i <= j < |states|
    ensures |states[i].workers| == |states[j].workers|
    ensures forall w :: 0 <= w < |states[i].workers| ==>
              states[i].workers[w].installed <= states[j].workers[w].installed
    ensures states[i].plugins <= states[j].plugins && states[i].site <= states[j].site && states[i].tls <= states[j].tls
    ensures states[i].aborted <= states[j].aborted && states[i].canaryBuilt <= states[j].canaryBuilt
  {
    hide Inv, Apply, Enabled;
    if i < j {
      NeverBackwards(n, states, events, i, j - 1);
      InvHolds(n, states, events, j - 1);
      StepForward(states[j - 1], events[j - 1]);
    }
  }

  // ---------------------------------------------------------------- reloads that were given up

  /** A generation the coordinator gave up, whatever reply comes later, is never committed and never
      given to a worker other than the canary. */
  lemma GivenUpStaysOut(n: nat, states: seq<State>, events: seq<Event>, i: nat, j: nat, g: nat)
    requires Run(n, states, events) && i <= j < |states| && g in states[i].aborted
    ensures var t := states[j];
            && g !in t.committed && t.site != g && t.plugins != g && t.tls != g
            && forall w :: 1 <= w < |t.workers| ==> !Given(t.workers[w], g)
  {
    InvHolds(n, states, events, j);
    NeverBackwards(n, states, events, i, j);
    hide Given, Ordered, ReplyFlags;
    var t := states[j];
    forall w | 1 <= w < |t.workers|
      ensures !Given(t.workers[w], g)
    {
      assert OtherOk(t, w, t.workers[w]);
    }
  }

  lemma {:induction false} RepliesStay(n: nat, states: seq<State>, events: seq<Event>, i: nat, j: nat, g: nat)
    requires Run(n, states, events) && i <= j < |states| && g in states[i].replies
    ensures g in states[j].replies && states[j].replies[g] == states[i].replies[g]
  {
    hide Inv;
    if i < j {
      RepliesStay(n, states, events, i, j - 1, g);
      InvHolds(n, states, events, j - 1);
      var s, e := states[j - 1], events[j - 1];
      if e.Answer? {
        if e.w == 0 { CompilesNew(s, e); } else { OtherParts(s, e.w); }
      }
    }
  }

  /** A generation the canary could not compile is never anywhere: not in the shared state and not on
      any worker, the canary included. */
  lemma RefusedIsNowhere(n: nat, states: seq<State>, events: seq<Event>, i: nat, j: nat, g: nat)
    requires Run(n, states, events) && i < |states| && j < |states|
    requires g in states[i].replies && !states[i].replies[g]
    ensures var t := states[j];
            && t.site != g && t.plugins != g && t.tls != g
            && forall w :: 0 <= w < |t.workers| ==> t.workers[w].installed != g
  {
    var t := states[j];
    InvHolds(n, states, events, j);
    if i <= j {
      RepliesStay(n, states, events, i, j, g);
    } else {
      InvHolds(n, states, events, i);
      NeverBackwards(n, states, events, j, i);
    }
    assert g !in t.canaryBuilt;
    hide Given, Ordered, ReplyFlags, OtherOk;
    forall w | 0 <= w < |t.workers|
      ensures t.workers[w].installed != g
    {
      if w > 0 { WorkersRunCommitted(t, w); }
    }
  }

  /** Who can run a generation that was given up: nobody but the canary, and the canary does so at
      some time exactly when it finished compiling it, before or after the coordinator gave up. */
  lemma GivenUpRunsIff(n: nat, states: seq<State>, events: seq<Event>, j: nat, g: nat)
    requires Run(n, states, events) && j < |states| && g in states[j].aborted && n > 0
    ensures forall k :: 0 <= k <= j ==> |states[k].workers| == n
    ensures (exists k :: 0 <= k <= j && states[k].workers[0].installed == g) <==>
            (exists k :: 0 <= k < j && Builds(states[k], events[k], g))
    ensures forall k, w :: 0 <= k <= j && 1 <= w < n ==> states[k].workers[w].installed != g
  {
    hide Inv;
    forall k | 0 <= k <= j
      ensures |states[k].workers| == n && (states[k].workers[0].installed == g ==> g in states[j].canaryBuilt)
      ensures forall w :: 1 <= w < n ==> states[k].workers[w].installed != g
    {
      InvHolds(n, states, events, k);
      InvHolds(n, states, events, j);
      CanaryParts(states[k]);
      NeverBackwards(n, states, events, k, j);
      forall w | 1 <= w < n
        ensures states[k].workers[w].installed != g
      {
        WorkersRunCommitted(states[k], w);
        GivenUpBefore(n, states, events, k, j, g);
      }
    }
    InvHolds(n, states, events, j);
    assert g > 0 by { AbortedPositive(states[j], g); }
    if g in states[j].canaryBuilt {
      var k := BuiltWhen(n, states, events, j, g);
      assert states[k + 1].workers[0].installed == g;
    }
    forall k | 0 <= k < j && Builds(states[k], events[k], g)
      ensures g in states[j].canaryBuilt
    {
      NeverBackwards(n, states, events, k + 1, j);
    }
  }

  lemma AbortedPositive(s: State, g: nat)
    requires Inv(s) && g in s.aborted
    ensures g > 0
  {
  }

  lemma CanaryParts(s: State)
    requires Inv(s) && |s.workers| > 0
    ensures s.workers[0].installed in s.canaryBuilt
  {
  }

  lemma GivenUpBefore(n: nat, states: seq<State>, events: seq<Event>, i: nat, j: nat, g: nat)
    requires Run(n, states, events) && i <= j < |states| && g in states[j].aborted
    ensures g !in states[i].committed
  {
    hide Inv;
    CommittedStays(n, states, events, i, j, g);
    InvHolds(n, states, events, j);
    NotBoth(states[j], g);
  }

  lemma NotBoth(s: State, g: nat)
    requires Inv(s) && g in s.aborted
    ensures g !in s.committed
  {
  }

  lemma {:induction false} CommittedStays(n: nat, states: seq<State>, events: seq<Event>, i: nat, j: nat, g: nat)
    requires Run(n, states, events) && i <= j < |states|
    ensures g in states[i].committed ==> g in states[j].committed
  {
    if i < j { CommittedStays(n, states, events, i, j - 1, g); }
  }

  /** The timeout does not always leave everything as it was: the canary may finish compiling after
      the coordinator gave up, and then runs a generation that nothing else has. */
  lemma LateCanary() returns (states: seq<State>, events: seq<Event>)
    ensures |events| == 4 && Run(2, states, events) && events[2].TimeOut?
    ensures var t := states[4];
            && t.phase.Idle? && 1 in t.aborted && t.site == 0 && t.plugins == 0
            && |t.workers| == 2 && t.workers[0].installed == 1 && t.workers[1].installed == 0
  {
    events := [Begin, Take(0), TimeOut, Compile(0, true)];
    var s0 := Init(2);
    var s1 := Apply(s0, Begin);
    var s2 := Apply(s1, Take(0));
    var s3 := Apply(s2, TimeOut);
    var s4 := Apply(s3, Compile(0, true));
    states := [s0, s1, s2, s3, s4];
    hide Enabled, Apply;
  }

  // ---------------------------------------------------------------- the rollout reaches everybody

  /** A worker that has nothing left to do after a rollout runs the committed site, unless compiling
      it failed there. */
  lemma RolledOut(n: nat, states: seq<State>, events: seq<Event>, j: nat, w: nat)
    requires Run(n, states, events) && j < |states| && 1 <= w < n
    ensures |states[j].workers| == n
    ensures var t := states[j];
            var k := t.workers[w];
            Reached(t, w) && k.alive && k.queue == [] && k.activity.Resting? ==>
              k.installed == t.site || (w, t.site) in t.failed
  {
    InvHolds(n, states, events, j);
    assert OtherOk(states[j], w, states[j].workers[w]);
  }

  // ---------------------------------------------------------------- the two loops

  class SharedState {
    var plugins: nat
    var site: nat
    var tls: nat
  }

  /** What the coordinator hears from the canary before its timeout. */
  datatype Verdict = Compiled | CompileError | NoAnswer

  /** What the coordinator holds is as in this state of the protocol. */
  ghost predicate Shows(shared: SharedState, queues: array<seq<Request>>, alive: seq<bool>, s: State)
    reads shared, queues
  {
    && shared.plugins == s.plugins && shared.site == s.site && shared.tls == s.tls
    && |s.workers| == queues.Length == |alive|
    && forall w :: 0 <= w < queues.Length ==> queues[w] == s.workers[w].queue && alive[w] == s.workers[w].alive
  }

  predicate Possible(s: State, events: seq<Event>)
    decreases |events|
  {
    events == [] || (Enabled(s, events[0]) && Possible(Apply(s, events[0]), events[1..]))
  }

  function Follow(s: State, events: seq<Event>): (t: State)
    requires Possible(s, events)
    decreases |events|
  {
    if events == [] then s else Follow(Apply(s, events[0]), events[1..])
  }

  lemma Then(s: State, e: Event, events: seq<Event>)
    requires Enabled(s, e) && Possible(Apply(s, e), events)
    ensures Possible(s, [e] + events) && Follow(s, [e] + events) == Follow(Apply(s, e), events)
  {
    hide Apply, Enabled;
    assert ([e] + events)[1..] == events;
  }

  /** The requests to the workers from `w` on, and the end of the reload. */
  function RollOut(w: nat, n: nat): (events: seq<Event>)
    requires w <= n
    decreases n - w
  {
    if w == n then [Finish] else [Send] + RollOut(w + 1, n)
  }

  /** The workers from `w` on that are alive have one more request. */
  predicate SentTo(before: seq<Worker>, after: seq<Worker>, w: nat, gen: nat) {
    && |after| == |before|
    && forall v :: 0 <= v < |before| ==>
         after[v] == if v >= w && before[v].alive then before[v].(queue := before[v].queue + [Request(gen, false)])
                     else before[v]
  }

  lemma {:induction false} RollOutSteps(s: State)
    requires s.phase.RollingOut? && s.phase.next <= |s.workers|
    ensures Possible(s, RollOut(s.phase.next, |s.workers|))
    ensures var t := Follow(s, RollOut(s.phase.next, |s.workers|));
            && t == s.(phase := Idle, workers := t.workers)
            && SentTo(s.workers, t.workers, s.phase.next, s.phase.gen)
    decreases |s.workers| - s.phase.next
  {
    hide Possible, Follow;
    var w, n := s.phase.next, |s.workers|;
    if w == n {
      var t := Apply(s, Finish);
      Nothing(t);
      Then(s, Finish, []);
      assert [Finish] + [] == [Finish];
    } else {
      var s1 := Apply(s, Send);
      RollOutSteps(s1);
      Then(s, Send, RollOut(w + 1, n));
    }
  }

  lemma Nothing(s: State)
    ensures Possible(s, []) && Follow(s, []) == s
  {
  }

  /** What the coordinator does when it stops waiting. */
  function Decision(verdict: Verdict, tlsLoaded: bool, n: nat): (events: seq<Event>)
    requires n > 0
  {
    match verdict
    case Compiled => [Accept] + ([StorePlugins] + ([StoreSite] + ([StoreTls(tlsLoaded)] + RollOut(1, n))))
    case CompileError => [Reject]
    case NoAnswer => [TimeOut]
  }

  predicate Heard(s: State, gen: nat, verdict: Verdict) {
    && s.phase == Waiting(gen)
    && verdict == if gen !in s.replies then NoAnswer else if s.replies[gen] then Compiled else CompileError
  }

  lemma DecisionSteps(s: State, gen: nat, verdict: Verdict, tlsLoaded: bool)
    requires Heard(s, gen, verdict) && |s.workers| > 0
    ensures Possible(s, Decision(verdict, tlsLoaded, |s.workers|))
    ensures var t := Follow(s, Decision(verdict, tlsLoaded, |s.workers|));
            && t.phase.Idle? && t.attempts == s.attempts && t.replies == s.replies
            && if verdict.Compiled? then
                 && t.plugins == t.site == gen && t.tls == (if tlsLoaded then gen else s.tls)
                 && SentTo(s.workers, t.workers, 1, gen) && t.committed == s.committed + {gen}
               else
                 && t.plugins == s.plugins && t.site == s.site && t.tls == s.tls && t.workers == s.workers
                 && t.aborted == s.aborted + {gen}
  {
    hide Possible, Follow, SentTo, RollOut;
    if verdict.Compiled? {
      var a := Apply(s, Accept);
      var b := Apply(a, StorePlugins);
      var c := Apply(b, StoreSite);
      var d := Apply(c, StoreTls(tlsLoaded));
      var last := RollOut(1, |s.workers|);
      RollOutSteps(d);
      Then(c, StoreTls(tlsLoaded), last);
      Then(b, StoreSite, [StoreTls(tlsLoaded)] + last);
      Then(a, StorePlugins, [StoreSite] + ([StoreTls(tlsLoaded)] + last));
      Then(s, Accept, [StorePlugins] + ([StoreSite] + ([StoreTls(tlsLoaded)] + last)));
    } else {
      var e := if verdict.NoAnswer? then TimeOut else Reject;
      Nothing(Apply(s, e));
      Then(s, e, []);
      assert [e] + [] == [e];
    }
  }

  /** Asks the canary to compile; in the protocol, the beginning of a reload. */
  method BeginReload(shared: SharedState, queues: array<seq<Request>>, alive: seq<bool>, gen: nat)
    returns (waiting: bool)
    requires |alive| == queues.Length > 0
    modifies queues
    ensures waiting == alive[0]
    ensures queues[..] == if waiting then [old(queues[0]) + [Request(gen, true)]] + old(queues[1..])
                          else old(queues[..])
    ensures forall s: State :: old(Shows(shared, queues, alive, s)) && s.phase.Idle? && gen == s.attempts + 1 ==>
              var t := Apply(s, Begin);
              Shows(shared, queues, alive, t) && t.phase == if waiting then Waiting(gen) else Idle
  {
    waiting := alive[0];
    if waiting { queues[0] := queues[0] + [Request(gen, true)]; }
  }

  /** Goes by the canary's answer: commits and rolls out, or leaves everything as it is. */
  method DecideReload(shared: SharedState, queues: array<seq<Request>>, alive: seq<bool>, gen: nat,
                      tlsLoaded: bool, verdict: Verdict)
    returns (committed: bool)
    requires |alive| == queues.Length > 0
    modifies shared, queues
    ensures committed == verdict.Compiled?
    ensures !committed ==> unchanged(shared) && unchanged(queues)
    ensures committed ==>
              shared.plugins == shared.site == gen && shared.tls == if tlsLoaded then gen else old(shared.tls)
    ensures queues[0] == old(queues[0])
    ensures committed ==>
              forall w :: 1 <= w < queues.Length ==>
                queues[w] == old(queues[w]) + if alive[w] then [Request(gen, false)] else []
    ensures forall s: State :: old(Shows(shared, queues, alive, s)) && Heard(s, gen, verdict) ==>
              && Possible(s, Decision(verdict, tlsLoaded, |s.workers|))
              && Shows(shared, queues, alive, Follow(s, Decision(verdict, tlsLoaded, |s.workers|)))
  {
    committed := verdict.Compiled?;
    if committed {
      shared.plugins := gen;
      shared.site := gen;
      if tlsLoaded { shared.tls := gen; }
      for w := 1 to queues.Length
        invariant shared.plugins == shared.site == gen && shared.tls == if tlsLoaded then gen else old(shared.tls)
        invariant queues[0] == old(queues[0])
        invariant forall v :: 1 <= v < queues.Length ==>
                    queues[v] == old(queues[v]) + if v < w && alive[v] then [Request(gen, false)] else []
      {
        if alive[w] { queues[w] := queues[w] + [Request(gen, false)]; }
      }
    }
    hide Possible, Follow, Decision;
    forall s: State | old(Shows(shared, queues, alive, s)) && Heard(s, gen, verdict)
      ensures Possible(s, Decision(verdict, tlsLoaded, |s.workers|))
      ensures Shows(shared, queues, alive, Follow(s, Decision(verdict, tlsLoaded, |s.workers|)))
    {
      DecisionSteps(s, gen, verdict, tlsLoaded);
    }
  }

  /** One reload on the coordinator thread; between its two stretches it waits for the canary. */
  method PerformReload(shared: SharedState, queues: array<seq<Request>>, alive: seq<bool>, gen: nat,
                       loaded: bool, tlsLoaded: bool, verdict: Verdict)
    returns (committed: bool)
    requires |alive| == queues.Length
    modifies shared, queues
    ensures committed <==> loaded && queues.Length > 0 && alive[0] && verdict.Compiled?
    ensures !committed ==> unchanged(shared)
    ensures committed ==>
              shared.plugins == shared.site == gen && shared.tls == if tlsLoaded then gen else old(shared.tls)
    ensures forall w :: 0 <= w < queues.Length ==>
              var reached := alive[w] && if w == 0 then loaded else committed;
              queues[w] == old(queues[w]) + if reached then [Request(gen, w == 0)] else []
  {
    if !loaded || queues.Length == 0 { return false; }
    var waiting := BeginReload(shared, queues, alive, gen);
    assert forall w :: 1 <= w < queues.Length ==> queues[w] == queues[..][w] == old(queues[w]);
    assert queues[0] == queues[..][0];
    if !waiting { return false; }
    committed := DecideReload(shared, queues, alive, gen, tlsLoaded, verdict);
  }

  /** A worker that works off its queue: it takes, compiles and answers one request after another. */
  function Worked(k: Worker, compiles: nat -> bool): (r: Worker)
    requires k.activity.Resting?
    decreases |k.queue|
  {
    if k.queue == [] then k else Worked(WorkedOne(k, compiles(k.queue[0].gen)), compiles)
  }

  function WorkedOne(k: Worker, ok: bool): (r: Worker)
    requires k.activity.Resting? && k.queue != []
    ensures r.activity.Resting? && r.queue == k.queue[1..]
  {
    WorkerStep(WorkerStep(WorkerStep(k, Take(0)), Compile(0, ok)), Answer(0))
  }

  /** It ends on the last request that compiled. */
  lemma {:induction false} WorkedInstalls(k: Worker, compiles: nat -> bool)
    requires k.activity.Resting?
    ensures var t := Worked(k, compiles);
            && (LastCompiled(k.queue, compiles, -1) ==> t.installed == k.installed)
            && forall i :: 0 <= i < |k.queue| && LastCompiled(k.queue, compiles, i) ==> t.installed == k.queue[i].gen
    decreases |k.queue|
  {
    if k.queue != [] {
      var k1 := WorkedOne(k, compiles(k.queue[0].gen));
      WorkedInstalls(k1, compiles);
      hide Worked;
      forall i | -1 <= i < |k.queue| && LastCompiled(k.queue, compiles, i)
        ensures i > 0 ==> LastCompiled(k1.queue, compiles, i - 1)
        ensures i <= 0 ==> LastCompiled(k1.queue, compiles, -1)
      {
      }
      assert LastCompiled(k.queue, compiles, -1) ==> LastCompiled(k1.queue, compiles, -1);
    }
  }

  /** Request `i` compiles and no later one does; -1 stands for none. */
  predicate LastCompiled(q: seq<Request>, compiles: nat -> bool, i: int)
    requires -1 <= i < |q|
  {
    (i >= 0 ==> compiles(q[i].gen)) && forall j :: i < j < |q| ==> !compiles(q[j].gen)
  }

  class ScriptRuntime {
    var installed: nat
    var queue: seq<Request>

    /** The worker's loop over the requests it has: it ends on the last one that compiled, and answers
        each request that asks for it. */
    method ReloadLoop(compiles: nat -> bool) returns (replies: seq<(nat, bool)>)
      modifies this
      ensures queue == []
      ensures LastCompiled(old(queue), compiles, -1) ==> installed == old(installed)
      ensures forall i :: 0 <= i < |old(queue)| && LastCompiled(old(queue), compiles, i) ==>
                installed == old(queue)[i].gen
      ensures replies == Replies(old(queue), compiles)
      ensures Worked(Worker(true, old(queue), Resting, old(installed)), compiles) ==
              Worker(true, [], Resting, installed)
    {
      hide LastCompiled, Worked, Replies;
      replies := [];
      WorkedInstalls(Worker(true, queue, Resting, installed), compiles);
      assert [] + Replies(queue, compiles) == Replies(queue, compiles);
      while queue != []
        invariant replies + Replies(queue, compiles) == Replies(old(queue), compiles)
        invariant Worked(Worker(true, queue, Resting, installed), compiles) ==
                  Worked(Worker(true, old(queue), Resting, old(installed)), compiles)
        decreases |queue|
      {
        WorkedNext(Worker(true, queue, Resting, installed), replies, compiles);
        var req := queue[0];
        queue := queue[1..];
        var ok := compiles(req.gen);
        if ok { installed := req.gen; }
        if req.reply { replies := replies + [(req.gen, ok)]; }
      }
      WorkedOff(Worker(true, queue, Resting, installed), replies, compiles);
    }
  }

  lemma WorkedNext(k: Worker, replies: seq<(nat, bool)>, compiles: nat -> bool)
    requires k.activity.Resting? && k.queue != []
    ensures var req := k.queue[0];
            var ok := compiles(req.gen);
            && Worked(k, compiles) ==
               Worked(Worker(k.alive, k.queue[1..], Resting, if ok then req.gen else k.installed), compiles)
            && replies + Replies(k.queue, compiles) ==
               (if req.reply then replies + [(req.gen, ok)] else replies) + Replies(k.queue[1..], compiles)
  {
    var req := k.queue[0];
    var ok := compiles(req.gen);
    assert WorkedOne(k, ok) == Worker(k.alive, k.queue[1..], Resting, if ok then req.gen else k.installed);
  }

  lemma WorkedOff(k: Worker, replies: seq<(nat, bool)>, compiles: nat -> bool)
    requires k.activity.Resting? && k.queue == []
    ensures Worked(k, compiles) == k && replies + Replies([], compiles) == replies
  {
  }

  /** The answers to a run of requests. */
  function Replies(q: seq<Request>, compiles: nat -> bool): (r: seq<(nat, bool)>) {
    if q == [] then [] else (if q[0].reply then [(q[0].gen, compiles(q[0].gen))] else []) + Replies(q[1..], compiles)
  }
}
