/** The rate limiter (`src/ratelimit.rs`). Its buckets keep one counter per key and window and are
    swept when an hour has passed. First theorem: over any run of checks and sweeps under a clock
    that does not go back, every decision is the one a complete log of the allowed requests would
    give, so sweeping forgets nothing that matters. Second theorem: with N threads racing between
    the size test and the insertion the map never grows past its limit by more than N - 1. */
module RateLimit {

  type Key = seq<int>

  const MINUTE := 60
  const HOUR := 3600

  datatype Outcome = Allowed | ExceededSecond | ExceededMinute | ExceededHour | ExceededBucketLimit

  datatype Limits = Limits(perSecond: nat, perMinute: nat, perHour: nat)

  datatype Bucket = Bucket(
    secondTs: nat, secondCount: nat, minuteTs: nat, minuteCount: nat, hourTs: nat, hourCount: nat)

  function NewBucket(now: nat): (b: Bucket) {
    Bucket(now, 0, now / MINUTE, 0, now / HOUR, 0)
  }

  /** Counters of windows that have passed start again at zero. */
  function Rolled(b: Bucket, now: nat): (r: Bucket) {
    Bucket(
      now, if b.secondTs != now then 0 else b.secondCount,
      now / MINUTE, if b.minuteTs != now / MINUTE then 0 else b.minuteCount,
      now / HOUR, if b.hourTs != now / HOUR then 0 else b.hourCount)
  }

  /** Zero means unlimited; the shortest exhausted window is reported. */
  function Verdict(l: Limits, seconds: nat, minutes: nat, hours: nat): (o: Outcome) {
    if l.perSecond > 0 && seconds >= l.perSecond then ExceededSecond
    else if l.perMinute > 0 && minutes >= l.perMinute then ExceededMinute
    else if l.perHour > 0 && hours >= l.perHour then ExceededHour
    else Allowed
  }

  function Counted(b: Bucket): (r: Bucket) {
    b.(secondCount := b.secondCount + 1, minuteCount := b.minuteCount + 1, hourCount := b.hourCount + 1)
  }

  type Buckets = map<Key, Bucket>

  /** One check as an atomic step. A new bucket reads the clock again, at `later`. */
  function CheckStep(buckets: Buckets, max: nat, key: Key, l: Limits, now: nat, later: nat): (r: (Buckets, Outcome)) {
    if key !in buckets && |buckets| >= max then (buckets, ExceededBucketLimit)
    else
      var b := Rolled(if key in buckets then buckets[key] else NewBucket(later), now);
      var o := Verdict(l, b.secondCount, b.minuteCount, b.hourCount);
      (buckets[key := if o == Allowed then Counted(b) else b], o)
  }

  function CleanupStep(buckets: Buckets, now: nat): (r: Buckets) {
    map k | k in buckets && buckets[k].hourTs == now / HOUR :: buckets[k]
  }

  class RateLimitManager {
    var buckets: Buckets
    const maxBuckets: nat

    constructor (max: nat)
      ensures buckets == map[] && maxBuckets == max
    {
      buckets, maxBuckets := map[], max;
    }

    method Check(key: Key, l: Limits, now: nat, later: nat) returns (o: Outcome)
      modifies this
      ensures (buckets, o) == CheckStep(old(buckets), maxBuckets, key, l, now, later)
    {
      var isNew := key !in buckets;
      if isNew && |buckets| >= maxBuckets {
        return ExceededBucketLimit;
      }
      var b := if key in buckets then buckets[key] else NewBucket(later);
      if b.secondTs != now {
        b := b.(secondTs := now, secondCount := 0);
      }
      if b.minuteTs != now / MINUTE {
        b := b.(minuteTs := now / MINUTE, minuteCount := 0);
      }
      if b.hourTs != now / HOUR {
        b := b.(hourTs := now / HOUR, hourCount := 0);
      }
      buckets := buckets[key := b];
      if l.perSecond > 0 && b.secondCount >= l.perSecond {
        return ExceededSecond;
      }
      if l.perMinute > 0 && b.minuteCount >= l.perMinute {
        return ExceededMinute;
      }
      if l.perHour > 0 && b.hourCount >= l.perHour {
        return ExceededHour;
      }
      b := b.(secondCount := b.secondCount + 1, minuteCount := b.minuteCount + 1, hourCount := b.hourCount + 1);
      buckets := buckets[key := b];
      assert buckets == old(buckets)[key := b];
      return Allowed;
    }

    method CleanupExpired(now: nat)
      modifies this
      ensures buckets == CleanupStep(old(buckets), now)
    {
      var kept: Buckets := map[];
      var left := buckets.Keys;
      while left != {}
        invariant left <= buckets.Keys
        invariant kept == map k | k in buckets && k !in left && buckets[k].hourTs == now / HOUR :: buckets[k]
        invariant buckets == old(buckets)
        decreases left
      {
        var k :| k in left;
        if buckets[k].hourTs == now / HOUR {
          kept := kept[k := buckets[k]];
        }
        left := left - {k};
      }
      buckets := kept;
    }
  }

  /** Which of the two clock readings a new bucket starts from does not matter. */
  lemma SecondReadingIrrelevant(buckets: Buckets, max: nat, key: Key, l: Limits, now: nat, later: nat)
    ensures CheckStep(buckets, max, key, l, now, later) == CheckStep(buckets, max, key, l, now, now)
  {
    assert Rolled(NewBucket(later), now) == Rolled(NewBucket(now), now);
  }

  // ---------------------------------------------------------------- the reference: a log

  datatype Entry = Entry(key: Key, at: nat)

  type Log = seq<Entry>

  /** How many allowed requests of `key` fell into the window of length `width` that `now` is in. */
  function InWindow(log: Log, key: Key, width: nat, now: nat): (n: nat)
    requires width > 0
  {
    if log == [] then 0
    else InWindow(log[..|log| - 1], key, width, now) +
         (var e := log[|log| - 1]; if e.key == key && e.at / width == now / width then 1 else 0)
  }

  /** The decision a full log gives. */
  function LogVerdict(log: Log, key: Key, l: Limits, now: nat): (o: Outcome) {
    Verdict(l, InWindow(log, key, 1, now), InWindow(log, key, MINUTE, now), InWindow(log, key, HOUR, now))
  }

  datatype Op =
    | Check(key: Key, l: Limits, now: nat, later: nat)
    | Cleanup(now: nat)

  datatype World = World(buckets: Buckets, log: Log, clock: nat)

  function Step(max: nat, w: World, op: Op): (r: (World, Outcome)) {
    match op
    case Check(key, l, now, later) =>
      var (buckets, o) := CheckStep(w.buckets, max, key, l, now, later);
      (World(buckets, if o == Allowed then w.log + [Entry(key, now)] else w.log, now), o)
    case Cleanup(now) => (World(CleanupStep(w.buckets, now), w.log, now), Allowed)
  }

  /** The bucket of `key` holds exactly what the log says about its windows, and nothing in the log is
      later than the bucket. */
  ghost predicate BucketAgrees(log: Log, key: Key, b: Bucket) {
    && b.minuteTs == b.secondTs / MINUTE && b.hourTs == b.secondTs / HOUR
    && b.secondCount == InWindow(log, key, 1, b.secondTs)
    && b.minuteCount == InWindow(log, key, MINUTE, b.secondTs)
    && b.hourCount == InWindow(log, key, HOUR, b.secondTs)
    && forall i :: 0 <= i < |log| && log[i].key == key ==> log[i].at <= b.secondTs
  }

  ghost predicate Inv(w: World) {
    && (forall i :: 0 <= i < |w.log| ==> w.log[i].at <= w.clock)
    && (forall k :: k in w.buckets ==> w.buckets[k].secondTs <= w.clock && BucketAgrees(w.log, k, w.buckets[k]))
    && forall i :: 0 <= i < |w.log| && w.log[i].key !in w.buckets ==> w.log[i].at / HOUR < w.clock / HOUR
  }

  /** Nothing of `key` in a window later than all its entries. */
  lemma {:induction false} LaterWindowIsEmpty(log: Log, key: Key, width: nat, now: nat)
    requires width > 0
    requires forall i :: 0 <= i < |log| && log[i].key == key ==> log[i].at / width < now / width
    ensures InWindow(log, key, width, now) == 0
  {
    if log != [] {
      LaterWindowIsEmpty(log[..|log| - 1], key, width, now);
    }
  }

  lemma {:induction false} SameWindowSameCount(log: Log, key: Key, width: nat, a: nat, b: nat)
    requires width > 0 && a / width == b / width
    ensures InWindow(log, key, width, a) == InWindow(log, key, width, b)
  {
    if log != [] {
      SameWindowSameCount(log[..|log| - 1], key, width, a, b);
    }
  }

  lemma LogAppend(log: Log, e: Entry, key: Key, width: nat, now: nat)
    requires width > 0
    ensures InWindow(log + [e], key, width, now)
         == InWindow(log, key, width, now) + (if e.key == key && e.at / width == now / width then 1 else 0)
  {
    assert (log + [e])[..|log|] == log;
  }

  /** Rolling a window forward: the count for the new time. */
  lemma RolledCount(log: Log, key: Key, width: nat, then_: nat, now: nat)
    requires width > 0 && then_ <= now
    requires forall i :: 0 <= i < |log| && log[i].key == key ==> log[i].at <= then_
    ensures InWindow(log, key, width, now)
         == if then_ / width != now / width then 0 else InWindow(log, key, width, then_)
  {
    DivMonotone(then_, now, width);
    if then_ / width == now / width {
      SameWindowSameCount(log, key, width, then_, now);
    } else {
      forall i | 0 <= i < |log| && log[i].key == key ensures log[i].at / width < now / width {
        DivMonotone(log[i].at, then_, width);
      }
      LaterWindowIsEmpty(log, key, width, now);
    }
  }

  lemma DivMonotone(a: nat, b: nat, d: nat)
    requires d > 0 && a <= b
    ensures a / d <= b / d
  {
    assert a == a / d * d + a % d && b == b / d * d + b % d;
    QuotientBound(a / d, b / d, d, a, b);
  }

  lemma QuotientBound(qa: int, qb: int, d: int, a: int, b: int)
    requires d > 0 && qa * d <= a <= b < qb * d + d
    ensures qa <= qb
  {
    assert qa >= qb + 1 ==> (qa - qb - 1) * d >= 0;
  }

  /** A bucket that agrees with the log agrees after rolling it to the present. */
  lemma RolledAgrees(log: Log, key: Key, b: Bucket, now: nat)
    requires BucketAgrees(log, key, b) && b.secondTs <= now
    ensures BucketAgrees(log, key, Rolled(b, now))
  {
    RolledCount(log, key, 1, b.secondTs, now);
    RolledCount(log, key, MINUTE, b.secondTs, now);
    RolledCount(log, key, HOUR, b.secondTs, now);
  }

  /** A key without a bucket has no entry in the current hour, hence none in its minute or second. */
  lemma FreshAgrees(log: Log, key: Key, now: nat, clock: nat)
    requires clock <= now
    requires forall i :: 0 <= i < |log| && log[i].key == key ==> log[i].at / HOUR < clock / HOUR && log[i].at <= clock
    ensures BucketAgrees(log, key, NewBucket(now))
  {
    DivMonotone(clock, now, HOUR);
    forall i | 0 <= i < |log| && log[i].key == key
      ensures log[i].at / 1 < now / 1 && log[i].at / MINUTE < now / MINUTE
    {
    }
    LaterWindowIsEmpty(log, key, 1, now);
    LaterWindowIsEmpty(log, key, MINUTE, now);
    LaterWindowIsEmpty(log, key, HOUR, now);
  }

  lemma CountedAgrees(log: Log, key: Key, b: Bucket)
    requires BucketAgrees(log, key, b)
    ensures BucketAgrees(log + [Entry(key, b.secondTs)], key, Counted(b))
  {
    LogAppend(log, Entry(key, b.secondTs), key, 1, b.secondTs);
    LogAppend(log, Entry(key, b.secondTs), key, MINUTE, b.secondTs);
    LogAppend(log, Entry(key, b.secondTs), key, HOUR, b.secondTs);
  }

  lemma OtherAgrees(log: Log, e: Entry, key: Key, b: Bucket)
    requires BucketAgrees(log, key, b) && e.key != key
    ensures BucketAgrees(log + [e], key, b)
  {
    LogAppend(log, e, key, 1, b.secondTs);
    LogAppend(log, e, key, MINUTE, b.secondTs);
    LogAppend(log, e, key, HOUR, b.secondTs);
  }

  lemma CheckKeeps(max: nat, w: World, key: Key, l: Limits, now: nat, later: nat)
    requires Inv(w) && w.clock <= now
    ensures Inv(Step(max, w, Check(key, l, now, later)).0)
    ensures var o := Step(max, w, Check(key, l, now, later)).1;
            if key !in w.buckets && |w.buckets| >= max then o == ExceededBucketLimit
            else o == LogVerdict(w.log, key, l, now)
  {
    hide BucketAgrees, Verdict, InWindow;
    DivMonotone(w.clock, now, HOUR);
    SecondReadingIrrelevant(w.buckets, max, key, l, now, later);
    if !(key !in w.buckets && |w.buckets| >= max) {
      var b := if key in w.buckets then w.buckets[key] else NewBucket(now);
      if key !in w.buckets {
        FreshAgrees(w.log, key, now, w.clock);
      }
      RolledAgrees(w.log, key, b, now);
      AgreesSays(w.log, key, Rolled(b, now));
      assert Step(max, w, Check(key, l, now, later)).1 == LogVerdict(w.log, key, l, now);
      CountedAgrees(w.log, key, Rolled(b, now));
      forall k | k in w.buckets && k != key ensures BucketAgrees(w.log + [Entry(key, now)], k, w.buckets[k]) {
        OtherAgrees(w.log, Entry(key, now), k, w.buckets[k]);
      }
    }
  }

  lemma AgreesSays(log: Log, key: Key, b: Bucket)
    requires BucketAgrees(log, key, b)
    ensures b.secondCount == InWindow(log, key, 1, b.secondTs)
    ensures b.minuteCount == InWindow(log, key, MINUTE, b.secondTs)
    ensures b.hourCount == InWindow(log, key, HOUR, b.secondTs)
  {
  }

  /** A sweep removes only buckets without an entry in the current hour. */
  lemma CleanupKeeps(max: nat, w: World, now: nat)
    requires Inv(w) && w.clock <= now
    ensures Inv(Step(max, w, Cleanup(now)).0)
  {
    DivMonotone(w.clock, now, HOUR);
    var after := CleanupStep(w.buckets, now);
    forall i | 0 <= i < |w.log| && w.log[i].key !in after ensures w.log[i].at / HOUR < now / HOUR {
      var k := w.log[i].key;
      if k in w.buckets {
        DivMonotone(w.log[i].at, w.buckets[k].secondTs, HOUR);
        DivMonotone(w.buckets[k].secondTs, now, HOUR);
      }
    }
  }

  /** A run: `worlds[i]` is before operation `i`, whose outcome is `outs[i]`. */
  ghost predicate Run(max: nat, worlds: seq<World>, ops: seq<Op>, outs: seq<Outcome>) {
    && |worlds| == |ops| + 1 && |outs| == |ops|
    && worlds[0] == World(map[], [], 0)
    && forall i :: 0 <= i < |ops| ==>
         worlds[i].clock <= ops[i].now && Step(max, worlds[i], ops[i]) == (worlds[i + 1], outs[i])
  }

  lemma {:induction false} InvHolds(max: nat, worlds: seq<World>, ops: seq<Op>, outs: seq<Outcome>, i: nat)
    requires Run(max, worlds, ops, outs) && i < |worlds|
    ensures Inv(worlds[i])
  {
    hide Inv, Step;
    if i == 0 {
      EmptyInv();
    } else {
      InvHolds(max, worlds, ops, outs, i - 1);
      assert Step(max, worlds[i - 1], ops[i - 1]) == (worlds[i], outs[i - 1]);
      match ops[i - 1]
      case Check(key, l, now, later) => CheckKeeps(max, worlds[i - 1], key, l, now, later);
      case Cleanup(now) => CleanupKeeps(max, worlds[i - 1], now);
    }
  }

  lemma EmptyInv()
    ensures Inv(World(map[], [], 0))
  {
  }

  /** Every check in every run decides as the full log of allowed requests would, except that a key
      without a bucket is refused when the table is full. */
  lemma DecidesLikeTheLog(max: nat, worlds: seq<World>, ops: seq<Op>, outs: seq<Outcome>, i: nat)
    requires Run(max, worlds, ops, outs) && i < |ops| && ops[i].Check?
    ensures var w := worlds[i];
            outs[i] == if ops[i].key !in w.buckets && |w.buckets| >= max then ExceededBucketLimit
                       else LogVerdict(w.log, ops[i].key, ops[i].l, ops[i].now)
    ensures outs[i] == Allowed ==> worlds[i + 1].log == worlds[i].log + [Entry(ops[i].key, ops[i].now)]
    ensures outs[i] != Allowed ==> worlds[i + 1].log == worlds[i].log
  {
    hide Inv;
    InvHolds(max, worlds, ops, outs, i);
    assert Step(max, worlds[i], ops[i]) == (worlds[i + 1], outs[i]);
    CheckKeeps(max, worlds[i], ops[i].key, ops[i].l, ops[i].now, ops[i].later);
  }

  // ---------------------------------------------------------------- decisions, by counting

  /** The entries of `key` in the log that fall into the window of `width` seconds around `now`. */
  function Logged(log: Log, key: Key, width: nat, now: nat): (found: set<nat>)
    requires width > 0
  {
    set i: nat | i < |log| && log[i].key == key && log[i].at / width == now / width
  }

  lemma {:induction false} WindowCounts(log: Log, key: Key, width: nat, now: nat)
    requires width > 0
    ensures InWindow(log, key, width, now) == |Logged(log, key, width, now)|
  {
    if log == [] {
      assert Logged(log, key, width, now) == {};
    } else {
      var n := |log| - 1;
      WindowCounts(log[..n], key, width, now);
      var more := if log[n].key == key && log[n].at / width == now / width then {n} else {};
      assert Logged(log, key, width, now) == Logged(log[..n], key, width, now) + more;
    }
  }

  /** A limit of zero is none; any other is used up when that many requests were let through. */
  predicate UsedUp(log: Log, key: Key, limit: nat, width: nat, now: nat)
    requires width > 0
  {
    limit != 0 && |Logged(log, key, width, now)| >= limit
  }

  /** Every check in every run that does not meet a full table is allowed exactly when neither the second
      nor the minute nor the hour is used up, and otherwise refused for the shortest that is. */
  lemma AllowedIff(max: nat, worlds: seq<World>, ops: seq<Op>, outs: seq<Outcome>, i: nat)
    requires Run(max, worlds, ops, outs) && i < |ops| && ops[i].Check?
    requires ops[i].key in worlds[i].buckets || |worlds[i].buckets| < max
    ensures var Check(key, l, now, _) := ops[i];
            var second := UsedUp(worlds[i].log, key, l.perSecond, 1, now);
            var minute := UsedUp(worlds[i].log, key, l.perMinute, 60, now);
            var hour := UsedUp(worlds[i].log, key, l.perHour, 3600, now);
            && (outs[i] == Allowed <==> !second && !minute && !hour)
            && (outs[i] == ExceededSecond <==> second)
            && (outs[i] == ExceededMinute <==> minute && !second)
            && (outs[i] == ExceededHour <==> hour && !minute && !second)
  {
    assert i < |worlds|;
    hide Run;
    DecidesLikeTheLog(max, worlds, ops, outs, i);
    var Check(key, l, now, _) := ops[i];
    WindowCounts(worlds[i].log, key, 1, now);
    WindowCounts(worlds[i].log, key, 60, now);
    WindowCounts(worlds[i].log, key, 3600, now);
    hide InWindow, Logged;
  }

  lemma RunSnoc(max: nat, worlds: seq<World>, ops: seq<Op>, outs: seq<Outcome>, op: Op)
    requires Run(max, worlds, ops, outs) && worlds[|ops|].clock <= op.now
    ensures var (w, o) := Step(max, worlds[|ops|], op); Run(max, worlds + [w], ops + [op], outs + [o])
  {
    hide Step;
  }

  /** `n` requests of one key in the same second, all of them let through. */
  ghost predicate Filled(max: nat, key: Key, now: nat, n: nat, worlds: seq<World>, ops: seq<Op>, outs: seq<Outcome>) {
    && Run(max, worlds, ops, outs) && |ops| == n && (forall i :: 0 <= i < n ==> outs[i] == Allowed)
    && worlds[n].clock <= now && (n > 0 ==> key in worlds[n].buckets) && (n == 0 ==> worlds[n].buckets == map[])
    && forall width: nat :: width > 0 ==> InWindow(worlds[n].log, key, width, now) == n
  }

  /** A window can be filled up to its limit: as many requests as all limits allow are let through. */
  lemma {:induction false} FillsUp(max: nat, key: Key, l: Limits, now: nat, n: nat)
    returns (worlds: seq<World>, ops: seq<Op>, outs: seq<Outcome>)
    requires max > 0
    requires (l.perSecond == 0 || n <= l.perSecond) && (l.perMinute == 0 || n <= l.perMinute)
    requires l.perHour == 0 || n <= l.perHour
    ensures Filled(max, key, now, n, worlds, ops, outs)
  {
    if n == 0 {
      worlds, ops, outs := [World(map[], [], 0)], [], [];
    } else {
      worlds, ops, outs := FillsUp(max, key, l, now, n - 1);
      FillsMore(max, key, l, now, n, worlds, ops, outs);
      var op := Check(key, l, now, now);
      var (w, o) := Step(max, worlds[n - 1], op);
      worlds, ops, outs := worlds + [w], ops + [op], outs + [o];
    }
  }

  lemma FillsMore(max: nat, key: Key, l: Limits, now: nat, n: nat,
                  worlds: seq<World>, ops: seq<Op>, outs: seq<Outcome>)
    requires max > 0 && n > 0 && Filled(max, key, now, n - 1, worlds, ops, outs)
    requires (l.perSecond == 0 || n <= l.perSecond) && (l.perMinute == 0 || n <= l.perMinute)
    requires l.perHour == 0 || n <= l.perHour
    ensures var op := Check(key, l, now, now);
            var (w, o) := Step(max, worlds[n - 1], op);
            Filled(max, key, now, n, worlds + [w], ops + [op], outs + [o])
  {
    var w, op := worlds[n - 1], Check(key, l, now, now);
    InvHolds(max, worlds, ops, outs, n - 1);
    RunSnoc(max, worlds, ops, outs, op);
    hide Run, Inv, InWindow;
    FillsStep(max, w, key, l, now, n);
    hide Step;
  }

  lemma FillsStep(max: nat, w: World, key: Key, l: Limits, now: nat, n: nat)
    requires Inv(w) && w.clock <= now && n > 0 && (key in w.buckets || |w.buckets| < max)
    requires forall width: nat :: width > 0 ==> InWindow(w.log, key, width, now) == n - 1
    requires (l.perSecond == 0 || n <= l.perSecond) && (l.perMinute == 0 || n <= l.perMinute)
    requires l.perHour == 0 || n <= l.perHour
    ensures var (w', o) := Step(max, w, Check(key, l, now, now));
            && o == Allowed && w'.clock == now && key in w'.buckets
            && forall width: nat :: width > 0 ==> InWindow(w'.log, key, width, now) == n
  {
    CheckKeeps(max, w, key, l, now, now);
    hide Inv, InWindow;
    forall width: nat | width > 0
      ensures InWindow(w.log + [Entry(key, now)], key, width, now) == n
    {
      LogAppend(w.log, Entry(key, now), key, width, now);
    }
  }

  // ---------------------------------------------------------------- which keys have a bucket

  /** Check `j` was of this key and was let at the table. */
  predicate Admitted(ops: seq<Op>, outs: seq<Outcome>, j: nat, k: Key) {
    j < |ops| && j < |outs| && ops[j].Check? && ops[j].key == k && outs[j] != ExceededBucketLimit
  }

  /** Every bucket stems from a check of its key. */
  ghost predicate Stems(w: World, ops: seq<Op>, outs: seq<Outcome>, i: nat) {
    && i <= |ops|
    && forall k :: k in w.buckets ==> StemsFrom(w.buckets[k], ops, outs, i, k)
  }

  ghost predicate StemsFrom(b: Bucket, ops: seq<Op>, outs: seq<Outcome>, i: nat, k: Key)
    requires i <= |ops|
  {
    && b.hourTs == b.secondTs / 3600
    && exists j: nat :: j < i && Admitted(ops, outs, j, k) && ops[j].now == b.secondTs
  }

  /** A key that was checked in this hour has a bucket of this hour. */
  ghost predicate Remains(w: World, ops: seq<Op>, outs: seq<Outcome>, i: nat) {
    && i <= |ops|
    && forall j: nat, k :: j < i && Admitted(ops, outs, j, k) ==> RemainsOf(w, ops[j].now, k)
  }

  predicate RemainsOf(w: World, at: nat, k: Key) {
    && at <= w.clock
    && (at / 3600 == w.clock / 3600 ==> k in w.buckets && w.buckets[k].hourTs == w.clock / 3600)
  }

  /** What one operation does to the bucket of a key. */
  lemma StepBucket(max: nat, w: World, op: Op, k: Key)
    ensures var (t, o) := Step(max, w, op);
            && t.clock == op.now
            && if op.Check? && op.key == k && o != ExceededBucketLimit
               then k in t.buckets && t.buckets[k].secondTs == op.now && t.buckets[k].hourTs == op.now / 3600
               else
                 && (k in t.buckets ==> k in w.buckets && t.buckets[k] == w.buckets[k])
                 && (k in w.buckets && w.buckets[k].hourTs == op.now / 3600 ==> k in t.buckets)
  {
  }

  lemma StemsStep(max: nat, w: World, ops: seq<Op>, outs: seq<Outcome>, i: nat)
    requires Stems(w, ops, outs, i) && i < |ops| && i < |outs| && outs[i] == Step(max, w, ops[i]).1
    ensures Stems(Step(max, w, ops[i]).0, ops, outs, i + 1)
  {
    hide Step;
    var t := Step(max, w, ops[i]).0;
    forall k | k in t.buckets
      ensures StemsFrom(t.buckets[k], ops, outs, i + 1, k)
    {
      StepBucket(max, w, ops[i], k);
      if ops[i].Check? && ops[i].key == k && outs[i] != ExceededBucketLimit {
        assert Admitted(ops, outs, i, k);
      } else {
        assert StemsFrom(w.buckets[k], ops, outs, i, k);
      }
    }
  }

  lemma RemainsStep(max: nat, w: World, ops: seq<Op>, outs: seq<Outcome>, i: nat)
    requires Remains(w, ops, outs, i) && i < |ops| && i < |outs| && outs[i] == Step(max, w, ops[i]).1
    requires w.clock <= ops[i].now
    ensures Remains(Step(max, w, ops[i]).0, ops, outs, i + 1)
  {
    hide Step;
    var t := Step(max, w, ops[i]).0;
    forall j: nat, k | j < i + 1 && Admitted(ops, outs, j, k)
      ensures RemainsOf(t, ops[j].now, k)
    {
      StepBucket(max, w, ops[i], k);
      if j < i {
        assert RemainsOf(w, ops[j].now, k);
        hide Remains;
        DivMonotone(ops[j].now, w.clock, 3600);
        DivMonotone(w.clock, ops[i].now, 3600);
      }
    }
  }

  lemma {:induction false} TableHolds(max: nat, worlds: seq<World>, ops: seq<Op>, outs: seq<Outcome>, i: nat)
    requires Run(max, worlds, ops, outs) && i < |worlds|
    ensures Stems(worlds[i], ops, outs, i) && Remains(worlds[i], ops, outs, i)
  {
    hide Stems, Remains, Step;
    if i == 0 {
      TableStarts(ops, outs);
    } else {
      TableHolds(max, worlds, ops, outs, i - 1);
      assert Step(max, worlds[i - 1], ops[i - 1]) == (worlds[i], outs[i - 1]);
      StemsStep(max, worlds[i - 1], ops, outs, i - 1);
      RemainsStep(max, worlds[i - 1], ops, outs, i - 1);
    }
  }

  lemma TableStarts(ops: seq<Op>, outs: seq<Outcome>)
    ensures Stems(World(map[], [], 0), ops, outs, 0) && Remains(World(map[], [], 0), ops, outs, 0)
  {
  }

  /** A sweep leaves exactly the keys that were checked, and let at the table, in the current hour. */
  lemma SweptIff(max: nat, worlds: seq<World>, ops: seq<Op>, outs: seq<Outcome>, i: nat, k: Key)
    requires Run(max, worlds, ops, outs) && i < |ops| && ops[i].Cleanup?
    ensures k in worlds[i + 1].buckets <==>
            exists j: nat :: j < i && Admitted(ops, outs, j, k) && ops[j].now / 3600 == ops[i].now / 3600
  {
    TableHolds(max, worlds, ops, outs, i);
    var w, now := worlds[i], ops[i].now;
    assert Step(max, w, ops[i]) == (worlds[i + 1], outs[i]);
    assert k in worlds[i + 1].buckets <==> k in w.buckets && w.buckets[k].hourTs == now / 3600;
    hide Step;
    DivMonotone(w.clock, now, 3600);
    if k in w.buckets { assert StemsFrom(w.buckets[k], ops, outs, i, k); }
    if j: nat :| j < i && Admitted(ops, outs, j, k) && ops[j].now / 3600 == now / 3600 {
      assert RemainsOf(w, ops[j].now, k);
      DivMonotone(ops[j].now, w.clock, 3600);
    }
  }

  /** If all checks of a key use the same limits, no second, minute or hour ever exceeds them. */
  lemma {:induction false} NoWindowExceeds(max: nat, worlds: seq<World>, ops: seq<Op>, outs: seq<Outcome>, i: nat,
                                           key: Key, l: Limits, t: nat)
    requires Run(max, worlds, ops, outs) && i < |worlds|
    requires forall j :: 0 <= j < |ops| && ops[j].Check? && ops[j].key == key ==> ops[j].l == l
    ensures l.perSecond > 0 ==> InWindow(worlds[i].log, key, 1, t) <= l.perSecond
    ensures l.perMinute > 0 ==> InWindow(worlds[i].log, key, MINUTE, t) <= l.perMinute
    ensures l.perHour > 0 ==> InWindow(worlds[i].log, key, HOUR, t) <= l.perHour
  {
    hide Step;
    if i > 0 {
      NoWindowExceeds(max, worlds, ops, outs, i - 1, key, l, t);
      var before, op := worlds[i - 1].log, ops[i - 1];
      assert Step(max, worlds[i - 1], op) == (worlds[i], outs[i - 1]);
      if op.Check? {
        DecidesLikeTheLog(max, worlds, ops, outs, i - 1);
        if outs[i - 1] == Allowed {
          var e := Entry(op.key, op.now);
          WindowGrows(before, e, key, 1, t);
          WindowGrows(before, e, key, MINUTE, t);
          WindowGrows(before, e, key, HOUR, t);
        }
      } else {
        CleanupKeepsLog(max, worlds[i - 1], op.now);
      }
    }
  }

  lemma CleanupKeepsLog(max: nat, w: World, now: nat)
    ensures Step(max, w, Cleanup(now)).0.log == w.log
  {
  }

  lemma WindowGrows(log: Log, e: Entry, key: Key, width: nat, t: nat)
    requires width > 0
    ensures InWindow(log + [e], key, width, t)
         == if e.key == key && e.at / width == t / width then InWindow(log, key, width, e.at) + 1
            else InWindow(log, key, width, t)
  {
    LogAppend(log, e, key, width, t);
    if e.at / width == t / width {
      SameWindowSameCount(log, key, width, e.at, t);
    }
  }

  // ---------------------------------------------------------------- the race for the last bucket

  /** A checking thread: it has just tested that its key is absent, or it has passed both tests and
      will insert the key. */
  datatype Thread = Idle | SawAbsent(key: Key) | Inserting(key: Key)

  datatype Race = Race(keys: set<Key>, threads: seq<Thread>)

  datatype RaceEvent =
    | TestContains(t: nat, key: Key)
    | TestLen(t: nat)
    | Insert(t: nat)
    | Sweep(removed: set<Key>)

  predicate RaceEnabled(r: Race, e: RaceEvent) {
    match e
    case TestContains(t, _) => t < |r.threads| && r.threads[t].Idle?
    case TestLen(t) => t < |r.threads| && r.threads[t].SawAbsent?
    case Insert(t) => t < |r.threads| && r.threads[t].Inserting?
    case Sweep(_) => true
  }

  function RaceStep(max: nat, r: Race, e: RaceEvent): (r': Race)
    requires RaceEnabled(r, e)
    ensures |r'.threads| == |r.threads|
  {
    match e
    case TestContains(t, key) =>
      r.(threads := r.threads[t := if key in r.keys then Inserting(key) else SawAbsent(key)])
    case TestLen(t) =>
      r.(threads := r.threads[t := if |r.keys| >= max then Idle else Inserting(r.threads[t].key)])
    case Insert(t) => Race(r.keys + {r.threads[t].key}, r.threads[t := Idle])
    case Sweep(removed) => r.(keys := r.keys - removed)
  }

  /** The keys that are about to be inserted. */
  function Held(threads: seq<Thread>): (ks: set<Key>) {
    if threads == [] then {}
    else
      var last := threads[|threads| - 1];
      Held(threads[..|threads| - 1]) + (if last.Inserting? then {last.key} else {})
  }

  lemma {:induction false} HeldIff(threads: seq<Thread>, k: Key)
    ensures k in Held(threads) <==> exists t :: 0 <= t < |threads| && threads[t] == Inserting(k)
  {
    if threads != [] {
      var rest := threads[..|threads| - 1];
      HeldIff(rest, k);
      if k in Held(rest) {
        var t :| 0 <= t < |rest| && rest[t] == Inserting(k);
        assert threads[t] == Inserting(k);
      }
      if exists t :: 0 <= t < |threads| && threads[t] == Inserting(k) {
        var t :| 0 <= t < |threads| && threads[t] == Inserting(k);
        assert t < |rest| ==> rest[t] == Inserting(k);
      }
    }
  }

  lemma {:induction false} SubsetSize<T>(a: set<T>, b: set<T>)
    requires a <= b
    ensures |a| <= |b|
  {
    if a != {} {
      var x :| x in a;
      SubsetSize(a - {x}, b - {x});
    }
  }

  lemma UnionSize<T>(a: set<T>, b: set<T>)
    ensures |a + b| <= |a| + |b|
  {
    assert a + b == a + (b - a);
    SubsetSize(b - a, b);
  }

  lemma {:induction false} HeldSize(threads: seq<Thread>)
    ensures |Held(threads)| <= |threads|
  {
    if threads != [] {
      var last := threads[|threads| - 1];
      HeldSize(threads[..|threads| - 1]);
      UnionSize(Held(threads[..|threads| - 1]), if last.Inserting? then {last.key} else {});
    }
  }

  /** A thread that is not inserting leaves room for one more key. */
  lemma {:induction false} HeldByOthers(threads: seq<Thread>, t: nat)
    requires t < |threads| && !threads[t].Inserting?
    ensures |Held(threads)| <= |threads| - 1
  {
    var rest, last := threads[..|threads| - 1], threads[|threads| - 1];
    HeldSize(rest);
    if t < |rest| {
      HeldByOthers(rest, t);
      UnionSize(Held(rest), if last.Inserting? then {last.key} else {});
    }
  }

  /** Changing one thread changes at most its own key. */
  lemma HeldAfter(threads: seq<Thread>, t: nat, to: Thread)
    requires t < |threads|
    ensures Held(threads[t := to]) <= Held(threads) + (if to.Inserting? then {to.key} else {})
  {
    var threads' := threads[t := to];
    forall k | k in Held(threads') ensures k in Held(threads) + (if to.Inserting? then {to.key} else {}) {
      HeldIff(threads', k);
      HeldIff(threads, k);
      var j :| 0 <= j < |threads'| && threads'[j] == Inserting(k);
      assert j != t ==> threads[j] == Inserting(k);
    }
  }

  /** The keys present or on their way in never exceed the limit by N or more. */
  ghost predicate RaceInv(max: nat, r: Race) {
    |r.keys + Held(r.threads)| <= max + |r.threads| - 1
  }

  lemma RaceStepKeeps(max: nat, r: Race, e: RaceEvent)
    requires RaceInv(max, r) && RaceEnabled(r, e)
    ensures RaceInv(max, RaceStep(max, r, e))
  {
    hide Held;
    var r' := RaceStep(max, r, e);
    var before, after := r.keys + Held(r.threads), r'.keys + Held(r'.threads);
    match e
    case TestContains(t, key) =>
      HeldAfter(r.threads, t, r'.threads[t]);
      SubsetSize(after, before);
    case TestLen(t) =>
      var key := r.threads[t].key;
      HeldAfter(r.threads, t, r'.threads[t]);
      if |r.keys| < max {
        HeldByOthers(r.threads, t);
        var bound := r.keys + (Held(r.threads) + {key});
        SubsetSize(after, bound);
        UnionSize(r.keys, Held(r.threads) + {key});
        UnionSize(Held(r.threads), {key});
      } else {
        SubsetSize(after, before);
      }
    case Insert(t) =>
      HeldAfter(r.threads, t, Idle);
      HeldIff(r.threads, r.threads[t].key);
      SubsetSize(after, before);
    case Sweep(removed) =>
      SubsetSize(after, before);
  }

  /** An empty table and N idle threads. */
  function AllIdle(n: nat): (r: Race)
    ensures |r.threads| == n
  {
    Race({}, seq(n, _ => Idle))
  }

  ghost predicate RaceRun(max: nat, n: nat, races: seq<Race>, events: seq<RaceEvent>) {
    && |races| == |events| + 1
    && races[0] == AllIdle(n)
    && forall i :: 0 <= i < |events| ==>
         RaceEnabled(races[i], events[i]) && races[i + 1] == RaceStep(max, races[i], events[i])
  }

  lemma {:induction false} NoneHeld(threads: seq<Thread>)
    requires forall t :: 0 <= t < |threads| ==> threads[t].Idle?
    ensures Held(threads) == {}
  {
    if threads != [] {
      NoneHeld(threads[..|threads| - 1]);
    }
  }

  /** With N threads the table never holds more than the limit plus N - 1 keys. */
  lemma {:induction false} OvershootBound(max: nat, n: nat, races: seq<Race>, events: seq<RaceEvent>, i: nat)
    requires n > 0 && RaceRun(max, n, races, events) && i < |races|
    ensures |races[i].keys| <= max + n - 1
    ensures |races[i].threads| == n && RaceInv(max, races[i])
  {
    hide RaceStep, Held;
    if i == 0 {
      NoneHeld(races[0].threads);
      assert races[0].keys + {} == {};
    } else {
      OvershootBound(max, n, races, events, i - 1);
      RaceStepKeeps(max, races[i - 1], events[i - 1]);
    }
    SubsetSize(races[i].keys, races[i].keys + Held(races[i].threads));
  }

  // ---------------------------------------------------------------- the bound is reached

  ghost predicate LeadsTo(max: nat, a: Race, events: seq<RaceEvent>, b: Race)
    decreases |events|
  {
    if events == [] then a == b
    else RaceEnabled(a, events[0]) && LeadsTo(max, RaceStep(max, a, events[0]), events[1..], b)
  }

  lemma {:induction false} LeadsFurther(max: nat, a: Race, events: seq<RaceEvent>, b: Race, e: RaceEvent)
    requires LeadsTo(max, a, events, b) && RaceEnabled(b, e)
    ensures LeadsTo(max, a, events + [e], RaceStep(max, b, e))
    decreases |events|
  {
    hide RaceStep;
    if events == [] {
      assert ([] + [e])[1..] == [];
    } else {
      assert (events + [e])[1..] == events[1..] + [e];
      LeadsFurther(max, RaceStep(max, a, events[0]), events[1..], b, e);
    }
  }

  function FirstKeys(m: nat): (ks: set<Key>) {
    if m == 0 then {} else FirstKeys(m - 1) + {[m - 1]}
  }

  lemma {:induction false} FirstKeysSize(m: nat)
    ensures |FirstKeys(m)| == m
    ensures forall i: nat :: [i] in FirstKeys(m) <==> i < m
  {
    if m > 0 {
      FirstKeysSize(m - 1);
    }
  }

  /** Threads `from` to `to` are inserting the keys after `m`; the others are idle. */
  function Queued(n: nat, m: nat, from: nat, to: nat): (ts: seq<Thread>)
    ensures |ts| == n
  {
    seq(n, i requires 0 <= i < n => if from <= i < to then Inserting([m + i]) else Idle)
  }

  /** One thread fills the table up to one below the limit. */
  lemma {:induction false} FillTable(max: nat, n: nat, m: nat) returns (events: seq<RaceEvent>)
    requires n > 0 && m < max
    ensures LeadsTo(max, AllIdle(n), events, Race(FirstKeys(m), Queued(n, m, 0, 0)))
  {
    hide LeadsTo;
    var start := AllIdle(n);
    if m == 0 {
      assert start == Race(FirstKeys(0), Queued(n, 0, 0, 0));
      Stays(max, start);
      return [];
    }
    events := FillTable(max, n, m - 1);
    FirstKeysSize(m - 1);
    var r0 := Race(FirstKeys(m - 1), Queued(n, m - 1, 0, 0));
    var r1 := r0.(threads := r0.threads[0 := SawAbsent([m - 1])]);
    var r2 := r0.(threads := r0.threads[0 := Inserting([m - 1])]);
    LeadsFurther(max, start, events, r0, TestContains(0, [m - 1]));
    LeadsFurther(max, start, events + [TestContains(0, [m - 1])], r1, TestLen(0));
    assert RaceStep(max, r1, TestLen(0)) == r2;
    events := events + [TestContains(0, [m - 1])] + [TestLen(0)];
    LeadsFurther(max, start, events, r2, Insert(0));
    assert RaceStep(max, r2, Insert(0)) == Race(FirstKeys(m), Queued(n, m, 0, 0));
    events := events + [Insert(0)];
  }

  lemma Stays(max: nat, r: Race)
    ensures LeadsTo(max, r, [], r)
  {
  }

  /** Then the threads pass both tests one after the other, each with a key of its own. */
  lemma {:induction false} AllPass(max: nat, n: nat, m: nat, j: nat) returns (events: seq<RaceEvent>)
    requires n > 0 && m < max && j <= n
    ensures LeadsTo(max, AllIdle(n), events, Race(FirstKeys(m), Queued(n, m, 0, j)))
  {
    hide LeadsTo;
    if j == 0 {
      events := FillTable(max, n, m);
      return;
    }
    events := AllPass(max, n, m, j - 1);
    var start, t, key := AllIdle(n), j - 1, [m + j - 1];
    FirstKeysSize(m);
    var r0 := Race(FirstKeys(m), Queued(n, m, 0, j - 1));
    var r1 := r0.(threads := r0.threads[t := SawAbsent(key)]);
    LeadsFurther(max, start, events, r0, TestContains(t, key));
    LeadsFurther(max, start, events + [TestContains(t, key)], r1, TestLen(t));
    events := events + [TestContains(t, key)] + [TestLen(t)];
    assert r1.threads[t := Inserting(key)] == Queued(n, m, 0, j);
    assert RaceStep(max, r1, TestLen(t)) == Race(FirstKeys(m), Queued(n, m, 0, j));
  }

  /** And insert. */
  lemma {:induction false} AllInsert(max: nat, n: nat, m: nat, j: nat) returns (events: seq<RaceEvent>)
    requires n > 0 && m < max && j <= n
    ensures LeadsTo(max, AllIdle(n), events, Race(FirstKeys(m + j), Queued(n, m, j, n)))
  {
    hide LeadsTo;
    if j == 0 {
      events := AllPass(max, n, m, n);
      return;
    }
    events := AllInsert(max, n, m, j - 1);
    var start, t := AllIdle(n), j - 1;
    var r0 := Race(FirstKeys(m + j - 1), Queued(n, m, j - 1, n));
    LeadsFurther(max, start, events, r0, Insert(t));
    assert r0.threads[t := Idle] == Queued(n, m, j, n);
    assert RaceStep(max, r0, Insert(t)) == Race(FirstKeys(m + j), Queued(n, m, j, n));
    events := events + [Insert(t)];
  }

  /** Some interleaving of N threads does leave the table N - 1 keys over its limit. */
  lemma OvershootReached(max: nat, n: nat)
    requires n > 0 && max > 0
    ensures exists events, r ::
              LeadsTo(max, AllIdle(n), events, r) && |r.keys| == max + n - 1
  {
    hide LeadsTo;
    var events := AllInsert(max, n, max - 1, n);
    FirstKeysSize(max - 1 + n);
    var r := Race(FirstKeys(max - 1 + n), Queued(n, max - 1, n, n));
    assert LeadsTo(max, AllIdle(n), events, r);
  }
}
