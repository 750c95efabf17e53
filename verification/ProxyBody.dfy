/** Forwarding a request body to a proxy backend (`src/server.rs`).

    What the network does is part of the state: the items still to come from the client, the response
    heads already received from the backend, what further reads from it will give, and how each write
    to it will end. Every such script is possible. */
module ProxyBody {
  import opened Bytes

  const USIZE_MAX: nat := 0xffff_ffff_ffff_ffff
  const MAX_INTERIM: nat := 16

  /** What a read of the client body gives. */
  datatype Item = Chunk(data: seq<byte>) | Broken

  datatype Reply = Head(status: nat) | Malformed

  /** What the backend socket has to offer when it is looked at. */
  datatype Arrival = Quiet | ReadFailed | Closed | Data(replies: seq<Reply>)

  predicate Interim(status: nat) { 100 <= status < 200 && status != 101 }

  predicate AbortsUpload(status: nat) { status >= 400 }

  /** The bytes of a body up to its end or to where reading it fails. */
  function Payload(items: seq<Item>): (b: seq<byte>) {
    if items == [] || items[0].Broken? then [] else items[0].data + Payload(items[1..])
  }

  /** Reading the body does not fail. */
  predicate Clean(items: seq<Item>) { Broken !in items }

  lemma EmptyPayload()
    ensures Payload([]) == [] && Clean([])
  {
  }

  lemma PayloadNext(data: seq<byte>, rest: seq<Item>, sent: seq<byte>)
    ensures sent + Payload([Chunk(data)] + rest) == sent + data + Payload(rest)
    ensures Clean([Chunk(data)] + rest) <==> Clean(rest)
  {
    assert ([Chunk(data)] + rest)[1..] == rest;
    assert sent + (data + Payload(rest)) == sent + data + Payload(rest);
  }

  /** The response heads still to come. */
  function Flat(arrivals: seq<Arrival>): (h: seq<Reply>) {
    if arrivals == [] then [] else (if arrivals[0].Data? then arrivals[0].replies else []) + Flat(arrivals[1..])
  }

  /** The heads from the first one on that is not interim. */
  function AfterInterim(heads: seq<Reply>): (h: seq<Reply>) {
    if heads != [] && heads[0].Head? && Interim(heads[0].status) then AfterInterim(heads[1..]) else heads
  }

  lemma DropInterim(reply: Reply, rest: seq<Reply>)
    ensures AfterInterim([reply] + rest) ==
            if reply.Head? && Interim(reply.status) then AfterInterim(rest) else [reply] + rest
  {
    assert ([reply] + rest)[1..] == rest;
  }

  lemma MoveArrival(buffered: seq<Reply>, a: Arrival, rest: seq<Arrival>)
    ensures buffered + Flat([a] + rest) == (if a.Data? then buffered + a.replies else buffered) + Flat(rest)
  {
    assert ([a] + rest)[1..] == rest;
    if a.Data? {
      assert buffered + (a.replies + Flat(rest)) == buffered + a.replies + Flat(rest);
    } else {
      assert [] + Flat(rest) == Flat(rest);
    }
  }

  /** `status` is the first final head, or an error that comes right after a first one that is none. */
  predicate Relays(heads: seq<Reply>, status: nat) {
    var first := AfterInterim(heads);
    && first != [] && first[0].Head?
    && (first[0].status == status ||
        (!AbortsUpload(first[0].status) && AbortsUpload(status) && [Head(status)] <= AfterInterim(first[1..])))
  }

  /** A final head that is due, and how many interim ones come first. */
  datatype Due = Due(status: nat, interims: nat)

  /** What a reader that waits will get: the first head that is not interim, unless something malformed,
      a failed read or the end comes before it. */
  function Awaited(buffered: seq<Reply>, arrivals: seq<Arrival>): (d: Option<Due>)
    decreases |arrivals|, |buffered|
  {
    if buffered != [] then
      match buffered[0]
      case Malformed => None
      case Head(status) =>
        if 100 <= status <= 199 && status != 101 then Plus(Awaited(buffered[1..], arrivals), 1)
        else Some(Due(status, 0))
    else if arrivals == [] then None
    else
      match arrivals[0]
      case ReadFailed => None
      case Closed => None
      case Quiet => Awaited([], arrivals[1..])
      case Data(replies) => Awaited(replies, arrivals[1..])
  }

  function Plus(d: Option<Due>, n: nat): (r: Option<Due>) {
    if d.None? then None else Some(d.value.(interims := d.value.interims + n))
  }

  /** It is there already: no wait comes before it. */
  predicate Ready(buffered: seq<Reply>, arrivals: seq<Arrival>)
    decreases |arrivals|, |buffered|
  {
    if buffered != [] then
      && buffered[0].Head?
      && (100 <= buffered[0].status <= 199 && buffered[0].status != 101 ==> Ready(buffered[1..], arrivals))
    else arrivals != [] && arrivals[0].Data? && Ready(arrivals[0].replies, arrivals[1..])
  }

  lemma AwaitedHead(reply: Reply, rest: seq<Reply>, arrivals: seq<Arrival>)
    ensures Awaited([reply] + rest, arrivals) ==
            if reply.Malformed? then None
            else if Interim(reply.status) then Plus(Awaited(rest, arrivals), 1)
            else Some(Due(reply.status, 0))
    ensures Ready([reply] + rest, arrivals) <==>
            reply.Head? && (Interim(reply.status) ==> Ready(rest, arrivals))
  {
    assert ([reply] + rest)[1..] == rest;
  }

  lemma AwaitedArrival(a: Arrival, arrivals: seq<Arrival>)
    ensures Awaited([], [a] + arrivals) ==
            if a.ReadFailed? || a.Closed? then None else Awaited(if a.Data? then a.replies else [], arrivals)
    ensures Ready([], [a] + arrivals) <==> a.Data? && Ready(a.replies, arrivals)
    ensures Awaited([], []) == None && !Ready([], [])
  {
    assert ([a] + arrivals)[1..] == arrivals;
  }

  datatype Look = Found(status: nat) | NoHead | Error

  /** What a look shows of what is due, before and after it: the head itself, or nothing yet, or an
      error only if there is none to come or too many interim ones are before it. */
  predicate Sees(was: Option<Due>, seen: nat, r: Look, now: Option<Due>, seen': nat) {
    match r
    case Found(status) => was.Some? && was.value.status == status
    case NoHead => seen <= seen' && was == Plus(now, seen' - seen)
    case Error => was.None? || seen + was.value.interims > 16
  }

  datatype Outcome = Completed(pending: Option<nat>) | EarlyResponse(status: nat) | TooLarge | Failed

  lemma FirstRelays(heads: seq<Reply>, status: nat, rest: seq<Reply>)
    requires AfterInterim(heads) == [Head(status)] + rest
    ensures Relays(heads, status)
  {
  }

  /** The heads since the forwarding began: none taken but interim ones, or also a first final one that
      is no error and is pending. */
  predicate Awaiting(heads: seq<Reply>, pending: Option<nat>, now: seq<Reply>) {
    match pending
    case None => AfterInterim(now) == AfterInterim(heads)
    case Some(p) => !AbortsUpload(p) && AfterInterim(heads) == [Head(p)] + now
  }

  /** What a failed write may relay, with or without a response that is already pending. */
  lemma SalvageRelays(heads: seq<Reply>, pending: Option<nat>, was: seq<Reply>, status: nat, now: seq<Reply>)
    requires AbortsUpload(status) && AfterInterim(was) == [Head(status)] + now && Awaiting(heads, pending, was)
    ensures Relays(heads, status)
  {
    hide AfterInterim;
    if pending.Some? { assert AfterInterim(heads)[1..] == was; }
  }

  datatype Hint = NoBody | Sized | UntilClose

  /** Adding up a body against its limit, in saturating 64-bit arithmetic. */
  method AddLimited(seen: nat, len: nat, limit: Option<nat>) returns (seen': nat, ok: bool)
    requires seen <= USIZE_MAX && (limit.Some? ==> limit.value <= USIZE_MAX)
    ensures seen' == if limit.None? then seen else Saturated(seen + len)
    ensures ok <==> limit.None? || limit.value == USIZE_MAX || seen + len <= limit.value
  {
    if limit.None? { return seen, true; }
    seen' := if seen + len <= USIZE_MAX then seen + len else USIZE_MAX;
    ok := seen' <= limit.value;
  }

  function Saturated(n: nat): (m: nat)
    ensures m <= USIZE_MAX
  {
    if n <= USIZE_MAX then n else USIZE_MAX
  }

  /** What has been sent and what is left make up the body, and the limit holds so far. */
  predicate Progress(whole: seq<Item>, sent: seq<byte>, rest: seq<Item>, seen: nat, limit: Option<nat>) {
    && sent + Payload(rest) == Payload(whole) && (Clean(whole) <==> Clean(rest))
    && seen == (if limit.Some? then Saturated(|sent|) else 0)
    && (limit.Some? && limit.value < USIZE_MAX ==> |sent| <= limit.value)
  }

  lemma ProgressStarts(whole: seq<Item>, limit: Option<nat>)
    ensures Progress(whole, [], whole, 0, limit)
  {
    assert [] + Payload(whole) == Payload(whole);
  }

  lemma ProgressEnds(whole: seq<Item>, sent: seq<byte>, seen: nat, limit: Option<nat>)
    requires Progress(whole, sent, [], seen, limit)
    ensures sent == Payload(whole) && Clean(whole)
  {
    assert sent + [] == sent;
  }

  /** Anything up to what has been sent is a prefix of the body within the limit. */
  lemma ProgressBounds(whole: seq<Item>, sent: seq<byte>, rest: seq<Item>, seen: nat, limit: Option<nat>,
                       part: seq<byte>)
    requires Progress(whole, sent, rest, seen, limit) && part <= sent
    ensures part <= Payload(whole) && (limit.Some? && limit.value < USIZE_MAX ==> |part| <= limit.value)
  {
    assert part <= sent <= sent + Payload(rest);
  }

  /** One more chunk: it trips the limit only if the body is too large, and otherwise may be sent. */
  lemma ProgressStep(whole: seq<Item>, sent: seq<byte>, data: seq<byte>, rest: seq<Item>, seen: nat, limit: Option<nat>)
    requires Progress(whole, sent, [Chunk(data)] + rest, seen, limit) && (limit.Some? ==> limit.value <= USIZE_MAX)
    ensures limit.None? || limit.value == USIZE_MAX || seen + |data| <= limit.value ==>
              Progress(whole, sent + data, rest, if limit.None? then seen else Saturated(seen + |data|), limit)
    ensures limit.Some? && limit.value < USIZE_MAX && seen + |data| > limit.value ==> |Payload(whole)| > limit.value
  {
    PayloadNext(data, rest, sent);
    hide Payload, Clean;
  }

  predicate Passes(writes: seq<Option<nat>>) { writes == [] || writes[0].None? }

  function Later(writes: seq<Option<nat>>): (w: seq<Option<nat>>) { if writes == [] then [] else writes[1..] }

  predicate AllPass(writes: seq<Option<nat>>) { forall i :: 0 <= i < |writes| ==> writes[i].None? }

  lemma AllPassLater(writes: seq<Option<nat>>)
    ensures AllPass(writes) ==> Passes(writes) && AllPass(Later(writes))
  {
  }

  /** The body is not over its limit. */
  predicate Within(whole: seq<Item>, limit: Option<nat>) { limit.None? || |Payload(whole)| <= limit.value }

  /** A clean body within its limit, and writes that all pass. */
  predicate Fine(whole: seq<Item>, writes: seq<Option<nat>>, limit: Option<nat>) {
    Clean(whole) && AllPass(writes) && Within(whole, limit)
  }

  /** It is over a limit that can trip. */
  predicate Over(whole: seq<Item>, limit: Option<nat>) {
    limit.Some? && limit.value < USIZE_MAX && |Payload(whole)| > limit.value
  }

  function Front(arrivals: seq<Arrival>, n: int): (a: seq<Arrival>) {
    if n <= 0 then [] else if |arrivals| <= n then arrivals else arrivals[..n]
  }

  lemma FrontReady(arrivals: seq<Arrival>, n: int)
    ensures Ready([], Front(arrivals, n)) <==>
            n > 0 && arrivals != [] && arrivals[0].Data? && Ready(arrivals[0].replies, Front(arrivals[1..], n - 1))
  {
    if n > 0 && arrivals != [] { assert Front(arrivals, n)[1..] == Front(arrivals[1..], n - 1); }
  }

  /** What is left of a body whose chunks are written one by one until a write fails. */
  function Unread(items: seq<Item>, writes: seq<Option<nat>>): (rest: seq<Item>) {
    if items == [] then []
    else if Passes(writes) then Unread(items[1..], Later(writes))
    else items[1..]
  }

  lemma UnreadNone(writes: seq<Option<nat>>)
    ensures Unread([], writes) == []
  {
  }

  lemma UnreadNext(item: Item, rest: seq<Item>, writes: seq<Option<nat>>)
    ensures Unread([item] + rest, writes) == if Passes(writes) then Unread(rest, Later(writes)) else rest
  {
    assert ([item] + rest)[1..] == rest;
  }

  /** Some of the body is left exactly when the first write that fails is not that of its last chunk. */
  lemma {:induction false} UnreadIff(items: seq<Item>, writes: seq<Option<nat>>)
    ensures Unread(items, writes) != [] <==> exists k :: 0 <= k < |items| - 1 && FirstFailure(writes, k)
  {
    if items != [] && Passes(writes) {
      var rest, later := items[1..], Later(writes);
      UnreadIff(rest, later);
      if k :| 0 <= k < |rest| - 1 && FirstFailure(later, k) {
        assert FirstFailure(writes, k + 1);
      }
      if k :| 0 <= k < |items| - 1 && FirstFailure(writes, k) {
        assert FirstFailure(later, k - 1);
      }
    } else if |items| > 1 {
      assert FirstFailure(writes, 0);
    }
  }

  predicate FirstFailure(writes: seq<Option<nat>>, k: int) {
    0 <= k < |writes| && writes[k].Some? && forall j :: 0 <= j < k ==> writes[j].None?
  }

  /** What the forwarding may end with before the body is read out. */
  ghost predicate StopOk(whole: seq<Item>, heads: seq<Reply>, limit: Option<nat>, stop: Outcome) {
    match stop
    case Completed(_) => false
    case EarlyResponse(status) => AbortsUpload(status) && Relays(heads, status)
    case TooLarge => limit.Some? && |Payload(whole)| > limit.value
    case Failed => true
  }

  /** What the backend may have received. */
  predicate SentOk(whole: seq<Item>, limit: Option<nat>, sent: seq<byte>) {
    sent <= Payload(whole) && (limit.Some? && limit.value < USIZE_MAX ==> |sent| <= limit.value)
  }

  class Exchange {
    /** From the client: its body not yet read, and whether reading it has failed. */
    var body: seq<Item>
    var broken: bool
    /** To the client: the status of every final head whose writing has begun, how further writes go,
        and whether anything was written. */
    var relayed: seq<nat>
    var clientWrites: seq<bool>
    var started: bool
    /** From and to the backend. */
    var buffered: seq<Reply>
    var arrivals: seq<Arrival>
    var writes: seq<Option<nat>>
    var sent: seq<byte>
    var ended: bool
    var interim: nat

    method NextData() returns (r: Option<Item>)
      modifies this`body, this`broken
      ensures r.Some? <==> old(body) != []
      ensures r.Some? ==> old(body) == [r.value] + body
      ensures r.None? ==> body == []
      ensures broken == (old(broken) || r == Some(Broken))
      ensures Clean(old(body)) ==> Clean(body) && r != Some(Broken)
    {
      if body == [] { return None; }
      r := Some(body[0]);
      if body[0].Broken? { broken := true; }
      body := body[1..];
    }

    /** Reads the rest of the body away, or up to where reading it fails. */
    method DrainPayload()
      modifies this`body, this`broken
      ensures body == [] || broken
      ensures Clean(old(body)) ==> body == [] && broken == old(broken)
    {
      while true
        invariant Clean(old(body)) ==> Clean(body) && broken == old(broken)
        decreases |body|
      {
        var item := NextData();
        if item.None? || item.value.Broken? { return; }
      }
    }

    /** Draining within a time limit: the clock may run out after any number of reads. */
    method DrainUntil(steps: nat) returns (inTime: bool)
      modifies this`body, this`broken
      ensures inTime ==> body == [] || broken
      ensures Clean(old(body)) ==> Clean(body) && broken == old(broken) && (inTime ==> body == [])
      ensures Clean(old(body)) ==> (inTime <==> |old(body)| < steps)
    {
      for i := 0 to steps
        invariant Clean(old(body)) ==> Clean(body) && broken == old(broken) && |old(body)| == |body| + i
      {
        var item := NextData();
        if item.None? || item.value.Broken? { return true; }
      }
      inTime := false;
    }

    /** Starts a response to the client; a write that fails may have sent some of it. */
    method WriteHead(status: nat) returns (ok: bool)
      modifies this`relayed, this`clientWrites, this`started
      ensures relayed == old(relayed) + [status] && started
      ensures ok <==> old(clientWrites) == [] || old(clientWrites)[0]
    {
      relayed := relayed + [status];
      started := true;
      ok := clientWrites == [] || clientWrites[0];
      if clientWrites != [] { clientWrites := clientWrites[1..]; }
    }

    /** A write of `data`; one that fails has delivered some of it. */
    method Write(data: seq<byte>) returns (ok: bool)
      modifies this`writes, this`sent
      ensures old(sent) <= sent <= old(sent) + data
      ensures ok ==> sent == old(sent) + data
      ensures (ok <==> Passes(old(writes))) && writes == Later(old(writes))
    {
      if writes == [] || writes[0].None? {
        sent := sent + data;
        ok := true;
      } else {
        var k := if writes[0].value <= |data| then writes[0].value else |data|;
        sent := sent + data[..k];
        ok := false;
      }
      if writes != [] { writes := writes[1..]; }
    }

    /** The heads received and those still to come. */
    function Heads(): (h: seq<Reply>)
      reads this
    {
      buffered + Flat(arrivals)
    }

    /** What is due from the backend. */
    function Next(): (d: Option<Due>)
      reads this
    {
      Awaited(buffered, arrivals)
    }

    /** This final head is due, and the interim ones before it are not too many. */
    predicate Expects(status: nat)
      reads this
    {
      Next().Some? && Next().value.status == status && interim + Next().value.interims < 16
    }

    /** The same before any interim head was counted. */
    predicate Soon(status: nat)
      reads this
    {
      Next().Some? && Next().value.status == status && Next().value.interims < 16
    }

    /** An error head is due and there. */
    predicate Alert(status: nat)
      reads this
    {
      status >= 400 && Expects(status) && Ready(buffered, arrivals)
    }

    /** This is the answer: it is pending, or due. */
    predicate OnCourse(status: nat, pending: Option<nat>)
      reads this
    {
      pending == Some(status) || (pending.None? && Expects(status))
    }

    /** Nothing has come from the backend, and nothing will. */
    predicate Silent()
      reads this
    {
      buffered == [] && forall a :: a in arrivals ==> a.Quiet?
    }

    /** The next final head among those received; interim ones in front of it are dropped and counted. */
    method TakeBufferedFinal() returns (r: Look)
      modifies this`buffered, this`interim
      ensures r.Found? ==> !Interim(r.status) && AfterInterim(old(Heads())) == [Head(r.status)] + Heads()
      ensures r.NoHead? ==> buffered == [] && AfterInterim(old(Heads())) == AfterInterim(Heads())
      ensures old(interim) <= MAX_INTERIM && !r.Error? ==> interim <= MAX_INTERIM
      ensures old(buffered) == [] ==> r.NoHead?
      ensures Sees(old(Next()), old(interim), r, Next(), interim)
      ensures r.NoHead? ==> forall next: seq<Arrival> :: Ready(old(buffered), next) <==> Ready(buffered, next)
    {
      hide AfterInterim, Flat, Awaited, Ready;
      while buffered != []
        invariant old(interim) <= interim && old(Next()) == Plus(Next(), interim - old(interim))
        invariant forall next: seq<Arrival> :: Ready(old(buffered), next) <==> Ready(buffered, next)
        invariant old(buffered) == [] ==> buffered == []
        invariant old(interim) <= MAX_INTERIM ==> interim <= MAX_INTERIM
        invariant AfterInterim(Heads()) == AfterInterim(old(Heads()))
        decreases |buffered|
      {
        var reply := buffered[0];
        assert Heads() == [reply] + (buffered[1..] + Flat(arrivals));
        DropInterim(reply, buffered[1..] + Flat(arrivals));
        assert buffered == [reply] + buffered[1..];
        forall next: seq<Arrival>
          ensures Ready(buffered, next) <==> reply.Head? && (Interim(reply.status) ==> Ready(buffered[1..], next))
        {
          AwaitedHead(reply, buffered[1..], next);
        }
        AwaitedHead(reply, buffered[1..], arrivals);
        buffered := buffered[1..];
        if reply.Malformed? { return Error; }
        if Interim(reply.status) {
          interim := interim + 1;
          if interim > MAX_INTERIM { return Error; }
        } else {
          return Found(reply.status);
        }
      }
      r := NoHead;
    }

    /** What the socket has next; heads go behind those received. */
    method ReadAhead() returns (a: Arrival)
      modifies this`arrivals, this`buffered
      ensures Heads() == old(Heads())
      ensures !a.Data? ==> buffered == old(buffered)
      ensures if old(arrivals) == [] then a.Quiet? && arrivals == [] else |arrivals| < |old(arrivals)|
      ensures old(Silent()) ==> a.Quiet? && Silent()
      ensures old(buffered) == [] ==>
                && old(Next()) == (if a.ReadFailed? || a.Closed? then None else Next())
                && (old(Ready(buffered, arrivals)) <==> a.Data? && Ready(buffered, arrivals))
      ensures old(arrivals) != [] ==> old(arrivals) == [a] + arrivals
      ensures a.Data? ==> buffered == old(buffered) + a.replies
    {
      hide Awaited, Ready;
      AwaitedArrival(Quiet, []);
      if arrivals == [] { return Quiet; }
      a := arrivals[0];
      assert arrivals == [a] + arrivals[1..];
      AwaitedArrival(a, arrivals[1..]);
      assert a.Data? ==> [] + a.replies == a.replies;
      MoveArrival(buffered, a, arrivals[1..]);
      arrivals := arrivals[1..];
      if a.Data? { buffered := buffered + a.replies; }
    }

    /** Whether the backend already answers, without waiting for it. */
    method PollEarly() returns (r: Look)
      modifies this`buffered, this`interim, this`arrivals
      ensures r.Found? ==> !Interim(r.status) && AfterInterim(old(Heads())) == [Head(r.status)] + Heads()
      ensures r.NoHead? ==> AfterInterim(old(Heads())) == AfterInterim(Heads())
      ensures old(interim) <= MAX_INTERIM && !r.Error? ==> interim <= MAX_INTERIM
      ensures old(Silent()) ==> r.NoHead? && Silent()
      ensures Sees(old(Next()), old(interim), r, Next(), interim)
      ensures r.NoHead? ==> !old(Ready(buffered, arrivals))
    {
      hide AfterInterim, Heads, Awaited, Ready;
      while true
        invariant old(interim) <= interim && old(Next()) == Plus(Next(), interim - old(interim))
        invariant old(Ready(buffered, arrivals)) <==> Ready(buffered, arrivals)
        invariant old(Silent()) ==> Silent()
        invariant old(interim) <= MAX_INTERIM ==> interim <= MAX_INTERIM
        invariant AfterInterim(Heads()) == AfterInterim(old(Heads()))
        decreases |arrivals|
      {
        r := TakeBufferedFinal();
        if !r.NoHead? { return; }
        var a := ReadAhead();
        match a {
          case Quiet => return NoHead;
          case ReadFailed => return Error;
          case Closed => return Error;
          case Data(_) =>
        }
      }
    }

    /** After a failed write: an error response that explains it, if one comes soon. */
    method Salvage() returns (r: Option<nat>)
      modifies this`buffered, this`interim, this`arrivals
      ensures r.Some? ==> AbortsUpload(r.value) && AfterInterim(old(Heads())) == [Head(r.value)] + Heads()
      ensures old(Silent()) ==> r.None? && Silent()
      ensures forall s: nat :: s >= 400 && old(Expects(s)) && Ready(old(buffered), Front(old(arrivals), 7)) ==>
                r == Some(s)
    {
      hide AfterInterim, Heads, Awaited, Ready;
      for i := 0 to 8
        invariant forall s: nat :: s >= 400 && old(Expects(s)) && Ready(old(buffered), Front(old(arrivals), 7)) ==>
                    i < 8 && Expects(s) && Ready(buffered, Front(arrivals, 7 - i))
        invariant old(Silent()) ==> Silent()
        invariant AfterInterim(Heads()) == AfterInterim(old(Heads()))
      {
        var look := TakeBufferedFinal();
        if look.Found? { return if AbortsUpload(look.status) then Some(look.status) else None; }
        if look.Error? { return None; }
        FrontReady(arrivals, 7 - i);
        var a := ReadAhead();
        if !a.Data? { return None; }
        assert [] + a.replies == a.replies;
      }
      r := None;
    }

    /** Waits for the final response. */
    method NextFinalResponse() returns (r: Option<nat>)
      modifies this`buffered, this`arrivals
      ensures r.Some? ==> AfterInterim(old(Heads())) == [Head(r.value)] + Heads()
      ensures old(Silent()) ==> r.None?
      ensures var due := old(Next());
              r == if due.Some? && due.value.interims < 16 then Some(due.value.status) else None
    {
      hide AfterInterim, Flat, Awaited, Ready;
      AwaitedArrival(Quiet, []);
      var seen: nat := 0;
      while true
        invariant seen < MAX_INTERIM
        invariant old(Next()) == Plus(Next(), seen)
        invariant old(Silent()) ==> Silent()
        invariant AfterInterim(Heads()) == AfterInterim(old(Heads()))
        decreases |arrivals|, |buffered|
      {
        if buffered == [] {
          if arrivals == [] { return None; }
          var a := ReadAhead();
          if a.Closed? || a.ReadFailed? { return None; }
          continue;
        }
        var reply := buffered[0];
        assert Heads() == [reply] + (buffered[1..] + Flat(arrivals));
        DropInterim(reply, buffered[1..] + Flat(arrivals));
        assert buffered == [reply] + buffered[1..];
        AwaitedHead(reply, buffered[1..], arrivals);
        buffered := buffered[1..];
        if reply.Malformed? { return None; }
        if !Interim(reply.status) { return Some(reply.status); }
        seen := seen + 1;
        if seen == MAX_INTERIM { return None; }
      }
    }

    /** Writes a piece of the body, or its end; if that fails, the forwarding is over. */
    method SendPiece(data: seq<byte>) returns (stop: Option<Outcome>)
      modifies this`writes, this`sent, this`buffered, this`interim, this`arrivals
      ensures sent <= old(sent) + data
      ensures stop.None? ==> sent == old(sent) + data && interim == old(interim) && Heads() == old(Heads())
      ensures stop.Some? ==> stop.value.Failed? || stop.value.EarlyResponse?
      ensures stop.Some? && stop.value.EarlyResponse? ==>
                AbortsUpload(stop.value.status) && AfterInterim(old(Heads())) == [Head(stop.value.status)] + Heads()
      ensures writes == Later(old(writes)) && (stop.None? ==> Passes(old(writes)))
      ensures old(Silent()) ==> Silent() && stop == if Passes(old(writes)) then None else Some(Failed)
      ensures Passes(old(writes)) ==> stop.None? && Next() == old(Next())
      ensures forall s: nat ::
                !Passes(old(writes)) && s >= 400 && old(Expects(s)) && Ready(old(buffered), Front(old(arrivals), 7)) ==>
                  stop == Some(EarlyResponse(s))
    {
      hide AfterInterim, Flat, Awaited, Ready;
      var written := Write(data);
      if written { return None; }
      assert forall s: nat :: old(Expects(s)) ==> Expects(s);
      var salvaged := Salvage();
      stop := Some(if salvaged.Some? then EarlyResponse(salvaged.value) else Failed);
    }

    /** Looks for an early response, unless there is one already. */
    method WatchBackend(ghost heads: seq<Reply>, before: Option<nat>)
      returns (pending: Option<nat>, stop: Option<Outcome>)
      requires Awaiting(heads, before, Heads()) && interim <= MAX_INTERIM
      modifies this`buffered, this`interim, this`arrivals
      ensures stop.None? ==> Awaiting(heads, pending, Heads()) && interim <= MAX_INTERIM
      ensures stop.Some? ==> stop.value.Failed? || stop.value.EarlyResponse?
      ensures stop.Some? && stop.value.EarlyResponse? ==>
                AbortsUpload(stop.value.status) && Relays(heads, stop.value.status)
      ensures old(Silent()) ==> Silent() && stop.None? && pending == before
      ensures forall s: nat :: old(OnCourse(s, before)) ==>
                (stop.None? && OnCourse(s, pending)) || (s >= 400 && stop == Some(EarlyResponse(s)))
      ensures forall s: nat :: before.None? && old(Alert(s)) ==> stop == Some(EarlyResponse(s))
    {
      hide AfterInterim, Flat, Interim, Awaited, Ready;
      pending, stop := before, None;
      if pending.Some? { return; }
      var look := PollEarly();
      if look.Error? { return None, Some(Failed); }
      if look.Found? {
        FirstRelays(heads, look.status, Heads());
        if AbortsUpload(look.status) { return None, Some(EarlyResponse(look.status)); }
        pending := Some(look.status);
      }
    }

    /** One piece of the body: a look at the backend, then the write. */
    method ForwardChunk(ghost heads: seq<Reply>, data: seq<byte>, watch: bool, before: Option<nat>)
      returns (pending: Option<nat>, stop: Option<Outcome>)
      requires Awaiting(heads, before, Heads()) && interim <= MAX_INTERIM
      modifies this`writes, this`sent, this`buffered, this`interim, this`arrivals
      ensures sent <= old(sent) + data && (!watch ==> pending == before)
      ensures stop.None? ==> sent == old(sent) + data && Awaiting(heads, pending, Heads()) && interim <= MAX_INTERIM
      ensures stop.Some? ==> stop.value.Failed? || stop.value.EarlyResponse?
      ensures stop.Some? && stop.value.EarlyResponse? ==>
                AbortsUpload(stop.value.status) && Relays(heads, stop.value.status)
      ensures old(Silent()) ==> Silent() && writes == Later(old(writes)) && pending == before
      ensures old(Silent()) ==> stop == if Passes(old(writes)) then None else Some(Failed)
      ensures forall s: nat :: old(OnCourse(s, before)) && Passes(old(writes)) ==>
                || (stop.None? && OnCourse(s, pending) && writes == Later(old(writes)))
                || (s >= 400 && watch && stop == Some(EarlyResponse(s)))
      ensures forall s: nat :: watch && before.None? && old(Alert(s)) ==> stop == Some(EarlyResponse(s))
      ensures !watch && Passes(old(writes)) ==> stop.None?
    {
      hide AfterInterim, Flat, Interim, Awaiting, Relays, AbortsUpload, Passes, Later, Awaited, Ready;
      pending := before;
      if watch {
        pending, stop := WatchBackend(heads, pending);
        if stop.Some? { return; }
      }
      ghost var was := Heads();
      stop := SendPiece(data);
      if stop.Some? && stop.value.EarlyResponse? { SalvageRelays(heads, pending, was, stop.value.status, Heads()); }
    }

    /** The next item of the body, counted against the limit and forwarded. */
    method ForwardItem(ghost whole: seq<Item>, ghost heads: seq<Reply>, seen: nat, limit: Option<nat>,
                       watch: bool, before: Option<nat>)
      returns (seen': nat, pending: Option<nat>, more: bool, stop: Option<Outcome>)
      requires Progress(whole, sent, body, seen, limit) && seen <= USIZE_MAX
      requires limit.Some? ==> limit.value <= USIZE_MAX
      requires Awaiting(heads, before, Heads()) && interim <= MAX_INTERIM
      modifies this`body, this`broken, this`writes, this`sent, this`buffered, this`interim, this`arrivals
      ensures SentOk(whole, limit, sent) && (!watch ==> pending == before)
      ensures Clean(old(body)) ==> Clean(body) && broken == old(broken)
      ensures stop.None? ==> Progress(whole, sent, body, seen', limit) && seen' <= USIZE_MAX
      ensures stop.None? ==> Awaiting(heads, pending, Heads()) && interim <= MAX_INTERIM
      ensures if more then |body| < |old(body)| else stop.Some? || body == []
      ensures stop.Some? ==> StopOk(whole, heads, limit, stop.value)
      ensures old(Silent()) && Clean(old(body)) && limit.None? ==>
                && Silent() && pending == before && (stop.None? || stop.value.Failed?)
                && Unread(old(body), old(writes)) == if stop.None? then Unread(body, writes) else body
      ensures old(Silent()) && Clean(old(body)) && AllPass(old(writes)) ==>
                Silent() && AllPass(writes) && pending == before && (stop.None? || stop.value.TooLarge?)
      ensures forall s: nat ::
                old(OnCourse(s, before)) && Clean(old(body)) && AllPass(old(writes)) && Within(whole, limit) ==>
                  || (stop.None? && OnCourse(s, pending) && AllPass(writes))
                  || (s >= 400 && watch && stop == Some(EarlyResponse(s)))
      ensures forall s: nat ::
                && watch && before.None? && old(Alert(s))
                && Clean(old(body)) && old(body) != [] && Within(whole, limit) ==>
                  stop == Some(EarlyResponse(s))
    {
      hide Payload, Clean, AfterInterim, Flat, Relays, Awaiting, Progress, Saturated, AbortsUpload, Passes, Later;
      hide Unread, AllPass, Awaited, Ready;
      AllPassLater(writes);
      ProgressBounds(whole, sent, body, seen, limit, sent);
      seen', pending, more, stop := seen, before, false, None;
      var item := NextData();
      if item.None? { UnreadNone(writes); return; }
      if item.value.Broken? { stop := Some(Failed); return; }
      UnreadNext(item.value, body, writes);
      var data := item.value.data;
      ProgressStep(whole, sent, data, body, seen, limit);
      var ok: bool;
      seen', ok := AddLimited(seen, |data|, limit);
      if !ok { stop := Some(TooLarge); return; }
      ghost var full := sent + data;
      more := true;
      assert forall s: nat :: old(OnCourse(s, before)) ==> OnCourse(s, pending);
      assert forall s: nat :: old(Alert(s)) ==> Alert(s);
      pending, stop := ForwardChunk(heads, data, watch, pending);
      ProgressBounds(whole, full, body, seen', limit, sent);
    }

    /** Forwards one item after another. */
    method ForwardItems(ghost heads: seq<Reply>, limit: Option<nat>, watch: bool)
      returns (pending: Option<nat>, stop: Option<Outcome>)
      requires sent == [] && interim == 0 && Awaiting(heads, None, Heads())
      requires limit.Some? ==> limit.value <= USIZE_MAX
      modifies this`body, this`broken, this`writes, this`sent, this`buffered, this`interim, this`arrivals
      ensures SentOk(old(body), limit, sent) && (watch || pending.None?)
      ensures Clean(old(body)) ==> Clean(body) && broken == old(broken)
      ensures stop.None? ==> Clean(old(body)) && sent == Payload(old(body)) && body == []
      ensures stop.None? ==> Awaiting(heads, pending, Heads()) && interim <= MAX_INTERIM
      ensures stop.Some? ==> StopOk(old(body), heads, limit, stop.value)
      ensures old(Silent()) && Clean(old(body)) && limit.None? ==>
                && body == Unread(old(body), old(writes)) && Silent()
                && pending.None? && (stop.None? || stop.value.Failed?)
      ensures old(Silent()) && Clean(old(body)) && AllPass(old(writes)) ==> stop.None? || stop.value.TooLarge?
      ensures forall s: nat :: old(Expects(s)) && Fine(old(body), old(writes), limit) ==>
                || (stop.None? && OnCourse(s, pending) && AllPass(writes))
                || (s >= 400 && watch && stop == Some(EarlyResponse(s)))
      ensures forall s: nat ::
                watch && old(Alert(s)) && Clean(old(body)) && old(body) != [] && Within(old(body), limit) ==>
                stop == Some(EarlyResponse(s))
    {
      hide Payload, Clean, AfterInterim, Flat, Relays, Awaiting, Progress, Saturated, StopOk, AbortsUpload;
      hide Unread, Passes, Later, AllPass, Awaited, Ready, Within, SentOk;
      ghost var whole := body;
      ProgressStarts(body, limit);
      ProgressBounds(whole, sent, body, 0, limit, sent);
      BoundsOk(whole, limit, sent);
      UnreadNone(writes);
      var seen: nat, more := 0, true;
      pending, stop := None, None;
      while more
        invariant Progress(whole, sent, body, seen, limit) && SentOk(whole, limit, sent)
        invariant seen <= USIZE_MAX && interim <= MAX_INTERIM && stop.None?
        invariant Awaiting(heads, pending, Heads()) && (watch || pending.None?)
        invariant Clean(whole) ==> Clean(body) && broken == old(broken)
        invariant !more ==> body == []
        invariant old(Silent()) && Clean(whole) && limit.None? ==>
                    Silent() && pending.None? && Unread(body, writes) == Unread(whole, old(writes))
        invariant old(Silent()) && Clean(whole) && AllPass(old(writes)) ==>
                    Silent() && AllPass(writes) && pending.None?
        invariant forall s: nat :: old(Expects(s)) && Fine(whole, old(writes), limit) ==>
                    OnCourse(s, pending) && AllPass(writes)
        invariant forall s: nat :: watch && old(Alert(s)) && Clean(whole) && whole != [] && Within(whole, limit) ==>
                    body == whole && more && pending.None? && Alert(s)
        decreases |body|, more
      {
        seen, pending, more, stop := ForwardItem(whole, heads, seen, limit, watch, pending);
        if stop.Some? { return; }
      }
      ProgressEnds(whole, sent, seen, limit);
      UnreadNone(writes);
    }

    /** The end mark of a chunked body. */
    method EndBody(ghost whole: seq<Item>, ghost heads: seq<Reply>, limit: Option<nat>, pending: Option<nat>)
      returns (stop: Option<Outcome>)
      requires sent == Payload(whole) && SentOk(whole, limit, sent)
      requires Awaiting(heads, pending, Heads()) && interim <= MAX_INTERIM
      modifies this`writes, this`sent, this`buffered, this`interim, this`arrivals, this`ended
      ensures SentOk(whole, limit, sent)
      ensures stop.None? ==> sent == Payload(whole) && ended
      ensures stop.None? ==> Awaiting(heads, pending, Heads()) && interim <= MAX_INTERIM
      ensures stop.Some? ==> !stop.value.Completed? && StopOk(whole, heads, limit, stop.value)
      ensures old(Silent()) ==> Silent() && (stop.None? || stop.value.Failed?)
      ensures AllPass(old(writes)) ==> stop.None? && forall s: nat :: old(OnCourse(s, pending)) ==> OnCourse(s, pending)
    {
      hide Payload, AfterInterim, Flat, Relays, Awaiting, StopOk, AbortsUpload, Passes, Later, AllPass, Awaited, Ready;
      AllPassLater(writes);
      var same: Option<nat>;
      same, stop := ForwardChunk(heads, [], false, pending);
      assert Payload(whole) + [] == Payload(whole);
      if stop.Some? { EndStops(whole, heads, limit, stop.value); return; }
      ended := true;
    }

    /** Forwards the body. What the backend has received is always a prefix of the body and within the
        limit; it is all of it when the outcome is `Completed`, and only an error status ends it early.
        If nothing goes wrong the upload is completed and leaves the answer that is due, or ends early
        with it; an error that is there already ends it; and a body over its limit is refused. */
    method ForwardRequestBody(hint: Hint, chunked: bool, limit: Option<nat>, watch: bool) returns (r: Outcome)
      requires sent == [] && !ended && (hint.NoBody? ==> body == []) && (limit.Some? ==> limit.value <= USIZE_MAX)
      modifies this`body, this`broken, this`writes, this`sent, this`buffered, this`interim, this`arrivals, this`ended
      ensures SentOk(old(body), limit, sent)
      ensures Clean(old(body)) ==> Clean(body) && broken == old(broken)
      ensures r.Completed? ==> Clean(old(body)) && sent == Payload(old(body)) && body == []
      ensures r.Completed? ==> hint.NoBody? || ended == chunked
      ensures r.Completed? ==> Awaiting(old(Heads()), r.pending, Heads()) && interim <= MAX_INTERIM
      ensures r.Completed? ==> watch || r.pending.None?
      ensures !r.Completed? ==> StopOk(old(body), old(Heads()), limit, r)
      ensures hint.UntilClose? ==> r.Failed? && sent == [] && body == old(body) && broken == old(broken)
      ensures old(Silent()) && Clean(old(body)) && limit.None? && !hint.UntilClose? ==>
                body == Unread(old(body), old(writes)) && (r.Failed? || (r == Completed(None) && Silent()))
      ensures forall s: nat :: old(Soon(s)) && Fine(old(body), old(writes), limit) && !hint.UntilClose? ==>
                (r.Completed? && OnCourse(s, r.pending)) || (s >= 400 && watch && r == EarlyResponse(s))
      ensures forall s: nat ::
                && watch && old(Soon(s)) && old(Ready(buffered, arrivals)) && s >= 400
                && Clean(old(body)) && old(body) != [] && Within(old(body), limit) && hint.Sized? ==>
                  r == EarlyResponse(s)
      ensures old(Silent()) && Clean(old(body)) && AllPass(old(writes)) && hint.Sized? && Over(old(body), limit) ==>
                r.TooLarge?
    {
      ghost var heads, whole := Heads(), body;
      assert Awaiting(heads, None, Heads());
      hide Payload, Clean, AfterInterim, Flat, Relays, Awaiting, StopOk, AbortsUpload, Unread, Passes, Later;
      hide AllPass, Awaited, Ready, Within;
      interim := 0;
      EmptyPayload();
      EmptySent(body, limit);
      UnreadNone(writes);
      if hint.NoBody? { return Completed(None); }
      if hint.UntilClose? { FailedStops(whole, heads, limit); return Failed; }
      assert forall s: nat :: old(Soon(s)) ==> Expects(s);
      var pending: Option<nat>, stop: Option<Outcome>;
      pending, stop := ForwardItems(heads, limit, watch);
      if stop.Some? { return stop.value; }
      if chunked {
        stop := EndBody(whole, heads, limit, pending);
        if stop.Some? { return stop.value; }
      }
      r := Completed(pending);
    }

    /** Passes a final response on: to the hooks, as an upgrade, or to the client. */
    method Answer(status: nat, fullySent: bool, t: Setting) returns (r: ProxyOutcome)
      requires relayed == [] && !started && (fullySent ==> body == [])
      modifies this`body, this`broken, this`relayed, this`clientWrites, this`started
      ensures |relayed| <= 1 && (started <==> relayed != [])
      ensures r.Relayed? ==> relayed == [r.status] && r.status == t.hook(status)
      ensures r.Continued? ==> relayed == []
      ensures r.Dropped? ==> !r.noResponse
      ensures r.Dropped? && relayed != [] ==> !t.bodyAfter || (old(clientWrites) != [] && !old(clientWrites)[0])
      ensures Reuses(r) ==> fullySent && t.reusable
      ensures Keeps(r) ==> body == [] || broken
      ensures Clean(old(body)) ==> broken == old(broken) && (Keeps(r) ==> body == [])
      ensures t.upgraded || (!t.continued && t.bodyBefore) ==> relayed == [t.hook(status)]
      ensures t.continued && !t.upgraded && t.bodyBefore ==> r.Continued?
      ensures relayed != [] && t.bodyAfter && Delivers(old(clientWrites)) ==> r.Relayed?
      ensures r.Relayed? && fullySent && !t.upgraded ==> r.keepClient && r.reuseBackend == (t.reusable && !t.untilClose)
      ensures r.Relayed? && !fullySent && !t.upgraded && Clean(old(body)) ==>
                r.keepClient == (|old(body)| < t.lingerSteps)
    {
      hide Clean;
      var canReuse := fullySent && t.reusable && !t.untilClose;
      if t.upgraded {
        var written := WriteHead(t.hook(status));
        return if written && t.bodyAfter then Relayed(t.hook(status), false, false) else Dropped(false);
      }
      if t.continued {
        if !t.bodyBefore { return Dropped(false); }
        if !fullySent { DrainPayload(); }
        return Continued(canReuse);
      }
      var clientReusable := true;
      if !fullySent { clientReusable := DrainUntil(t.lingerSteps); }
      if !t.bodyBefore { return Dropped(false); }
      var written := WriteHead(t.hook(status));
      r := if written && t.bodyAfter then Relayed(t.hook(status), canReuse, clientReusable) else Dropped(false);
    }

    /** After a completed upload: the response that is pending, or the one the backend gives next. */
    method AnswerCompleted(ghost heads: seq<Reply>, pending: Option<nat>, t: Setting)
      returns (r: ProxyOutcome, ghost backend: Option<nat>)
      requires relayed == [] && !started && body == [] && Awaiting(heads, pending, Heads())
      modifies this`body, this`broken, this`relayed, this`clientWrites, this`started, this`buffered, this`arrivals
      ensures |relayed| <= 1 && (started <==> relayed != [])
      ensures r.Relayed? ==> relayed == [r.status] && backend.Some?
      ensures r.Relayed? ==> r.status == t.hook(backend.value) || (t.raw && r.status == backend.value)
      ensures backend.Some? ==> Relays(heads, backend.value)
      ensures r.Continued? || (r.Dropped? && r.noResponse) ==> relayed == []
      ensures r.Dropped? && relayed != [] ==> !t.bodyAfter || (old(clientWrites) != [] && !old(clientWrites)[0])
      ensures Reuses(r) ==> t.reusable
      ensures broken == old(broken) && (Keeps(r) ==> body == [])
      ensures old(Silent()) && pending.None? ==> r.Dropped? && relayed == [] && body == []
      ensures forall s: nat :: old(OnCourse(s, pending)) && t.Plain() ==>
                && backend == Some(s)
                && relayed == [if t.raw && pending.None? then s else t.hook(s)]
                && (t.bodyAfter && Delivers(old(clientWrites)) ==> r.Relayed?)
      ensures r.Relayed? && t.Plain() ==>
                r.keepClient && r.reuseBackend == (t.reusable && ((t.raw && pending.None?) || !t.untilClose))
    {
      hide AfterInterim, Flat, Relays, Awaiting, Awaited;
      EmptyPayload();
      hide Clean;
      var status: nat;
      if pending.Some? {
        status := pending.value;
        PendingRelays(heads, status, Heads());
      } else {
        ghost var was := Heads();
        var response := NextFinalResponse();
        if response.None? { return Dropped(true), None; }
        status := response.value;
        NextRelays(heads, was, status, Heads());
        if t.raw {
          if !t.bodyBefore { return Dropped(false), Some(status); }
          var written := WriteHead(status);
          return if written then Relayed(status, t.reusable, true) else Dropped(false), Some(status);
        }
      }
      backend := Some(status);
      r := Answer(status, true, t);
    }

    /** Once the upload is over: what its outcome calls for. */
    method Conclude(ghost whole: seq<Item>, ghost heads: seq<Reply>, limit: Option<nat>, outcome: Outcome, t: Setting)
      returns (r: ProxyOutcome, ghost backend: Option<nat>)
      requires relayed == [] && !started && SentOk(whole, limit, sent)
      requires outcome.Completed? ==> body == [] && Awaiting(heads, outcome.pending, Heads())
      requires outcome.Completed? ==> Clean(whole) && sent == Payload(whole)
      requires !outcome.Completed? ==> StopOk(whole, heads, limit, outcome)
      requires Clean(whole) ==> Clean(body)
      modifies this`body, this`broken, this`relayed, this`clientWrites, this`started, this`buffered, this`arrivals
      ensures |relayed| <= 1 && (started <==> relayed != [])
      ensures r.Relayed? ==> relayed == [r.status]
      ensures r.Continued? || (r.Dropped? && r.noResponse) ==> relayed == []
      ensures r.Dropped? && relayed != [] ==> !t.bodyAfter || (old(clientWrites) != [] && !old(clientWrites)[0])
      ensures r.Relayed? ==> Answers(whole, heads, limit, t, r.status, backend)
      ensures Reuses(r) ==> outcome.Completed? && t.reusable
      ensures Keeps(r) ==> body == [] || broken
      ensures Clean(whole) ==> broken == old(broken) && (Keeps(r) ==> body == [])
      ensures backend.Some? && !outcome.Completed? ==> AbortsUpload(backend.value)
      ensures outcome.Failed? ==> r.Dropped? && relayed == [] && body == old(body) && broken == old(broken)
      ensures outcome.TooLarge? ==> relayed == [t.hook(413)]
      ensures outcome.EarlyResponse? && t.Plain() ==>
                relayed == [t.hook(outcome.status)] && (t.bodyAfter && Delivers(old(clientWrites)) ==> r.Relayed?)
      ensures outcome.Completed? && old(Silent()) && outcome.pending.None? ==> r.Dropped? && relayed == [] && body == []
      ensures outcome.Completed? && r.Relayed? && t.Plain() ==>
                r.keepClient && (t.reusable && !t.untilClose ==> r.reuseBackend)
      ensures outcome.Completed? && t.Plain() ==>
                forall s: nat :: old(OnCourse(s, outcome.pending)) ==>
                  && relayed == [if t.raw && outcome.pending.None? then s else t.hook(s)]
                  && (t.bodyAfter && Delivers(old(clientWrites)) ==> r.Relayed?)
    {
      hide Payload, Clean, AfterInterim, Flat, Relays, Awaiting, SentOk, AbortsUpload, Awaited;
      backend := None;
      match outcome {
        case TooLarge =>
          var inTime := DrainUntil(t.lingerSteps);
          var _ := WriteHead(t.hook(413));
          r := Relayed(t.hook(413), false, t.keepAlive && inTime);
        case Failed =>
          r := Dropped(false);
        case EarlyResponse(early) =>
          backend := Some(early);
          r := Answer(early, false, t);
        case Completed(pending) =>
          r, backend := AnswerCompleted(heads, pending, t);
      }
    }

    /** One exchange with a backend. `backend` is the status of the final head it gave, if that is what
        is answered. At most one final head goes to the client, whatever fails on the way; a failed
        exchange has started one only if writing it or what follows it failed. */
    method ProxyOverConnection(hint: Hint, chunked: bool, limit: Option<nat>, watch: bool, t: Setting)
      returns (r: ProxyOutcome, ghost backend: Option<nat>)
      requires sent == [] && !ended && (hint.NoBody? ==> body == []) && (limit.Some? ==> limit.value <= USIZE_MAX)
      requires relayed == [] && !started
      modifies this
      ensures SentOk(old(body), limit, sent)
      ensures |relayed| <= 1 && (started <==> relayed != [])
      ensures r.Relayed? ==> relayed == [r.status]
      ensures r.Continued? || (r.Dropped? && r.noResponse) ==> relayed == []
      ensures r.Dropped? && relayed != [] ==> !t.bodyAfter || (old(clientWrites) != [] && !old(clientWrites)[0])
      ensures r.Relayed? ==> Answers(old(body), old(Heads()), limit, t, r.status, backend)
      ensures Reuses(r) ==> Clean(old(body)) && sent == Payload(old(body)) && t.reusable
      ensures Keeps(r) ==> body == [] || broken
      ensures Keeps(r) && Clean(old(body)) && !old(broken) ==> body == []
      ensures backend.Some? && !(Clean(old(body)) && sent == Payload(old(body))) ==> AbortsUpload(backend.value)
      ensures !t.headSent || hint.UntilClose? ==>
                r.Dropped? && relayed == [] && body == old(body) && broken == old(broken)
      ensures old(Silent()) && Clean(old(body)) && limit.None? && t.headSent && !hint.UntilClose? ==>
                r.Dropped? && relayed == [] && body == Unread(old(body), old(writes)) && broken == old(broken)
      ensures forall s: nat ::
                old(Soon(s)) && Healthy(old(body), old(writes), limit, hint, t) ==>
                  && (relayed == [t.hook(s)] || (t.raw && relayed == [s]))
                  && (t.raw && !watch ==> relayed == [s])
                  && (t.bodyAfter && Delivers(old(clientWrites)) ==> r.Relayed?)
                  && (s < 400 && r.Relayed? ==> r.keepClient && (t.reusable && !t.untilClose ==> r.reuseBackend))
      ensures forall s: nat ::
                && watch && old(Soon(s)) && old(Ready(buffered, arrivals)) && s >= 400 && t.headSent && hint.Sized?
                && Clean(old(body)) && old(body) != [] && Within(old(body), limit) && t.Plain() ==>
                  relayed == [t.hook(s)]
      ensures old(Silent()) && Clean(old(body)) && AllPass(old(writes)) && t.headSent && hint.Sized? ==>
                Over(old(body), limit) ==> relayed == [t.hook(413)]
    {
      hide Payload, Clean, AfterInterim, Flat, Relays, Awaiting, SentOk, AbortsUpload, Unread, AllPass, Awaited, Ready;
      hide Within, Over, Answers, StopOk;
      if !t.headSent { EmptySent(body, limit); return Dropped(true), None; }
      ghost var whole, heads := body, Heads();
      var outcome := ForwardRequestBody(hint, chunked, limit, watch);
      r, backend := Conclude(whole, heads, limit, outcome, t);
    }

    /** The exchange and what follows it: a failure is answered with a 502 unless a response had been
        started, and then the connection is closed. So the client gets exactly one final head, or none
        when the hooks take the request over. `quiet` marks the 502: it lets the connection live although
        nothing has drained the body, and it is the only way to keep a client whose body is not read. */
    method HandleProxy(hint: Hint, chunked: bool, limit: Option<nat>, watch: bool, t: Setting)
      returns (keep: bool, r: ProxyOutcome, ghost quiet: bool)
      requires sent == [] && !ended && (hint.NoBody? ==> body == []) && (limit.Some? ==> limit.value <= USIZE_MAX)
      requires relayed == [] && !started
      modifies this
      ensures |relayed| == if r.Continued? then 0 else 1
      ensures quiet ==> r.Dropped? && relayed == [t.hook(502)]
      ensures keep == if quiet then t.keepAlive else Keeps(r)
      ensures keep && !quiet ==> body == [] || broken
      ensures keep && body != [] && !broken <==> quiet && t.keepAlive && body != [] && !broken
      ensures !t.headSent || hint.UntilClose? ==> quiet && body == old(body) && broken == old(broken)
      ensures old(Silent()) && Clean(old(body)) && limit.None? && t.headSent && !hint.UntilClose? ==>
                quiet && body == Unread(old(body), old(writes)) && broken == old(broken)
      ensures forall s: nat ::
                old(Soon(s)) && Healthy(old(body), old(writes), limit, hint, t) ==>
                  && (relayed == [t.hook(s)] || (t.raw && relayed == [s]))
                  && (t.raw && !watch ==> relayed == [s])
                  && (t.bodyAfter && Delivers(old(clientWrites)) ==> r.Relayed?)
                  && (s < 400 && r.Relayed? ==> r.keepClient && (t.reusable && !t.untilClose ==> r.reuseBackend))
      ensures forall s: nat ::
                && watch && old(Soon(s)) && old(Ready(buffered, arrivals)) && s >= 400 && t.headSent && hint.Sized?
                && Clean(old(body)) && old(body) != [] && Within(old(body), limit) && t.Plain() ==>
                  relayed == [t.hook(s)]
      ensures old(Silent()) && Clean(old(body)) && AllPass(old(writes)) && t.headSent && hint.Sized? ==>
                Over(old(body), limit) ==> relayed == [t.hook(413)]
    {
      hide Payload, Clean, AfterInterim, Flat, Relays, Awaiting, Answers, SentOk, Unread, AllPass, Awaited, Ready;
      hide Within, Over;
      ghost var backend: Option<nat>;
      r, backend := ProxyOverConnection(hint, chunked, limit, watch, t);
      quiet := false;
      if !r.Dropped? { return Keeps(r), r, false; }
      if started { return false, r, false; }
      quiet := true;
      var _ := WriteHead(t.hook(502));
      keep := t.keepAlive;
    }

    constructor (body: seq<Item>, arrivals: seq<Arrival>, writes: seq<Option<nat>>, clientWrites: seq<bool>)
      ensures this.body == body && !broken && relayed == [] && this.clientWrites == clientWrites && !started
      ensures buffered == [] && this.arrivals == arrivals && this.writes == writes && sent == [] && !ended
    {
      this.body, broken, relayed, this.clientWrites, started := body, false, [], clientWrites, false;
      buffered, this.arrivals, this.writes, sent, ended, interim := [], arrivals, writes, [], false, 0;
    }
  }

  /** A request head that cannot be sent: the client gets a 502 and is kept, with its body unread. */
  method UnsentHeadExample() returns (keep: bool, status: seq<nat>, unread: seq<Item>)
    ensures keep && status == [502] && unread == [Chunk([1])]
  {
    var e := new Exchange([Chunk([1])], [], [], []);
    var t := Setting(false, false, false, false, false, false, false, false, true, 0, s => s);
    var r: ProxyOutcome;
    ghost var quiet: bool;
    keep, r, quiet := e.HandleProxy(Sized, false, None, false, t);
    status, unread := e.relayed, e.body;
  }

  /** A backend that takes the head and then goes away: the first chunk is lost, the second is unread. */
  method LostUploadExample() returns (keep: bool, status: seq<nat>, unread: seq<Item>)
    ensures keep && status == [502] && unread == [Chunk([2])]
  {
    var e := new Exchange([Chunk([1]), Chunk([2])], [], [Some(0)], []);
    var t := Setting(true, false, false, false, false, false, false, false, true, 0, s => s);
    UnreadNext(Chunk([1]), [Chunk([2])], [Some(0)]);
    assert [Chunk([1])] + [Chunk([2])] == [Chunk([1]), Chunk([2])];
    var r: ProxyOutcome;
    ghost var quiet: bool;
    keep, r, quiet := e.HandleProxy(Sized, false, None, false, t);
    status, unread := e.relayed, e.body;
  }

  /** One byte too many passes under the largest limit: the sum stays at it. */
  method LargestLimitExample() returns (seen: nat, ok: bool)
    ensures ok && seen == USIZE_MAX
  {
    seen, ok := AddLimited(USIZE_MAX, 1, Some(USIZE_MAX));
  }

  /** What is outside this model: whether the request head could be sent; what the response and the hooks
      ask for (`hook` is what they make of a status); whether the response body can be read before and
      after its head is written; whether the head lets the connection live; how long a drain may take. */
  datatype Setting = Setting(
    headSent: bool, raw: bool, reusable: bool, untilClose: bool, upgraded: bool, continued: bool,
    bodyBefore: bool, bodyAfter: bool, keepAlive: bool, lingerSteps: nat, hook: nat -> nat)
  {
    /** The response goes to the client: the hooks do not take over and its body can be read. */
    predicate Plain() { !upgraded && !continued && bodyBefore }
  }

  predicate Delivers(clientWrites: seq<bool>) { clientWrites == [] || clientWrites[0] }

  /** A response was written, the hooks took over, or the exchange failed; `noResponse` marks a failure
      before anything came from the backend or went to the client. */
  datatype ProxyOutcome =
    | Relayed(status: nat, reuseBackend: bool, keepClient: bool)
    | Continued(reuseBackend: bool)
    | Dropped(noResponse: bool)

  /** Nothing goes wrong on the way to the backend: the head is sent, the body is clean and within its
      limit, every write passes, and the response goes to the client. */
  predicate Healthy(whole: seq<Item>, writes: seq<Option<nat>>, limit: Option<nat>, hint: Hint, t: Setting) {
    Fine(whole, writes, limit) && t.headSent && !hint.UntilClose? && t.Plain()
  }

  predicate Reuses(r: ProxyOutcome) { (r.Relayed? || r.Continued?) && r.reuseBackend }

  predicate Keeps(r: ProxyOutcome) { r.Continued? || (r.Relayed? && r.keepClient) }

  /** The status the client gets: that of the backend's first final head (or of an error right after a
      pending one), as it is or as the hooks make it; or a 413 for a body over its limit. */
  ghost predicate Answers(whole: seq<Item>, heads: seq<Reply>, limit: Option<nat>, t: Setting,
                          status: nat, backend: Option<nat>)
  {
    match backend
    case Some(s) => Relays(heads, s) && (status == t.hook(s) || (t.raw && status == s))
    case None => status == t.hook(413) && limit.Some? && |Payload(whole)| > limit.value
  }

  lemma BoundsOk(whole: seq<Item>, limit: Option<nat>, sent: seq<byte>)
    requires sent <= Payload(whole) && (limit.Some? && limit.value < USIZE_MAX ==> |sent| <= limit.value)
    ensures SentOk(whole, limit, sent)
  {
  }

  lemma EmptySent(whole: seq<Item>, limit: Option<nat>)
    ensures SentOk(whole, limit, [])
  {
  }

  lemma FailedStops(whole: seq<Item>, heads: seq<Reply>, limit: Option<nat>)
    ensures StopOk(whole, heads, limit, Failed)
  {
  }

  lemma EndStops(whole: seq<Item>, heads: seq<Reply>, limit: Option<nat>, stop: Outcome)
    requires stop.Failed? || (stop.EarlyResponse? && AbortsUpload(stop.status) && Relays(heads, stop.status))
    ensures StopOk(whole, heads, limit, stop)
  {
  }

  lemma PendingRelays(heads: seq<Reply>, status: nat, now: seq<Reply>)
    requires Awaiting(heads, Some(status), now)
    ensures Relays(heads, status)
  {
    FirstRelays(heads, status, now);
  }

  lemma NextRelays(heads: seq<Reply>, was: seq<Reply>, status: nat, now: seq<Reply>)
    requires Awaiting(heads, None, was) && AfterInterim(was) == [Head(status)] + now
    ensures Relays(heads, status)
  {
    FirstRelays(heads, status, now);
  }
}
