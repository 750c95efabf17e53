/** The relocation entries of `src/tinycc.rs`: reading and writing them, and dropping the call
    relocations the loader would reject. */
module Relocations {
  import opened Bytes
  import opened ElfFormat

  const CALL: byte := 0x85
  const R_BPF_64_32 := 10
  const REL_SIZE := 16

  datatype Rel = Rel(offset: u64, info: u64) {
    function Sym(): (s: nat) { info / 0x1_0000_0000 }
    function Typ(): (t: nat) { info % 0x1_0000_0000 }
    predicate IsCall() { Typ() == R_BPF_64_32 }
  }

  // ---------------------------------------------------------------- reading and writing

  function DecodeRel(b: seq<byte>): (r: Rel)
    requires |b| >= REL_SIZE
  {
    Rel(U64(b[0..8]), U64(b[8..16]))
  }

  function EncodeRel(r: Rel): (b: seq<byte>)
    ensures |b| == REL_SIZE
  {
    LE(8, r.offset) + LE(8, r.info)
  }

  function EntrySize(entsize: u64): (e: nat) {
    if entsize == 0 then REL_SIZE else entsize
  }

  /** The entries in `data`, each `e` bytes apart; a shorter tail is ignored. */
  function RelsIn(data: seq<byte>, e: nat): (rels: seq<Rel>)
    requires e >= REL_SIZE
    ensures |rels| == |data| / e
    decreases |data|
  {
    if |data| < e then
      DivModUnique(|data|, e, 0, |data|);
      []
    else
      var rest := RelsIn(data[e..], e);
      assert |data| == (|rest| + 1) * e + (|data| - e) % e;
      DivModUnique(|data|, e, |rest| + 1, (|data| - e) % e);
      [DecodeRel(data[..e])] + rest
  }

  function EncodeRels(rels: seq<Rel>): (b: seq<byte>)
    ensures |b| == REL_SIZE * |rels|
  {
    if rels == [] then [] else EncodeRel(rels[0]) + EncodeRels(rels[1..])
  }

  method ParseRels(entsize: u64, data: seq<byte>) returns (r: Result<seq<Rel>>)
    ensures r == if EntrySize(entsize) < REL_SIZE then Err else Ok(RelsIn(data, EntrySize(entsize)))
  {
    hide DecodeRel;
    var e := EntrySize(entsize);
    if e < REL_SIZE {
      return Err;
    }
    var out, rest := [], data;
    while |rest| >= e
      invariant out + RelsIn(rest, e) == RelsIn(data, e)
      decreases |rest|
    {
      out := out + [DecodeRel(rest[..e])];
      rest := rest[e..];
    }
    assert RelsIn(rest, e) == [];
    assert out + [] == out == RelsIn(data, e);
    return Ok(out);
  }

  method WriteRels(rels: seq<Rel>) returns (b: seq<byte>)
    ensures b == EncodeRels(rels)
  {
    hide EncodeRel;
    b := [];
    for i := 0 to |rels|
      invariant b + EncodeRels(rels[i..]) == EncodeRels(rels)
    {
      b := b + LE(8, rels[i].offset) + LE(8, rels[i].info);
      assert rels[i..][1..] == rels[i + 1..];
      EncodeRelIs(rels[i]);
    }
  }

  lemma EncodeRelIs(r: Rel)
    ensures EncodeRel(r) == LE(8, r.offset) + LE(8, r.info)
  {
  }

  lemma DecodeOfEncode(r: Rel, tail: seq<byte>)
    ensures DecodeRel(EncodeRel(r) + tail) == r
  {
    hide LE, U64;
    var b := EncodeRel(r) + tail;
    assert b[0..8] == LE(8, r.offset) && b[8..16] == LE(8, r.info);
    U64OfLE(r.offset);
    U64OfLE(r.info);
  }

  lemma EncodeOfDecode(b: seq<byte>)
    requires |b| == REL_SIZE
    ensures EncodeRel(DecodeRel(b)) == b
  {
    hide LE;
    LEOfFromLE(b[0..8]);
    LEOfFromLE(b[8..16]);
    assert b == b[0..8] + b[8..16];
  }

  lemma {:induction false} ParseInvertsWrite(rels: seq<Rel>)
    ensures RelsIn(EncodeRels(rels), REL_SIZE) == rels
  {
    hide EncodeRel, DecodeRel;
    if rels != [] {
      ParseInvertsWrite(rels[1..]);
      var b := EncodeRels(rels);
      assert b[REL_SIZE..] == EncodeRels(rels[1..]);
      DecodeOfEncode(rels[0], []);
      assert b[..REL_SIZE] == EncodeRel(rels[0]) + [];
      assert rels == [rels[0]] + rels[1..];
    }
  }

  lemma {:induction false} WriteInvertsParse(data: seq<byte>)
    requires |data| % REL_SIZE == 0
    ensures EncodeRels(RelsIn(data, REL_SIZE)) == data
    decreases |data|
  {
    hide EncodeRel, DecodeRel;
    if |data| >= REL_SIZE {
      WriteInvertsParse(data[REL_SIZE..]);
      EncodeOfDecode(data[..REL_SIZE]);
      assert RelsIn(data, REL_SIZE)[1..] == RelsIn(data[REL_SIZE..], REL_SIZE);
      assert data == data[..REL_SIZE] + data[REL_SIZE..];
    }
  }

  /** Entries are written 16 bytes apart whatever the section header says, so a table whose entry size
      is larger reads back differently unless it is empty. */
  lemma ReadsBackIff(rels: seq<Rel>, e: nat)
    requires e >= REL_SIZE
    ensures RelsIn(EncodeRels(rels), e) == rels <==> e == REL_SIZE || rels == []
  {
    if e == REL_SIZE {
      ParseInvertsWrite(rels);
    } else if rels != [] {
      FewerEntries(|rels|, e);
    }
  }

  /** A table of one entry whose header says 24 bytes reads back empty. */
  lemma WideEntryExample(rel: Rel)
    ensures RelsIn(EncodeRels([rel]), 24) == []
  {
    assert |EncodeRels([rel])| == REL_SIZE;
  }

  lemma FewerEntries(n: nat, e: nat)
    requires n > 0 && e > REL_SIZE
    ensures (REL_SIZE * n) / e < n
  {
    var q, r := (REL_SIZE * n) / e, (REL_SIZE * n) % e;
    assert q * e + r == REL_SIZE * n;
    assert q >= n ==> (q - n) * e >= 0;
    assert n * (e - REL_SIZE) > 0;
  }

  // ---------------------------------------------------------------- pruning

  predicate ValidSite(data: seq<byte>, rel: Rel) {
    rel.offset + 8 <= |data| && rel.offset % 8 == 0
  }

  predicate ValidCalls(data: seq<byte>, rels: seq<Rel>) {
    forall i :: 0 <= i < |rels| && rels[i].IsCall() ==> ValidSite(data, rels[i])
  }

  predicate OnCall(data: seq<byte>, rel: Rel) {
    ValidSite(data, rel) && data[rel.offset] == 0x85
  }

  /** Non-call relocations stay; of the call relocations on a call instruction the first one stays. */
  predicate Keeps(data: seq<byte>, rels: seq<Rel>, i: nat)
    requires i < |rels|
  {
    rels[i].IsCall() ==>
      && OnCall(data, rels[i])
      && forall j :: 0 <= j < i && rels[j].IsCall() ==> rels[j].offset != rels[i].offset
  }

  /** The survivors among the first `n` relocations. */
  function Pruned(data: seq<byte>, rels: seq<Rel>, n: nat): (kept: seq<Rel>)
    requires n <= |rels|
  {
    if n == 0 then []
    else Pruned(data, rels, n - 1) + (if Keeps(data, rels, n - 1) then [rels[n - 1]] else [])
  }

  method PruneInvalidCallRelocs(data: seq<byte>, rels: seq<Rel>) returns (r: Result<seq<Rel>>)
    ensures r == if ValidCalls(data, rels) then Ok(Pruned(data, rels, |rels|)) else Err
  {
    var out: seq<Rel>, callOffsets: set<u64> := [], {};
    for i := 0 to |rels|
      invariant ValidCalls(data, rels[..i])
      invariant out == Pruned(data, rels, i)
      invariant forall x :: x in callOffsets <==>
                  exists j :: 0 <= j < i && rels[j].IsCall() && OnCall(data, rels[j]) && rels[j].offset == x
    {
      var rel := rels[i];
      if rel.IsCall() {
        if rel.offset + 8 > |data| || rel.offset % 8 != 0 {
          assert !ValidSite(data, rels[i]);
          return Err;
        }
        if data[rel.offset] != CALL {
          continue;
        }
        if rel.offset in callOffsets {
          continue;
        }
        callOffsets := callOffsets + {rel.offset};
      }
      out := out + [rel];
    }
    assert rels[..|rels|] == rels;
    return Ok(out);
  }

  /** Call relocations sit on call instructions, at most one each. */
  predicate CallsClean(data: seq<byte>, rels: seq<Rel>) {
    && (forall i :: 0 <= i < |rels| && rels[i].IsCall() ==> OnCall(data, rels[i]))
    && forall i, j :: 0 <= i < j < |rels| && rels[i].IsCall() && rels[j].IsCall() ==> rels[i].offset != rels[j].offset
  }

  lemma {:induction false} PrunedIsClean(data: seq<byte>, rels: seq<Rel>, n: nat)
    requires n <= |rels|
    ensures CallsClean(data, Pruned(data, rels, n))
    ensures forall k :: 0 <= k < |Pruned(data, rels, n)| ==>
              exists j :: 0 <= j < n && rels[j] == Pruned(data, rels, n)[k]
  {
    hide OnCall;
    if n > 0 {
      PrunedIsClean(data, rels, n - 1);
    }
  }

  lemma {:induction false} CleanIsUnchanged(data: seq<byte>, rels: seq<Rel>, n: nat)
    requires CallsClean(data, rels) && n <= |rels|
    ensures Pruned(data, rels, n) == rels[..n]
  {
    if n > 0 {
      CleanIsUnchanged(data, rels, n - 1);
    }
  }

  /** Pruning twice is pruning once. */
  lemma PruneIdempotent(data: seq<byte>, rels: seq<Rel>)
    ensures var once := Pruned(data, rels, |rels|); Pruned(data, once, |once|) == once
  {
    var once := Pruned(data, rels, |rels|);
    PrunedIsClean(data, rels, |rels|);
    CleanIsUnchanged(data, once, |once|);
  }

  function PlainRels(rels: seq<Rel>, n: nat): (plain: seq<Rel>)
    requires n <= |rels|
  {
    if n == 0 then [] else PlainRels(rels, n - 1) + (if rels[n - 1].IsCall() then [] else [rels[n - 1]])
  }

  lemma PlainRelsAppend(a: seq<Rel>, r: Rel)
    ensures PlainRels(a + [r], |a| + 1) == PlainRels(a, |a|) + (if r.IsCall() then [] else [r])
  {
    PlainRelsPrefix(a, [r], |a|);
  }

  lemma {:induction false} PlainRelsPrefix(a: seq<Rel>, b: seq<Rel>, n: nat)
    requires n <= |a|
    ensures PlainRels(a + b, n) == PlainRels(a, n)
  {
    if n > 0 {
      PlainRelsPrefix(a, b, n - 1);
    }
  }

  /** Pruning keeps every non-call relocation, in order. */
  lemma {:induction false} PruneKeepsPlain(data: seq<byte>, rels: seq<Rel>, n: nat)
    requires n <= |rels|
    ensures PlainRels(Pruned(data, rels, n), |Pruned(data, rels, n)|) == PlainRels(rels, n)
  {
    if n > 0 {
      assert !Keeps(data, rels, n - 1) ==> rels[n - 1].IsCall();
      hide Keeps;
      PruneKeepsPlain(data, rels, n - 1);
      var before := Pruned(data, rels, n - 1);
      PlainRelsAppend(before, rels[n - 1]);
      assert Pruned(data, rels, n) == if Keeps(data, rels, n - 1) then before + [rels[n - 1]] else before;
    }
  }

  /** Pruning keeps, for every call instruction that has a call relocation, the first one. */
  lemma {:induction false} PruneKeepsFirstCall(data: seq<byte>, rels: seq<Rel>, n: nat, i: nat)
    requires i < n <= |rels| && Keeps(data, rels, i)
    ensures rels[i] in Pruned(data, rels, n)
    decreases n
  {
    if i < n - 1 {
      PruneKeepsFirstCall(data, rels, n - 1, i);
    }
  }
}
