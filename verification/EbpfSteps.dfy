/** Running eBPF code, before and after folding. A step goes from one program position to another
    and is labelled with what the machine does there: the instruction bytes together with the
    relocations on it, or a call. The theorems: every step of the unfolded program is a step of the
    folded section with the same label, every run is therefore a run, and if no instruction of the
    unfolded program runs off its section, the folded section has no other steps.

    Instruction encodings are those of section 4.3 of RFC 9669; a call with source register 1 is
    relative to the next instruction (section 4.3.2). */
module EbpfSteps {
  import opened Bytes
  import opened ElfFormat
  import opened Relocations
  import opened TextFolding

  const EXIT: byte := 0x95
  const GOTO: byte := 0x05
  const GOTO_LONG: byte := 0x06
  const LOAD_WIDE: byte := 0x18

  // ---------------------------------------------------------------- the machine

  datatype Flow = Next | SkipTwo | Jump(d: int) | Branch(d: int) | LocalCall(d: int) | Return

  function Offset16(insn: seq<byte>): (d: int)
    requires |insn| == 8
  {
    var v: int := FromLE(insn[2..4]);
    if v < 0x8000 then v else v - 0x1_0000
  }

  /** Where control can go after an instruction; distances count from the next instruction. */
  function FlowOf(insn: seq<byte>): (f: Flow)
    requires |insn| == 8
  {
    var op := insn[0];
    if op == CALL then (if insn[1] / 16 == 1 then LocalCall(Imm(insn)) else Next)
    else if op == EXIT then Return
    else if op == GOTO then Jump(Offset16(insn))
    else if op == GOTO_LONG then Jump(Imm(insn))
    else if op % 8 == 5 || op % 8 == 6 then Branch(Offset16(insn))
    else if op == LOAD_WIDE then SkipTwo
    else Next
  }

  /** An instruction of the section's own code or of `.text`. */
  datatype Pos = Own(i: int) | Text(i: int) {
    function Plus(d: int): (p: Pos) { match this case Own(k) => Own(k + d) case Text(k) => Text(k + d) }
  }

  /** A code section linked with `.text`. A folded section is one whose `.text` is empty. */
  datatype Program = Program(own: Code, text: Code, l: Linkage) {
    function CodeOf(p: Pos): (c: Code) { if p.Own? then own else text }
  }

  predicate Valid(p: Program, at: Pos) {
    0 <= at.i && 8 * at.i + 8 <= |p.CodeOf(at).data|
  }

  /** The relocation that makes instruction `i` a call into `.text`. */
  function TextCallAt(rels: seq<Rel>, l: Linkage, i: int): (r: Option<Rel>) {
    if rels == [] then None
    else if IsTextCall(rels[0], l) && rels[0].offset == 8 * i then Some(rels[0])
    else TextCallAt(rels[1..], l, i)
  }

  /** The relocations on instruction `i`: place within it and what to resolve. */
  function RelsAt(rels: seq<Rel>, i: int): (r: seq<(int, u64)>) {
    if rels == [] then [] else OneAt(rels[0], i) + RelsAt(rels[1..], i)
  }

  function OneAt(rel: Rel, i: int): (r: seq<(int, u64)>) {
    if 8 * i <= rel.offset < 8 * i + 8 then [(rel.offset - 8 * i, rel.info)] else []
  }

  datatype Effect = Called | Did(insn: seq<byte>, rels: seq<(int, u64)>)

  datatype Config = Config(pc: Pos, stack: seq<Pos>)

  /** What an instruction does, with its possible successors. */
  datatype Action = CallTo(target: Pos) | GoTo(a: Pos, b: Pos) | PopFrame

  function ActionAt(p: Program, at: Pos): (a: Action)
    requires Valid(p, at)
  {
    var code := p.CodeOf(at);
    var insn := InsnAt(code.data, at.i);
    match TextCallAt(code.rels, p.l, at.i)
    case Some(rel) =>
      if rel.Sym() < |p.l.symbols| then CallTo(Text(TextInsn(Imm(insn), rel, p.l))) else PopFrame
    case None =>
      match FlowOf(insn)
      case Next => GoTo(at.Plus(1), at.Plus(1))
      case SkipTwo => GoTo(at.Plus(2), at.Plus(2))
      case Jump(d) => GoTo(at.Plus(1 + d), at.Plus(1 + d))
      case Branch(d) => GoTo(at.Plus(1), at.Plus(1 + d))
      case LocalCall(d) => CallTo(at.Plus(1 + d))
      case Return => PopFrame
  }

  function EffectAt(p: Program, at: Pos): (e: Effect)
    requires Valid(p, at)
  {
    if ActionAt(p, at).CallTo? then Called
    else Did(InsnAt(p.CodeOf(at).data, at.i), RelsAt(p.CodeOf(at).rels, at.i))
  }

  /** A legal step: every position it mentions is an instruction of the program. */
  predicate Step(p: Program, c: Config, e: Effect, c': Config) {
    && Valid(p, c.pc) && Valid(p, c'.pc)
    && e == EffectAt(p, c.pc)
    && Goes(p, ActionAt(p, c.pc), c, c')
  }

  /** Where an action leads. */
  predicate Goes(p: Program, action: Action, c: Config, c': Config) {
    match action
    case CallTo(target) => c'.pc == target && Valid(p, c.pc.Plus(1)) && c'.stack == [c.pc.Plus(1)] + c.stack
    case GoTo(a, b) => (c'.pc == a || c'.pc == b) && c'.stack == c.stack
    case PopFrame => c.stack != [] && c'.pc == c.stack[0] && c'.stack == c.stack[1..]
  }

  /** A run: `effects[k]` leads from `configs[k]` to `configs[k + 1]`. */
  predicate Run(p: Program, configs: seq<Config>, effects: seq<Effect>) {
    && |configs| == |effects| + 1
    && forall k :: 0 <= k < |effects| ==> Step(p, configs[k], effects[k], configs[k + 1])
  }

  // ---------------------------------------------------------------- the correspondence

  /** Where a position of the unfolded program is in the folded section. */
  function Moved(n: nat, at: Pos): (r: Pos) {
    match at case Own(i) => Own(i) case Text(j) => Own(n + j)
  }

  function MovedAll(n: nat, s: seq<Pos>): (r: seq<Pos>)
    ensures |r| == |s|
    ensures forall k :: 0 <= k < |r| ==> r[k] == Moved(n, s[k])
  {
    seq(|s|, k requires 0 <= k < |s| => Moved(n, s[k]))
  }

  function MovedConfig(n: nat, c: Config): (r: Config) {
    Config(Moved(n, c.pc), MovedAll(n, c.stack))
  }

  /** What the linker needs of the object: whole instructions, call relocations on call instructions
      and at most one each, the section's own relocations inside the section. */
  predicate WellFormed(p: Program) {
    && |p.own.data| % 8 == 0 && |p.text.data| % 8 == 0
    && CallsClean(p.own.data, p.own.rels) && CallsClean(p.text.data, p.text.rels)
    && forall k :: 0 <= k < |p.own.rels| ==> p.own.rels[k].offset < |p.own.data|
  }

  function FoldedProgram(p: Program): (r: Result<Program>) {
    match Folded(p.own, p.text, p.l)
    case Err => Err
    case Ok(code) => Ok(Program(code, Code([], []), p.l))
  }

  // ---------------------------------------------------------------- the rewritten bytes

  lemma SplicedInsn(data: seq<byte>, i: nat, insn: seq<byte>, k: nat)
    requires 8 * i + 8 <= |data| && |insn| == 8 && 8 * k + 8 <= |data|
    ensures var d := data[..8 * i] + insn + data[8 * i + 8..];
            |d| == |data| && InsnAt(d, k) == if k == i then insn else InsnAt(data, k)
  {
    var d := data[..8 * i] + insn + data[8 * i + 8..];
    if k < i {
      assert forall x :: 0 <= x < 8 * i ==> d[x] == data[x];
    } else if k > i {
      assert forall x :: 8 * i + 8 <= x < |d| ==> d[x] == data[x];
    }
  }

  /** Rewriting a call changes that instruction alone, and not its opcode. */
  lemma RewriteCallAt(data: seq<byte>, rel: Rel, l: Linkage, base: nat, k: nat)
    requires RewriteCall(data, rel, l, base).Ok? && OnCall(data, rel) && 8 * k + 8 <= |data|
    ensures var d := RewriteCall(data, rel, l, base).value;
            if rel.offset == 8 * k
            then && rel.Sym() < |l.symbols| && FitsI32(NewImm(InsnAt(data, k), k, rel, l, base))
                 && InsnAt(d, k) == PatchInsn(InsnAt(data, k), NewImm(InsnAt(data, k), k, rel, l, base))
            else InsnAt(d, k) == InsnAt(data, k)
    ensures InsnAt(RewriteCall(data, rel, l, base).value, k)[0] == InsnAt(data, k)[0]
  {
    hide LE, TextInsn, Imm;
    var i := rel.offset / 8;
    var insn := InsnAt(data, i);
    SplicedInsn(data, i, PatchInsn(insn, NewImm(insn, i, rel, l, base)), k);
  }

  lemma StaysOnCall(data: seq<byte>, rel: Rel, l: Linkage, base: nat, other: Rel)
    requires RewriteCall(data, rel, l, base).Ok? && OnCall(data, rel) && OnCall(data, other)
    ensures OnCall(RewriteCall(data, rel, l, base).value, other)
  {
    hide RewriteCall;
    var k := other.offset / 8;
    RewriteCallAt(data, rel, l, base, k);
    var d := RewriteCall(data, rel, l, base).value;
    assert d[other.offset] == InsnAt(d, k)[0] && data[other.offset] == InsnAt(data, k)[0];
  }

  lemma StaysClean(data: seq<byte>, rel: Rel, l: Linkage, base: nat, rels: seq<Rel>)
    requires RewriteCall(data, rel, l, base).Ok? && OnCall(data, rel) && CallsClean(data, rels)
    ensures CallsClean(RewriteCall(data, rel, l, base).value, rels)
  {
    hide RewriteCall, OnCall;
    forall i | 0 <= i < |rels| && rels[i].IsCall() ensures OnCall(RewriteCall(data, rel, l, base).value, rels[i]) {
      StaysOnCall(data, rel, l, base, rels[i]);
    }
  }

  lemma {:induction false} TextCallIsThere(rels: seq<Rel>, l: Linkage, i: int)
    ensures TextCallAt(rels, l, i).None? ==>
              forall k :: 0 <= k < |rels| && IsTextCall(rels[k], l) ==> rels[k].offset != 8 * i
    ensures TextCallAt(rels, l, i).Some? ==>
              TextCallAt(rels, l, i).value in rels && IsTextCall(TextCallAt(rels, l, i).value, l)
              && TextCallAt(rels, l, i).value.offset == 8 * i
  {
    hide IsTextCall;
    if rels != [] {
      TextCallIsThere(rels[1..], l, i);
      assert rels == [rels[0]] + rels[1..];
    }
  }

  /** The bytes of instruction `k` after all the calls have been rewritten. */
  ghost predicate RewrittenAt(data: seq<byte>, rels: seq<Rel>, l: Linkage, base: nat, d: seq<byte>, k: nat)
    requires 8 * k + 8 <= |data| && |d| == |data|
  {
    match TextCallAt(rels, l, k)
    case None => InsnAt(d, k) == InsnAt(data, k)
    case Some(rel) =>
      var insn := InsnAt(data, k);
      && rel.Sym() < |l.symbols|
      && FitsI32(NewImm(insn, k, rel, l, base))
      && InsnAt(d, k) == PatchInsn(insn, NewImm(insn, k, rel, l, base))
  }

  /** Rewriting calls leaves clean relocations clean. */
  lemma {:induction false} RewriteAllClean(data: seq<byte>, rels: seq<Rel>, l: Linkage, base: nat, others: seq<Rel>)
    requires CallsClean(data, rels) && CallsClean(data, others) && RewriteAll(data, rels, l, base).Ok?
    ensures CallsClean(RewriteAll(data, rels, l, base).value, others)
    decreases |rels|
  {
    hide RewriteCall, OnCall;
    if rels != [] {
      assert CleanTail(data, rels);
      if IsTextCall(rels[0], l) {
        hide IsTextCall;
        StaysClean(data, rels[0], l, base, rels[1..]);
        StaysClean(data, rels[0], l, base, others);
        RewriteAllClean(RewriteCall(data, rels[0], l, base).value, rels[1..], l, base, others);
      } else {
        RewriteAllClean(data, rels[1..], l, base, others);
      }
    }
  }

  predicate CleanTail(data: seq<byte>, rels: seq<Rel>) {
    rels != [] ==> CallsClean(data, rels[1..])
  }

  lemma {:induction false} RewriteAllAt(data: seq<byte>, rels: seq<Rel>, l: Linkage, base: nat, k: nat)
    requires CallsClean(data, rels) && RewriteAll(data, rels, l, base).Ok? && 8 * k + 8 <= |data|
    ensures RewrittenAt(data, rels, l, base, RewriteAll(data, rels, l, base).value, k)
    decreases |rels|
  {
    hide RewriteCall, OnCall, PatchInsn, NewImm, InsnAt;
    if rels != [] {
      var rel, rest := rels[0], rels[1..];
      assert CleanTail(data, rels);
      if !IsTextCall(rel, l) {
        RewriteAllAt(data, rest, l, base, k);
      } else {
        hide IsTextCall;
        StaysClean(data, rel, l, base, rest);
        RewriteAllAt(RewriteCall(data, rel, l, base).value, rest, l, base, k);
        RewriteCallAt(data, rel, l, base, k);
        if rel.offset == 8 * k {
          NoSecondCall(data, rels, l, k);
        }
      }
    }
  }

  /** With at most one call relocation per instruction, the tail has none where the head has one. */
  lemma NoSecondCall(data: seq<byte>, rels: seq<Rel>, l: Linkage, k: nat)
    requires CallsClean(data, rels) && rels != [] && IsTextCall(rels[0], l) && rels[0].offset == 8 * k
    ensures TextCallAt(rels[1..], l, k).None?
  {
    TextCallIsThere(rels[1..], l, k);
  }

  // ---------------------------------------------------------------- the relocations that stay

  lemma {:induction false} OthersFrom(rels: seq<Rel>, l: Linkage)
    ensures forall k :: 0 <= k < |Others(rels, l)| ==> Others(rels, l)[k] in rels && !IsTextCall(Others(rels, l)[k], l)
  {
    hide IsTextCall;
    if rels != [] {
      OthersFrom(rels[1..], l);
    }
  }

  lemma {:induction false} OthersClean(data: seq<byte>, rels: seq<Rel>, l: Linkage)
    requires CallsClean(data, rels)
    ensures CallsClean(data, Others(rels, l))
  {
    hide IsTextCall, OnCall;
    if rels != [] {
      assert CleanTail(data, rels);
      OthersClean(data, rels[1..], l);
      OthersFrom(rels[1..], l);
      var rest := Others(rels[1..], l);
      forall j | 0 <= j < |rest| && rels[0].IsCall() && rest[j].IsCall() ensures rest[j].offset != rels[0].offset {
        var m :| 0 <= m < |rels[1..]| && rels[1..][m] == rest[j];
        assert rels[m + 1] == rest[j];
      }
      forall i | 0 <= i < |rels| && rels[i].IsCall() ensures OnCall(data, rels[i]) {}
    }
  }

  lemma {:induction false} RelsAtAppend(a: seq<Rel>, b: seq<Rel>, i: int)
    ensures RelsAt(a + b, i) == RelsAt(a, i) + RelsAt(b, i)
  {
    hide OneAt;
    if a == [] {
      assert a + b == b;
    } else {
      RelsAtAppend(a[1..], b, i);
      assert (a + b)[1..] == a[1..] + b && (a + b)[0] == a[0];
      var head, mid, tail := OneAt(a[0], i), RelsAt(a[1..], i), RelsAt(b, i);
      assert RelsAt(a + b, i) == head + (mid + tail);
      assert head + (mid + tail) == (head + mid) + tail;
    }
  }

  /** On an instruction that is not a call into `.text` no relocation is lost. */
  lemma {:induction false} OthersRelsAt(rels: seq<Rel>, l: Linkage, i: int)
    requires forall k :: 0 <= k < |rels| && IsTextCall(rels[k], l) ==> OneAt(rels[k], i) == []
    ensures RelsAt(Others(rels, l), i) == RelsAt(rels, i)
  {
    hide IsTextCall, OneAt;
    if rels != [] {
      OthersRelsAt(rels[1..], l, i);
      if !IsTextCall(rels[0], l) {
        RelsAtAppend([rels[0]], Others(rels[1..], l), i);
      } else {
        assert Others(rels, l) == Others(rels[1..], l);
      }
    }
  }

  lemma NoTextCallHere(rels: seq<Rel>, l: Linkage, data: seq<byte>, i: int)
    requires TextCallAt(rels, l, i).None? && CallsClean(data, rels)
    ensures forall k :: 0 <= k < |rels| && IsTextCall(rels[k], l) ==> OneAt(rels[k], i) == []
  {
    TextCallIsThere(rels, l, i);
    forall k | 0 <= k < |rels| && IsTextCall(rels[k], l) ensures OneAt(rels[k], i) == [] {
      assert rels[k].IsCall() && OnCall(data, rels[k]);
    }
  }

  lemma {:induction false} TextCallAtAppend(a: seq<Rel>, b: seq<Rel>, l: Linkage, i: int)
    ensures TextCallAt(a + b, l, i) == if TextCallAt(a, l, i).Some? then TextCallAt(a, l, i) else TextCallAt(b, l, i)
  {
    hide IsTextCall;
    if a == [] {
      assert a + b == b;
    } else {
      TextCallAtAppend(a[1..], b, l, i);
      assert (a + b)[1..] == a[1..] + b;
    }
  }

  /** Relocations outside an instruction say nothing about it. */
  lemma {:induction false} ElsewhereAt(rels: seq<Rel>, l: Linkage, i: int)
    requires forall k :: 0 <= k < |rels| ==> rels[k].offset < 8 * i || 8 * i + 8 <= rels[k].offset
    ensures RelsAt(rels, i) == [] && TextCallAt(rels, l, i).None?
  {
    hide IsTextCall;
    if rels != [] {
      ElsewhereAt(rels[1..], l, i);
    }
  }

  /** Shifting by whole instructions shifts what is on them. */
  lemma {:induction false} ShiftRelsAt(rels: seq<Rel>, n: nat, j: int)
    requires Shiftable(rels, 8 * n)
    ensures RelsAt(Shift(rels, 8 * n), n + j) == RelsAt(rels, j)
  {
    if rels != [] {
      ShiftRelsAt(rels[1..], n, j);
      assert OneAt(Shift(rels, 8 * n)[0], n + j) == OneAt(rels[0], j);
      hide OneAt;
      assert Shift(rels, 8 * n)[1..] == Shift(rels[1..], 8 * n);
    }
  }

  lemma {:induction false} ShiftTextCallAt(rels: seq<Rel>, l: Linkage, n: nat, j: int)
    requires Shiftable(rels, 8 * n)
    ensures TextCallAt(Shift(rels, 8 * n), l, n + j).Some? == TextCallAt(rels, l, j).Some?
    ensures TextCallAt(rels, l, j).Some? ==>
              TextCallAt(Shift(rels, 8 * n), l, n + j).value.info == TextCallAt(rels, l, j).value.info
  {
    if rels != [] {
      ShiftTextCallAt(rels[1..], l, n, j);
      var moved := Shift(rels, 8 * n)[0];
      assert IsTextCall(moved, l) <==> IsTextCall(rels[0], l);
      hide IsTextCall;
      assert Shift(rels, 8 * n)[1..] == Shift(rels[1..], 8 * n);
    }
  }

  // ---------------------------------------------------------------- one instruction, before and after

  function Base(p: Program): (n: nat) { |p.own.data| / 8 }

  function AllRels(p: Program): (rels: seq<Rel>)
    requires Shiftable(p.text.rels, |p.own.data|)
  {
    p.own.rels + Shift(p.text.rels, |p.own.data|)
  }

  lemma OwnOnCall(p: Program, rel: Rel)
    requires OnCall(p.own.data, rel)
    ensures OnCall(p.own.data + p.text.data, rel)
  {
  }

  lemma ShiftedOnCall(p: Program, rel: Rel, moved: Rel)
    requires OnCall(p.text.data, rel) && |p.own.data| % 8 == 0
    requires moved.offset == rel.offset + |p.own.data|
    ensures OnCall(p.own.data + p.text.data, moved)
  {
    assert (p.own.data + p.text.data)[moved.offset] == p.text.data[rel.offset];
  }

  lemma AllRelsClean(p: Program)
    requires WellFormed(p) && Shiftable(p.text.rels, |p.own.data|)
    ensures CallsClean(p.own.data + p.text.data, AllRels(p))
  {
    var whole, a, b := p.own.data + p.text.data, p.own.rels, Shift(p.text.rels, |p.own.data|);
    var ab: seq<Rel> := a + b;
    forall i | 0 <= i < |ab| && ab[i].IsCall() ensures OnCall(whole, ab[i]) {
      if i < |a| {
        OwnOnCall(p, a[i]);
      } else {
        assert p.text.rels[i - |a|].IsCall();
        ShiftedOnCall(p, p.text.rels[i - |a|], b[i - |a|]);
      }
    }
    hide OnCall;
    forall i, j | 0 <= i < j < |ab| && ab[i].IsCall() && ab[j].IsCall()
      ensures ab[i].offset != ab[j].offset
    {
      if i >= |a| {
        assert p.text.rels[i - |a|].IsCall() && p.text.rels[j - |a|].IsCall();
      }
    }
  }

  lemma MovedInsn(p: Program, at: Pos)
    requires WellFormed(p) && Valid(p, at)
    ensures 0 <= Moved(Base(p), at).i && 8 * Moved(Base(p), at).i + 8 <= |p.own.data| + |p.text.data|
    ensures InsnAt(p.own.data + p.text.data, Moved(Base(p), at).i) == InsnAt(p.CodeOf(at).data, at.i)
  {
    hide CallsClean;
    var n, whole, code := Base(p), p.own.data + p.text.data, p.CodeOf(at).data;
    assert 8 * n == |p.own.data|;
    var m := Moved(n, at).i;
    forall x | 0 <= x < 8 ensures InsnAt(whole, m)[x] == InsnAt(code, at.i)[x] {
      assert InsnAt(whole, m)[x] == whole[8 * m + x] == code[8 * at.i + x];
    }
  }

  /** The relocations on an instruction, seen through the combined list. */
  lemma MovedRels(p: Program, at: Pos)
    requires WellFormed(p) && Valid(p, at) && Shiftable(p.text.rels, |p.own.data|)
    ensures var m := Moved(Base(p), at).i;
            && RelsAt(AllRels(p), m) == RelsAt(p.CodeOf(at).rels, at.i)
            && TextCallAt(AllRels(p), p.l, m).Some? == TextCallAt(p.CodeOf(at).rels, p.l, at.i).Some?
            && (TextCallAt(AllRels(p), p.l, m).Some? ==>
                  TextCallAt(AllRels(p), p.l, m).value.info == TextCallAt(p.CodeOf(at).rels, p.l, at.i).value.info)
  {
    hide CallsClean, RelsAt, TextCallAt;
    var n, m := Base(p), Moved(Base(p), at).i;
    assert 8 * n == |p.own.data|;
    var a, b := p.own.rels, Shift(p.text.rels, 8 * n);
    RelsAtAppend(a, b, m);
    TextCallAtAppend(a, b, p.l, m);
    if at.Own? {
      ElsewhereAt(b, p.l, m);
    } else {
      ElsewhereAt(a, p.l, m);
      ShiftRelsAt(p.text.rels, n, at.i);
      ShiftTextCallAt(p.text.rels, p.l, n, at.i);
    }
  }

  /** A rewritten call is a pc-relative call by the new immediate. */
  lemma PatchedFlow(insn: seq<byte>, imm: int)
    requires |insn| == 8 && insn[0] == CALL && FitsI32(imm)
    ensures FlowOf(PatchInsn(insn, imm)) == LocalCall(imm)
  {
    hide LE, U32;
    var r := PatchInsn(insn, imm);
    assert r[4..8] == LE(4, Unsigned32(imm));
    U32OfLE(Unsigned32(imm));
  }

  /** What folding did to the relocations: those that stay are exactly the others, and none of them
      is a call into `.text`. */
  lemma KeptRels(p: Program)
    requires WellFormed(p) && Folded(p.own, p.text, p.l).Ok?
    ensures Folded(p.own, p.text, p.l).value.rels == Others(AllRels(p), p.l)
  {
    hide CallsClean, RewriteAll, Others, Pruned, ValidCalls;
    var whole, all := p.own.data + p.text.data, AllRels(p);
    var data := Folded(p.own, p.text, p.l).value.data;
    AllRelsClean(p);
    RewriteAllClean(whole, all, p.l, Base(p), all);
    OthersClean(data, all, p.l);
    var kept := Others(all, p.l);
    CleanIsUnchanged(data, kept, |kept|);
    assert kept[..|kept|] == kept;
  }

  lemma NoneLeft(rels: seq<Rel>, l: Linkage, i: int)
    ensures TextCallAt(Others(rels, l), l, i).None?
  {
    OthersFrom(rels, l);
    TextCallIsThere(Others(rels, l), l, i);
  }

  function MovedAction(n: nat, a: Action): (r: Action) {
    match a
    case CallTo(t) => CallTo(Moved(n, t))
    case GoTo(x, y) => GoTo(Moved(n, x), Moved(n, y))
    case PopFrame => PopFrame
  }

  /** The opcode under a call relocation. */
  lemma CallUnderReloc(code: Code, l: Linkage, i: int)
    requires 0 <= i && 8 * i + 8 <= |code.data| && CallsClean(code.data, code.rels) && TextCallAt(code.rels, l, i).Some?
    ensures InsnAt(code.data, i)[0] == CALL
    ensures TextCallAt(code.rels, l, i).value.Sym() < |l.symbols|
  {
    TextCallIsThere(code.rels, l, i);
    var rel := TextCallAt(code.rels, l, i).value;
    assert rel.IsCall();
    assert OnCall(code.data, rel);
  }

  /** An instruction that is not a call into `.text` keeps its bytes and its relocations. */
  lemma PlainInsnKept(p: Program, at: Pos)
    requires WellFormed(p) && Folded(p.own, p.text, p.l).Ok? && Valid(p, at)
    requires TextCallAt(p.CodeOf(at).rels, p.l, at.i).None?
    ensures var q, m := Folded(p.own, p.text, p.l).value, Moved(Base(p), at).i;
            && 0 <= m && 8 * m + 8 <= |q.data|
            && InsnAt(q.data, m) == InsnAt(p.CodeOf(at).data, at.i)
            && RelsAt(q.rels, m) == RelsAt(p.CodeOf(at).rels, at.i)
            && TextCallAt(q.rels, p.l, m).None?
  {
    hide CallsClean, RewriteAll, Others, Pruned, ValidCalls, RelsAt, TextCallAt, InsnAt;
    var whole, all, m := p.own.data + p.text.data, AllRels(p), Moved(Base(p), at).i;
    MovedInsn(p, at);
    MovedRels(p, at);
    AllRelsClean(p);
    RewriteAllAt(whole, all, p.l, Base(p), m);
    KeptRels(p);
    NoneLeft(all, p.l, m);
    NoTextCallHere(all, p.l, whole, m);
    OthersRelsAt(all, p.l, m);
  }

  /** A call into `.text` becomes a pc-relative call to the moved function. */
  lemma CallRewritten(p: Program, at: Pos)
    requires WellFormed(p) && Folded(p.own, p.text, p.l).Ok? && Valid(p, at)
    requires TextCallAt(p.CodeOf(at).rels, p.l, at.i).Some?
    ensures var q, m := Folded(p.own, p.text, p.l).value, Moved(Base(p), at).i;
            var rel := TextCallAt(p.CodeOf(at).rels, p.l, at.i).value;
            && rel.Sym() < |p.l.symbols| && 0 <= m && 8 * m + 8 <= |q.data|
            && FlowOf(InsnAt(q.data, m))
                 == LocalCall(Base(p) + TextInsn(Imm(InsnAt(p.CodeOf(at).data, at.i)), rel, p.l) - m - 1)
            && TextCallAt(q.rels, p.l, m).None?
  {
    hide CallsClean, RewriteAll, Others, Pruned, ValidCalls, RelsAt, TextCallAt, InsnAt, FlowOf, PatchInsn, Imm;
    var whole, all, m := p.own.data + p.text.data, AllRels(p), Moved(Base(p), at).i;
    MovedInsn(p, at);
    MovedRels(p, at);
    AllRelsClean(p);
    RewriteAllAt(whole, all, p.l, Base(p), m);
    KeptRels(p);
    NoneLeft(all, p.l, m);
    CallUnderReloc(p.CodeOf(at), p.l, at.i);
    var insn := InsnAt(whole, m);
    PatchedFlow(insn, NewImm(insn, m, TextCallAt(all, p.l, m).value, p.l, Base(p)));
  }

  /** Every instruction does the same, at the moved place. */
  lemma SameAction(p: Program, at: Pos)
    requires WellFormed(p) && FoldedProgram(p).Ok? && Valid(p, at)
    ensures var q, m := FoldedProgram(p).value, Moved(Base(p), at);
            && Valid(q, m)
            && ActionAt(q, m) == MovedAction(Base(p), ActionAt(p, at))
            && EffectAt(q, m) == EffectAt(p, at)
  {
    hide WellFormed, Folded, InsnAt, FlowOf, Imm, TextInsn, RelsAt, TextCallAt, Base;
    if TextCallAt(p.CodeOf(at).rels, p.l, at.i).Some? {
      CallRewritten(p, at);
    } else {
      PlainInsnKept(p, at);
    }
  }

  // ---------------------------------------------------------------- the theorems

  lemma MovedValid(p: Program, at: Pos)
    requires WellFormed(p) && FoldedProgram(p).Ok?
    ensures Valid(p, at) ==> Valid(FoldedProgram(p).value, Moved(Base(p), at))
  {
    if Valid(p, at) { SameAction(p, at); }
  }

  /** Every step of the unfolded program is a step of the folded section, with the same effect. */
  lemma StepsArePreserved(p: Program, c: Config, e: Effect, c': Config)
    requires WellFormed(p) && FoldedProgram(p).Ok? && Step(p, c, e, c')
    ensures Step(FoldedProgram(p).value, MovedConfig(Base(p), c), e, MovedConfig(Base(p), c'))
  {
    hide WellFormed, FoldedProgram, ActionAt, EffectAt, Valid, Base;
    SameAction(p, c.pc);
    MovedValid(p, c'.pc);
    MovedValid(p, c.pc.Plus(1));
    var n := Base(p);
    match ActionAt(p, c.pc)
    case CallTo(target) => MovedPush(n, c.pc.Plus(1), c.stack);
    case GoTo(a, b) =>
    case PopFrame => MovedPop(n, c.stack);
  }

  function MovedConfigs(n: nat, cs: seq<Config>): (r: seq<Config>)
    ensures |r| == |cs|
    ensures forall k :: 0 <= k < |r| ==> r[k] == MovedConfig(n, cs[k])
  {
    seq(|cs|, k requires 0 <= k < |cs| => MovedConfig(n, cs[k]))
  }

  /** Every run of the unfolded program is a run of the folded section. */
  lemma RunsArePreserved(p: Program, configs: seq<Config>, effects: seq<Effect>)
    requires WellFormed(p) && FoldedProgram(p).Ok? && Run(p, configs, effects)
    ensures Run(FoldedProgram(p).value, MovedConfigs(Base(p), configs), effects)
  {
    hide WellFormed, FoldedProgram, Step, Base, MovedConfig;
    forall k | 0 <= k < |effects|
      ensures var moved := MovedConfigs(Base(p), configs);
              Step(FoldedProgram(p).value, moved[k], effects[k], moved[k + 1])
    {
      StepsArePreserved(p, configs[k], effects[k], configs[k + 1]);
    }
  }

  /** No instruction runs off the section it is in. */
  ghost predicate Closed(p: Program) {
    forall at: Pos :: Valid(p, at) ==> StaysInside(p, at)
  }

  predicate StaysInside(p: Program, at: Pos)
    requires Valid(p, at)
  {
    match ActionAt(p, at)
    case CallTo(t) => Valid(p, t) && Valid(p, at.Plus(1))
    case GoTo(a, b) => Valid(p, a) && Valid(p, b)
    case PopFrame => true
  }

  predicate ValidStack(p: Program, stack: seq<Pos>) {
    forall k :: 0 <= k < |stack| ==> Valid(p, stack[k])
  }

  predicate ValidConfig(p: Program, c: Config) {
    Valid(p, c.pc) && ValidStack(p, c.stack)
  }

  lemma ValidPush(p: Program, at: Pos, stack: seq<Pos>)
    requires Valid(p, at) && ValidStack(p, stack)
    ensures ValidStack(p, [at] + stack)
  {
  }

  lemma ValidPop(p: Program, stack: seq<Pos>)
    requires stack != [] && ValidStack(p, stack)
    ensures Valid(p, stack[0]) && ValidStack(p, stack[1..])
  {
  }

  /** If nothing runs off its section, the folded section has no further steps. */
  lemma NoOtherSteps(p: Program, c: Config, e: Effect, d: Config) returns (c': Config)
    requires WellFormed(p) && FoldedProgram(p).Ok? && Closed(p) && ValidConfig(p, c)
    requires Step(FoldedProgram(p).value, MovedConfig(Base(p), c), e, d)
    ensures Step(p, c, e, c') && ValidConfig(p, c') && MovedConfig(Base(p), c') == d
  {
    hide WellFormed, FoldedProgram, ActionAt, EffectAt, Valid, Base, Closed, ValidStack;
    ClosedHere(p, c.pc);
    var n := Base(p);
    SameAction(p, c.pc);
    match ActionAt(p, c.pc)
    case CallTo(target) =>
      c' := Config(target, [c.pc.Plus(1)] + c.stack);
      MovedPush(n, c.pc.Plus(1), c.stack);
      ValidPush(p, c.pc.Plus(1), c.stack);
    case GoTo(a, b) =>
      c' := Config(if d.pc == Moved(n, a) then a else b, c.stack);
    case PopFrame =>
      c' := Config(c.stack[0], c.stack[1..]);
      MovedPop(n, c.stack);
      ValidPop(p, c.stack);
  }

  lemma ClosedHere(p: Program, at: Pos)
    requires Closed(p) && Valid(p, at)
    ensures StaysInside(p, at)
  {
    hide StaysInside, Valid;
  }

  lemma MovedPush(n: nat, at: Pos, stack: seq<Pos>)
    ensures MovedAll(n, [at] + stack) == [Moved(n, at)] + MovedAll(n, stack)
  {
  }

  lemma MovedPop(n: nat, stack: seq<Pos>)
    requires stack != []
    ensures MovedAll(n, stack[1..]) == MovedAll(n, stack)[1..]
  {
  }

  /** Every run of the folded section from a place the unfolded program knows is one of its runs. */
  lemma {:induction false} NoOtherRuns(p: Program, c: Config, ds: seq<Config>, effects: seq<Effect>)
    returns (cs: seq<Config>)
    requires WellFormed(p) && FoldedProgram(p).Ok? && Closed(p) && ValidConfig(p, c)
    requires Run(FoldedProgram(p).value, ds, effects) && ds[0] == MovedConfig(Base(p), c)
    ensures Run(p, cs, effects) && cs[0] == c && MovedConfigs(Base(p), cs) == ds
    decreases |effects|
  {
    hide WellFormed, FoldedProgram, Step, Base, Closed, ValidConfig, MovedConfig;
    if effects == [] {
      cs := [c];
    } else {
      assert Step(FoldedProgram(p).value, ds[0], effects[0], ds[1]);
      var c' := NoOtherSteps(p, c, effects[0], ds[1]);
      RunTail(FoldedProgram(p).value, ds, effects);
      hide Run;
      var rest := NoOtherRuns(p, c', ds[1..], effects[1..]);
      RunCons(p, c, effects[0], rest, effects[1..]);
      cs := [c] + rest;
      assert effects == [effects[0]] + effects[1..];
      MovedConfigsCons(Base(p), c, rest);
      assert ds == [ds[0]] + ds[1..];
    }
  }

  lemma MovedConfigsCons(n: nat, c: Config, cs: seq<Config>)
    ensures MovedConfigs(n, [c] + cs) == [MovedConfig(n, c)] + MovedConfigs(n, cs)
  {
    hide MovedConfig;
  }

  lemma RunTail(p: Program, cs: seq<Config>, es: seq<Effect>)
    requires Run(p, cs, es) && es != []
    ensures Run(p, cs[1..], es[1..])
  {
    hide Step;
    forall k | 0 <= k < |es[1..]| ensures Step(p, cs[1..][k], es[1..][k], cs[1..][k + 1]) {
      assert Step(p, cs[k + 1], es[k + 1], cs[k + 2]);
    }
  }

  lemma RunCons(p: Program, c: Config, e: Effect, cs: seq<Config>, es: seq<Effect>)
    requires Run(p, cs, es) && Step(p, c, e, cs[0])
    ensures Run(p, [c] + cs, [e] + es)
  {
    hide Step;
    forall k | 0 <= k < |es| + 1 ensures Step(p, ([c] + cs)[k], ([e] + es)[k], ([c] + cs)[k + 1]) {
      if k > 0 { assert Step(p, cs[k - 1], es[k - 1], cs[k]); }
    }
  }

  // ---------------------------------------------------------------- what the linker would have done

  /** The function a call relocation means to a linker, by the rule symbol plus addend: the symbol's place
      in `.text`, and the addend that the instruction's immediate holds, counted from the next
      instruction. */
  function LinkedInsn(imm: int, rel: Rel, l: Linkage): (j: int)
    requires rel.Sym() < |l.symbols|
  {
    l.symbols[rel.Sym()].value / 8 + imm + 1
  }

  /** A call with a symbol of its own has no addend, and a call through the section's symbol has its
      place in the addend alone. */
  predicate Conventional(imm: int, rel: Rel, l: Linkage)
    requires rel.Sym() < |l.symbols|
  {
    var sym := l.symbols[rel.Sym()];
    if sym.shndx == l.textIdx && sym.value != 0 then imm == -1 else sym.value < 8
  }

  /** The rewriter takes a call for what the linker would exactly when the call is conventional. */
  lemma LinkedIff(imm: int, rel: Rel, l: Linkage)
    requires rel.Sym() < |l.symbols|
    ensures TextInsn(imm, rel, l) == LinkedInsn(imm, rel, l) <==> Conventional(imm, rel, l)
    ensures l.symbols[rel.Sym()].shndx == l.textIdx && l.symbols[rel.Sym()].value % 8 == 0 ==>
              (Conventional(imm, rel, l) <==> l.symbols[rel.Sym()].value == 0 || imm == -1)
  {
    var v := l.symbols[rel.Sym()].value;
    assert v / 8 == 0 <==> v < 8;
  }

  /** The linker's reading of an instruction. */
  function LinkedActionAt(p: Program, at: Pos): (a: Action)
    requires Valid(p, at)
  {
    match TextCallAt(p.CodeOf(at).rels, p.l, at.i)
    case Some(rel) =>
      var imm := Imm(InsnAt(p.CodeOf(at).data, at.i));
      if rel.Sym() < |p.l.symbols| then CallTo(Text(LinkedInsn(imm, rel, p.l))) else PopFrame
    case None => ActionAt(p, at)
  }

  predicate LinkedStep(p: Program, c: Config, e: Effect, c': Config) {
    && Valid(p, c.pc) && Valid(p, c'.pc)
    && e == EffectAt(p, c.pc)
    && Goes(p, LinkedActionAt(p, c.pc), c, c')
  }

  predicate LinkedRun(p: Program, configs: seq<Config>, effects: seq<Effect>) {
    && |configs| == |effects| + 1
    && forall k :: 0 <= k < |effects| ==> LinkedStep(p, configs[k], effects[k], configs[k + 1])
  }

  ghost predicate AllConventional(p: Program) {
    forall at: Pos :: Valid(p, at) ==> ConventionalAt(p, at)
  }

  predicate ConventionalAt(p: Program, at: Pos)
    requires Valid(p, at)
  {
    match TextCallAt(p.CodeOf(at).rels, p.l, at.i)
    case Some(rel) => rel.Sym() < |p.l.symbols| ==> Conventional(Imm(InsnAt(p.CodeOf(at).data, at.i)), rel, p.l)
    case None => true
  }

  lemma LinkedHere(p: Program, at: Pos)
    requires Valid(p, at)
    ensures LinkedActionAt(p, at) == ActionAt(p, at) <==> ConventionalAt(p, at)
  {
    hide InsnAt, TextCallAt, Imm, FlowOf;
    match TextCallAt(p.CodeOf(at).rels, p.l, at.i)
    case Some(rel) =>
      if rel.Sym() < |p.l.symbols| { LinkedIff(Imm(InsnAt(p.CodeOf(at).data, at.i)), rel, p.l); }
    case None =>
  }

  /** Folding preserves the program as a linker would have linked it: every run of it, under the
      linker's reading of each call, is a run of the folded section, if its calls are conventional. */
  lemma LinkedRunsArePreserved(p: Program, configs: seq<Config>, effects: seq<Effect>)
    requires WellFormed(p) && FoldedProgram(p).Ok? && AllConventional(p) && LinkedRun(p, configs, effects)
    ensures Run(FoldedProgram(p).value, MovedConfigs(Base(p), configs), effects)
  {
    forall k | 0 <= k < |effects|
      ensures Step(p, configs[k], effects[k], configs[k + 1])
    {
      assert LinkedStep(p, configs[k], effects[k], configs[k + 1]);
      LinkedHere(p, configs[k].pc);
      hide ActionAt, LinkedActionAt, EffectAt, ConventionalAt;
    }
    hide Step, FoldedProgram, WellFormed, AllConventional, LinkedStep;
    RunsArePreserved(p, configs, effects);
  }

  /** And the folded section has no other runs, if besides nothing runs off its section. */
  lemma LinkedNoOtherRuns(p: Program, c: Config, ds: seq<Config>, effects: seq<Effect>)
    returns (cs: seq<Config>)
    requires WellFormed(p) && FoldedProgram(p).Ok? && AllConventional(p) && Closed(p) && ValidConfig(p, c)
    requires Run(FoldedProgram(p).value, ds, effects) && ds[0] == MovedConfig(Base(p), c)
    ensures LinkedRun(p, cs, effects) && cs[0] == c && MovedConfigs(Base(p), cs) == ds
  {
    hide FoldedProgram, WellFormed, Closed, ValidConfig, Base, MovedConfig;
    cs := NoOtherRuns(p, c, ds, effects);
    forall k | 0 <= k < |effects|
      ensures LinkedStep(p, cs[k], effects[k], cs[k + 1])
    {
      assert Step(p, cs[k], effects[k], cs[k + 1]);
      LinkedHere(p, cs[k].pc);
      hide ActionAt, LinkedActionAt, EffectAt, ConventionalAt;
    }
  }

  // ---------------------------------------------------------------- when folding succeeds

  /** The distance of a relocated call to its function in the copy fits an immediate. */
  predicate Fits(data: seq<byte>, rel: Rel, l: Linkage, base: nat) {
    && OnCall(data, rel) && rel.Sym() < |l.symbols|
    && FitsI32(NewImm(InsnAt(data, rel.offset / 8), rel.offset / 8, rel, l, base))
  }

  predicate AllFit(data: seq<byte>, rels: seq<Rel>, l: Linkage, base: nat) {
    forall k :: 0 <= k < |rels| && IsTextCall(rels[k], l) ==> Fits(data, rels[k], l, base)
  }

  /** Rewriting one call does not change whether another fits. */
  lemma FitsElsewhere(data: seq<byte>, rel: Rel, other: Rel, l: Linkage, base: nat)
    requires RewriteCall(data, rel, l, base).Ok? && OnCall(data, rel)
    requires OnCall(data, other) && rel.offset != other.offset
    ensures Fits(RewriteCall(data, rel, l, base).value, other, l, base) <==> Fits(data, other, l, base)
  {
    hide RewriteCall, NewImm, InsnAt;
    RewriteCallAt(data, rel, l, base, other.offset / 8);
    StaysOnCall(data, rel, l, base, other);
  }

  lemma AllFitElsewhere(data: seq<byte>, rels: seq<Rel>, l: Linkage, base: nat)
    requires rels != [] && CallsClean(data, rels) && IsTextCall(rels[0], l) && RewriteCall(data, rels[0], l, base).Ok?
    ensures AllFit(RewriteCall(data, rels[0], l, base).value, rels[1..], l, base) <==> AllFit(data, rels[1..], l, base)
  {
    hide RewriteCall, Fits, OnCall;
    forall k | 0 <= k < |rels[1..]| && IsTextCall(rels[1..][k], l)
      ensures Fits(RewriteCall(data, rels[0], l, base).value, rels[1..][k], l, base) <==>
              Fits(data, rels[1..][k], l, base)
    {
      assert rels[1..][k] == rels[k + 1] && rels[0].IsCall();
      FitsElsewhere(data, rels[0], rels[k + 1], l, base);
    }
  }

  lemma RewriteOkIff(data: seq<byte>, rel: Rel, l: Linkage, base: nat)
    requires OnCall(data, rel)
    ensures RewriteCall(data, rel, l, base).Ok? <==> Fits(data, rel, l, base)
  {
    hide NewImm, InsnAt, PatchInsn;
  }

  lemma {:induction false} RewriteAllOkIff(data: seq<byte>, rels: seq<Rel>, l: Linkage, base: nat)
    requires CallsClean(data, rels)
    ensures RewriteAll(data, rels, l, base).Ok? <==> AllFit(data, rels, l, base)
    decreases |rels|
  {
    if rels != [] {
      var tail := rels[1..];
      assert CallsClean(data, tail) && (rels[0].IsCall() ==> OnCall(data, rels[0]));
      AllFitCons(data, rels, l, base);
      hide RewriteCall, Fits, OnCall, CallsClean, AllFit;
      if IsTextCall(rels[0], l) {
        RewriteOkIff(data, rels[0], l, base);
        if RewriteCall(data, rels[0], l, base).Ok? {
          StaysClean(data, rels[0], l, base, tail);
          AllFitElsewhere(data, rels, l, base);
          RewriteAllOkIff(RewriteCall(data, rels[0], l, base).value, tail, l, base);
        }
      } else {
        RewriteAllOkIff(data, tail, l, base);
      }
    }
  }

  lemma AllFitCons(data: seq<byte>, rels: seq<Rel>, l: Linkage, base: nat)
    requires rels != []
    ensures AllFit(data, rels, l, base) <==>
            (IsTextCall(rels[0], l) ==> Fits(data, rels[0], l, base)) && AllFit(data, rels[1..], l, base)
  {
    hide Fits, IsTextCall;
    assert forall k :: 0 < k < |rels| ==> rels[k] == rels[1..][k - 1];
  }

  /** Folding a well-formed program fails only for want of room: it succeeds exactly when the moved
      relocation offsets fit 64 bits and every rewritten call's distance fits 32. */
  lemma FoldSucceedsIff(p: Program)
    requires WellFormed(p)
    ensures FoldedProgram(p).Ok? <==>
            Shiftable(p.text.rels, |p.own.data|) && AllFit(p.own.data + p.text.data, AllRels(p), p.l, Base(p))
  {
    hide CallsClean, RewriteAll, Others, Pruned, ValidCalls, AllFit;
    if Shiftable(p.text.rels, |p.own.data|) {
      var whole, all := p.own.data + p.text.data, AllRels(p);
      AllRelsClean(p);
      RewriteAllOkIff(whole, all, p.l, Base(p));
      if RewriteAll(whole, all, p.l, Base(p)).Ok? {
        var data := RewriteAll(whole, all, p.l, Base(p)).value;
        RewriteAllClean(whole, all, p.l, Base(p), all);
        OthersClean(data, all, p.l);
        CleanIsValid(data, Others(all, p.l));
      }
    }
  }

  lemma CleanIsValid(data: seq<byte>, rels: seq<Rel>)
    requires CallsClean(data, rels)
    ensures ValidCalls(data, rels)
  {
  }

  const CALL_INSN: seq<byte> := [CALL, 0, 0, 0, 255, 255, 255, 255]
  const EXIT_INSN: seq<byte> := [EXIT, 0, 0, 0, 0, 0, 0, 0]

  /** A program that calls the second function of `.text` and ends, with any string table. */
  function Caller(strtab: seq<byte>): (p: Program) {
    Program(Code(CALL_INSN + EXIT_INSN, [Rel(0, R_BPF_64_32)]), Code(EXIT_INSN + EXIT_INSN, []),
            Linkage([Symbol(0, 1, 8)], strtab, 1))
  }

  lemma CallerCalls(strtab: seq<byte>)
    ensures var p := Caller(strtab);
            && IsTextCall(p.own.rels[0], p.l) && p.own.rels[0].Sym() == 0
            && TextCallAt(p.own.rels, p.l, 0) == Some(p.own.rels[0]) && TextCallAt(p.own.rels, p.l, 1).None?
  {
  }

  lemma CallerConventional(strtab: seq<byte>)
    ensures AllConventional(Caller(strtab))
  {
    CallerCalls(strtab);
    CallImm();
    var p := Caller(strtab);
    hide InsnAt, IsTextCall, Imm;
    forall at: Pos | Valid(p, at)
      ensures ConventionalAt(p, at)
    {
      CallerInsns(strtab, at);
    }
  }

  lemma CallImm()
    ensures Imm(CALL_INSN) == -1
  {
    var field: seq<byte> := [255, 255, 255, 255];
    assert CALL_INSN[4..8] == field;
    assert field[1..] == [255, 255, 255] && field[1..][1..] == [255, 255] && field[1..][1..][1..] == [255];
    assert FromLE([255]) == 255 && FromLE([255, 255]) == 65535 && FromLE([255, 255, 255]) == 16777215;
  }

  /** A call of a function of its own with an addend, which the rewriter ignores. */
  lemma AddendExample()
    ensures var rel, l := Rel(0, R_BPF_64_32), Linkage([Symbol(0, 1, 8)], [], 1);
            rel.Sym() == 0 && IsTextCall(rel, l) && TextInsn(0, rel, l) == 1 && LinkedInsn(0, rel, l) == 2
  {
  }

  lemma CallerWellFormed(strtab: seq<byte>)
    ensures WellFormed(Caller(strtab))
  {
  }

  lemma CallerInsns(strtab: seq<byte>, at: Pos)
    requires Valid(Caller(strtab), at)
    ensures at == Own(0) || at == Own(1) || at == Text(0) || at == Text(1)
    ensures InsnAt(Caller(strtab).CodeOf(at).data, at.i) == if at == Own(0) then CALL_INSN else EXIT_INSN
  {
  }

  lemma CallerClosed(strtab: seq<byte>)
    ensures Closed(Caller(strtab)) && ActionAt(Caller(strtab), Own(0)) == CallTo(Text(1))
  {
    CallerCalls(strtab);
    var p := Caller(strtab);
    hide InsnAt, IsTextCall, Imm;
    CallerInsns(strtab, Own(0));
    forall at: Pos | Valid(p, at)
      ensures StaysInside(p, at)
    {
      CallerInsns(strtab, at);
      assert at != Own(0) ==> TextCallAt(p.CodeOf(at).rels, p.l, at.i).None?;
    }
  }

  /** The theorems are about something: this program can be folded, has a call into `.text`, and runs
      off neither of its sections. */
  lemma CallerFolds(strtab: seq<byte>)
    ensures var p := Caller(strtab); WellFormed(p) && FoldedProgram(p).Ok? && Closed(p) && AllConventional(p)
  {
    CallerWellFormed(strtab);
    CallerConventional(strtab);
    CallerClosed(strtab);
    CallerCalls(strtab);
    var p := Caller(strtab);
    FoldSucceedsIff(p);
    hide FoldedProgram, WellFormed, Closed, IsTextCall, AllConventional;
    assert Shift(p.text.rels, |p.own.data|) == [];
    assert AllRels(p) == p.own.rels;
    assert OnCall(p.own.data + p.text.data, p.own.rels[0]);
    hide InsnAt, Imm;
  }
}
