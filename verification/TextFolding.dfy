/** Folding `.text` into a code section (`src/tinycc.rs`): the section gets a copy of `.text` behind
    its own code, and every call the linker would have pointed into `.text` becomes a pc-relative
    call into the copy. This module has the transformation; EbpfSteps proves what it preserves. */
module TextFolding {
  import opened Bytes
  import opened Text
  import opened ElfFormat
  import opened Relocations

  datatype Symbol = Symbol(nameOffset: u32, shndx: nat, value: u64)

  /** What a relocation is resolved against. */
  datatype Linkage = Linkage(symbols: seq<Symbol>, strtab: seq<byte>, textIdx: nat)

  const DOT_TEXT: seq<byte> := Ascii(".text")

  /** The relocation is a call of a function in `.text`. */
  predicate IsTextCall(rel: Rel, l: Linkage) {
    && rel.IsCall()
    && rel.Sym() < |l.symbols|
    && var sym := l.symbols[rel.Sym()];
       sym.shndx == l.textIdx || CStr(l.strtab, sym.nameOffset) == Some(DOT_TEXT)
  }

  /** Byte by byte: type 10, and a symbol that is defined in `.text` or has that name. */
  lemma TextCallIff(rel: Rel, l: Linkage)
    ensures IsTextCall(rel, l) <==>
            && rel.info % 0x1_0000_0000 == 10 && rel.info / 0x1_0000_0000 < |l.symbols|
            && var sym := l.symbols[rel.info / 0x1_0000_0000];
               sym.shndx == l.textIdx || Spelled(l.strtab, sym.nameOffset, [46, 116, 101, 120, 116])
  {
    if rel.Sym() < |l.symbols| {
      var name := [46, 116, 101, 120, 116];
      assert DOT_TEXT == name;
      CStrIff(l.strtab, l.symbols[rel.Sym()].nameOffset, name);
      assert IsUtf8(name) by { AsciiIsUtf8(name); }
      hide CStr, IsUtf8;
    }
  }

  function Signed32(v: nat): (r: int) {
    if v < 0x8000_0000 then v else v - 0x1_0000_0000
  }

  predicate FitsI32(v: int) { -0x8000_0000 <= v < 0x8000_0000 }

  function Unsigned32(v: int): (r: nat)
    requires FitsI32(v)
    ensures r < 0x1_0000_0000
  {
    if v >= 0 then v else v + 0x1_0000_0000
  }

  /** The immediate field of an eight-byte instruction. */
  function Imm(insn: seq<byte>): (r: int)
    requires |insn| == 8
  {
    Signed32(U32(insn[4..8]))
  }

  function InsnAt(data: seq<byte>, i: nat): (insn: seq<byte>)
    requires 8 * i + 8 <= |data|
    ensures |insn| == 8
  {
    data[8 * i..8 * i + 8]
  }

  /** The index in `.text` of the function a relocated call means: the symbol's own place, or, for a
      symbol that only names the section, the place in the instruction's immediate. */
  function TextInsn(imm: int, rel: Rel, l: Linkage): (j: int)
    requires rel.Sym() < |l.symbols|
  {
    var sym := l.symbols[rel.Sym()];
    if sym.shndx == l.textIdx && sym.value != 0 then sym.value / 8 else imm + 1
  }

  /** A call made pc-relative: source register 1, a new immediate, everything else kept. */
  function PatchInsn(insn: seq<byte>, imm: int): (r: seq<byte>)
    requires |insn| == 8 && FitsI32(imm)
    ensures |r| == 8
  {
    [insn[0], insn[1] % 16 + 16, insn[2], insn[3]] + LE(4, Unsigned32(imm))
  }

  /** The new immediate of the call at instruction `i` once `.text` starts at instruction `base`. */
  function NewImm(insn: seq<byte>, i: nat, rel: Rel, l: Linkage, base: nat): (imm: int)
    requires |insn| == 8 && rel.Sym() < |l.symbols|
  {
    base + TextInsn(Imm(insn), rel, l) - i - 1
  }

  function RewriteCall(data: seq<byte>, rel: Rel, l: Linkage, base: nat): (r: Result<seq<byte>>)
    ensures r.Ok? ==> |r.value| == |data|
  {
    if !ValidSite(data, rel) then Err
    else if data[rel.offset] != CALL then Ok(data)
    else if rel.Sym() >= |l.symbols| then Err
    else
      var i := rel.offset / 8;
      var insn := InsnAt(data, i);
      var imm := NewImm(insn, i, rel, l, base);
      if !FitsI32(imm) then Err
      else Ok(data[..8 * i] + PatchInsn(insn, imm) + data[8 * i + 8..])
  }

  /** Patches one call in place. */
  method RewriteLocalCall(target: array<byte>, rel: Rel, l: Linkage, originalLen: nat) returns (ok: bool)
    modifies target
    ensures match RewriteCall(old(target[..]), rel, l, originalLen / 8)
            case Ok(data) => ok && target[..] == data
            case Err => !ok && target[..] == old(target[..])
  {
    hide LE, TextInsn;
    ghost var before := target[..];
    var at := rel.offset;
    if at + 8 > target.Length || at % 8 != 0 {
      return false;
    }
    if target[at] != CALL {
      return true;
    }
    if rel.Sym() >= |l.symbols| {
      return false;
    }
    var oldImm := Signed32(U32(target[at + 4..at + 8]));
    assert target[at + 4..at + 8] == InsnAt(before, at / 8)[4..8];
    var targetInsn := originalLen / 8 + TextInsn(oldImm, rel, l);
    var newImm := targetInsn - at / 8 - 1;
    if newImm < -0x8000_0000 || newImm > 0x7fff_ffff {
      return false;
    }
    var field := LE(4, Unsigned32(newImm));
    target[at + 1] := target[at + 1] % 16 + 16;
    forall k | 0 <= k < 4 {
      target[at + 4 + k] := field[k];
    }
    ghost var patched := before[..at] + PatchInsn(InsnAt(before, at / 8), newImm) + before[at + 8..];
    assert target[..] == patched;
    return true;
  }

  /** All the calls into `.text` among `rels`, in order. */
  function RewriteAll(data: seq<byte>, rels: seq<Rel>, l: Linkage, base: nat): (r: Result<seq<byte>>)
    ensures r.Ok? ==> |r.value| == |data|
    decreases |rels|
  {
    if rels == [] then Ok(data)
    else if !IsTextCall(rels[0], l) then RewriteAll(data, rels[1..], l, base)
    else
      match RewriteCall(data, rels[0], l, base)
      case Err => Err
      case Ok(d) => RewriteAll(d, rels[1..], l, base)
  }

  /** The relocations that stay. */
  function Others(rels: seq<Rel>, l: Linkage): (kept: seq<Rel>) {
    if rels == [] then []
    else (if IsTextCall(rels[0], l) then [] else [rels[0]]) + Others(rels[1..], l)
  }

  predicate Shiftable(rels: seq<Rel>, dist: nat) {
    forall i :: 0 <= i < |rels| ==> rels[i].offset + dist < 0x1_0000_0000_0000_0000
  }

  function Shift(rels: seq<Rel>, dist: nat): (r: seq<Rel>)
    requires Shiftable(rels, dist)
    ensures |r| == |rels|
    ensures forall i :: 0 <= i < |r| ==> r[i] == rels[i].(offset := rels[i].offset + dist)
  {
    seq(|rels|, i requires 0 <= i < |rels| => rels[i].(offset := rels[i].offset + dist))
  }

  datatype Code = Code(data: seq<byte>, rels: seq<Rel>)

  /** The folded section: both bodies, with the calls between them made local. */
  function Folded(own: Code, text: Code, l: Linkage): (r: Result<Code>)
    ensures r.Ok? ==> |r.value.data| == |own.data| + |text.data|
  {
    if !Shiftable(text.rels, |own.data|) then Err
    else
      var all := own.rels + Shift(text.rels, |own.data|);
      match RewriteAll(own.data + text.data, all, l, |own.data| / 8)
      case Err => Err
      case Ok(data) =>
        var kept := Others(all, l);
        if ValidCalls(data, kept) then Ok(Code(data, Pruned(data, kept, |kept|))) else Err
  }

  lemma {:induction false} RewriteAllAppend(data: seq<byte>, a: seq<Rel>, b: seq<Rel>, l: Linkage, base: nat)
    ensures RewriteAll(data, a + b, l, base) ==
            match RewriteAll(data, a, l, base) case Err => Err case Ok(d) => RewriteAll(d, b, l, base)
    decreases |a|
  {
    hide RewriteCall, IsTextCall;
    if a == [] {
      assert a + b == b;
    } else {
      assert (a + b)[1..] == a[1..] + b;
      var d := RewriteCall(data, a[0], l, base);
      RewriteAllAppend(if IsTextCall(a[0], l) && d.Ok? then d.value else data, a[1..], b, l, base);
    }
  }

  lemma {:induction false} OthersAppend(a: seq<Rel>, b: seq<Rel>, l: Linkage)
    ensures Others(a + b, l) == Others(a, l) + Others(b, l)
  {
    hide IsTextCall;
    if a == [] {
      assert a + b == b;
    } else {
      assert (a + b)[1..] == a[1..] + b;
      OthersAppend(a[1..], b, l);
    }
  }

  /** One pass over relocations: rewrites the calls into `.text`, collects the others. */
  method RewriteCalls(target: array<byte>, rels: seq<Rel>, l: Linkage, originalLen: nat)
    returns (ok: bool, kept: seq<Rel>)
    modifies target
    ensures match RewriteAll(old(target[..]), rels, l, originalLen / 8)
            case Err => !ok
            case Ok(d) => ok && target[..] == d && kept == Others(rels, l)
  {
    hide RewriteCall, IsTextCall;
    ghost var goal := RewriteAll(target[..], rels, l, originalLen / 8);
    kept := [];
    for i := 0 to |rels|
      invariant RewriteAll(target[..], rels[i..], l, originalLen / 8) == goal
      invariant kept + Others(rels[i..], l) == Others(rels, l)
    {
      assert rels[i..][1..] == rels[i + 1..];
      if IsTextCall(rels[i], l) {
        var fine := RewriteLocalCall(target, rels[i], l, originalLen);
        if !fine {
          return false, kept;
        }
      } else {
        kept := kept + [rels[i]];
      }
    }
    return true, kept;
  }

  method ShiftRels(rels: seq<Rel>, dist: nat) returns (r: Result<seq<Rel>>)
    ensures r == if Shiftable(rels, dist) then Ok(Shift(rels, dist)) else Err
  {
    var out := [];
    for i := 0 to |rels|
      invariant |out| == i && Shiftable(rels[..i], dist)
      invariant forall k :: 0 <= k < i ==> out[k] == rels[k].(offset := rels[k].offset + dist)
    {
      if rels[i].offset + dist >= 0x1_0000_0000_0000_0000 {
        return Err;
      }
      out := out + [rels[i].(offset := rels[i].offset + dist)];
    }
    assert rels[..|rels|] == rels;
    assert out == Shift(rels, dist);
    return Ok(out);
  }

  /** Folds one code section. */
  method FoldSection(own: Code, text: Code, l: Linkage) returns (r: Result<Code>)
    ensures r == Folded(own, text, l)
  {
    hide RewriteAll, Others, Pruned, ValidCalls;
    var whole := own.data + text.data;
    var target := new byte[|whole|](i requires 0 <= i < |whole| => whole[i]);
    assert target[..] == whole;
    var shifted := ShiftRels(text.rels, |own.data|);
    if shifted.Err? {
      return Err;
    }
    RewriteAllAppend(whole, own.rels, shifted.value, l, |own.data| / 8);
    OthersAppend(own.rels, shifted.value, l);
    var ok, kept := RewriteCalls(target, own.rels, l, |own.data|);
    if !ok {
      return Err;
    }
    var ok', kept' := RewriteCalls(target, shifted.value, l, |own.data|);
    if !ok' {
      return Err;
    }
    var pruned := PruneInvalidCallRelocs(target[..], kept + kept');
    if pruned.Err? {
      return Err;
    }
    return Ok(Code(target[..], pruned.value));
  }
}
