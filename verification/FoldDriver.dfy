/** The whole pass of `src/tinycc.rs` on an object file: find `.text`, the symbols and the
    `zeroserve.*` code sections, fold each section that calls into `.text`, clean up the relocations
    of the others, and write the file again. The closing theorem reads the written file back: each
    folded section in it is the folded program that EbpfSteps compares with the original. */
module FoldDriver {
  import opened Bytes
  import opened Text
  import opened ElfFormat
  import opened Relocations
  import opened TextFolding
  import EbpfSteps

  const EM_BPF := 247
  const SHT_PROGBITS: u32 := 1
  const SHT_SYMTAB: u32 := 2
  const SHT_REL: u32 := 9
  const SHF_ALLOC_EXEC: u64 := 6
  const SYM_SIZE := 24
  const ZEROSERVE: seq<byte> := Ascii("zeroserve.")
  const ELF_MAGIC: seq<byte> := [0x7f, 0x45, 0x4c, 0x46]

  // ---------------------------------------------------------------- finding things

  function U16(b: seq<byte>): (v: nat)
    requires |b| == 2
    ensures v < 0x1_0000
  {
    Widths();
    FromLE(b)
  }

  predicate IsBpfObject(input: seq<byte>) {
    && |input| >= HEADER_SIZE
    && input[0..4] == ELF_MAGIC && input[4] == 2 && input[5] == 1
    && U16(input[18..20]) == EM_BPF
    && U16(input[58..60]) == HEADER_SIZE && U16(input[60..62]) != 0 && U16(input[62..64]) < U16(input[60..62])
  }

  function NameOf(sections: seq<Section>, shstr: nat, i: nat): (name: seq<byte>)
    requires shstr < |sections| && i < |sections|
  {
    match CStr(sections[shstr].data, sections[i].h.nameOffset) case Some(s) => s case None => []
  }

  predicate IsCode(s: Section) {
    s.h.kind == SHT_PROGBITS && s.h.flags == SHF_ALLOC_EXEC
  }

  function FindText(sections: seq<Section>, shstr: nat, i: nat): (r: Option<nat>)
    requires shstr < |sections| && i <= |sections|
    ensures r.Some? ==> r.value < |sections|
    decreases |sections| - i
  {
    if i == |sections| then None
    else if NameOf(sections, shstr, i) == DOT_TEXT && IsCode(sections[i]) then Some(i)
    else FindText(sections, shstr, i + 1)
  }

  function FindSymtab(sections: seq<Section>, i: nat): (r: Option<nat>)
    requires i <= |sections|
    ensures r.Some? ==> r.value < |sections|
    decreases |sections| - i
  {
    if i == |sections| then None
    else if sections[i].h.kind == SHT_SYMTAB then Some(i)
    else FindSymtab(sections, i + 1)
  }

  predicate IsRelOf(s: Section, t: nat) { s.h.kind == SHT_REL && s.h.info == t }

  function FindRelFrom(sections: seq<Section>, i: nat, t: nat): (r: Option<nat>)
    requires i <= |sections|
    ensures r.Some? ==> r.value < |sections| && IsRelOf(sections[r.value], t)
    decreases |sections| - i
  {
    if i == |sections| then None
    else if IsRelOf(sections[i], t) then Some(i)
    else FindRelFrom(sections, i + 1, t)
  }

  /** The relocation section of section `t`. */
  function FindRel(sections: seq<Section>, t: nat): (r: Option<nat>)
    ensures r.Some? ==> r.value < |sections| && IsRelOf(sections[r.value], t)
  {
    FindRelFrom(sections, 0, t)
  }

  predicate IsTarget(sections: seq<Section>, shstr: nat, text: nat, i: nat)
    requires shstr < |sections| && i < |sections|
  {
    i != text && IsCode(sections[i]) && ZEROSERVE <= NameOf(sections, shstr, i)
  }

  function Targets(sections: seq<Section>, shstr: nat, text: nat, n: nat): (ts: seq<nat>)
    requires shstr < |sections| && n <= |sections|
    ensures forall k :: 0 <= k < |ts| ==> ts[k] < n && ts[k] != text && sections[ts[k]].h.kind == SHT_PROGBITS
    ensures forall j, k :: 0 <= j < k < |ts| ==> ts[j] < ts[k]
  {
    if n == 0 then []
    else Targets(sections, shstr, text, n - 1) + (if IsTarget(sections, shstr, text, n - 1) then [n - 1] else [])
  }

  function SymbolAt(b: seq<byte>): (s: Symbol)
    requires |b| >= SYM_SIZE
  {
    Symbol(U32(b[0..4]), U16(b[6..8]), U64(b[8..16]))
  }

  function SymbolsIn(data: seq<byte>, e: nat): (r: seq<Symbol>)
    requires e >= SYM_SIZE
    decreases |data|
  {
    if |data| < e then [] else [SymbolAt(data[..e])] + SymbolsIn(data[e..], e)
  }

  function SymbolSize(entsize: u64): (e: nat) { if entsize == 0 then SYM_SIZE else entsize }

  // ---------------------------------------------------------------- folding the sections

  predicate CallsText(rels: seq<Rel>, l: Linkage) {
    exists k :: 0 <= k < |rels| && IsTextCall(rels[k], l)
  }

  function WithData(s: Section, data: seq<byte>): (r: Section) { s.(data := data) }

  /** One target section. The boolean says whether anything changed; size fields are set when the
      file is written. */
  function FoldTarget(sections: seq<Section>, t: nat, text: Code, l: Linkage): (r: Result<(seq<Section>, bool)>)
    requires t < |sections|
    ensures r.Ok? ==> |r.value.0| == |sections|
  {
    match FindRel(sections, t)
    case None => Ok((sections, false))
    case Some(ri) =>
      var e := EntrySize(sections[ri].h.entsize);
      if e < REL_SIZE then Err
      else
        var rels := RelsIn(sections[ri].data, e);
        if !CallsText(rels, l) then
          if !ValidCalls(sections[t].data, rels) then Err
          else
            var pruned := EncodeRels(Pruned(sections[t].data, rels, |rels|));
            if |pruned| > MAX_LEN then Err
            else Ok((sections[ri := WithData(sections[ri], pruned)], pruned != sections[ri].data))
        else if |sections[t].data| % 8 != 0 then Ok((sections, false))
        else
          match Folded(Code(sections[t].data, rels), text, l)
          case Err => Err
          case Ok(code) =>
            var b := EncodeRels(code.rels);
            if |code.data| > MAX_LEN || |b| > MAX_LEN then Err
            else Ok((sections[t := WithData(sections[t], code.data)][ri := WithData(sections[ri], b)], true))
  }

  function FoldAll(sections: seq<Section>, ts: seq<nat>, text: Code, l: Linkage): (r: Result<(seq<Section>, bool)>)
    requires forall k :: 0 <= k < |ts| ==> ts[k] < |sections|
    ensures r.Ok? ==> |r.value.0| == |sections|
    decreases |ts|
  {
    if ts == [] then Ok((sections, false))
    else
      match FoldTarget(sections, ts[0], text, l)
      case Err => Err
      case Ok((after, changed)) =>
        match FoldAll(after, ts[1..], text, l)
        case Err => Err
        case Ok((final, more)) => Ok((final, changed || more))
  }

  method FoldOneTarget(sections: seq<Section>, t: nat, text: Code, l: Linkage)
    returns (r: Result<(seq<Section>, bool)>)
    requires t < |sections|
    ensures r == FoldTarget(sections, t, text, l)
  {
    hide RelsIn, Pruned, Folded, EncodeRels, ValidCalls, IsTextCall;
    var relIdx := FindRel(sections, t);
    if relIdx.None? {
      return Ok((sections, false));
    }
    var ri := relIdx.value;
    var parsed := ParseRels(sections[ri].h.entsize, sections[ri].data);
    if parsed.Err? {
      return Err;
    }
    var rels := parsed.value;
    var hasTextCalls := false;
    for k := 0 to |rels|
      invariant hasTextCalls <==> exists j :: 0 <= j < k && IsTextCall(rels[j], l)
    {
      if IsTextCall(rels[k], l) {
        hasTextCalls := true;
      }
    }
    if !hasTextCalls {
      var pruned := PruneInvalidCallRelocs(sections[t].data, rels);
      if pruned.Err? {
        return Err;
      }
      var b := WriteRels(pruned.value);
      if |b| > MAX_LEN {
        return Err;
      }
      return Ok((sections[ri := WithData(sections[ri], b)], b != sections[ri].data));
    }
    if |sections[t].data| % 8 != 0 {
      return Ok((sections, false));
    }
    var folded := FoldSection(Code(sections[t].data, rels), text, l);
    if folded.Err? {
      return Err;
    }
    var b := WriteRels(folded.value.rels);
    if |folded.value.data| > MAX_LEN || |b| > MAX_LEN {
      return Err;
    }
    return Ok((sections[t := WithData(sections[t], folded.value.data)][ri := WithData(sections[ri], b)], true));
  }

  method FoldAllTargets(sections: seq<Section>, ts: seq<nat>, text: Code, l: Linkage)
    returns (r: Result<(seq<Section>, bool)>)
    requires forall k :: 0 <= k < |ts| ==> ts[k] < |sections|
    ensures r == FoldAll(sections, ts, text, l)
  {
    hide FoldTarget;
    var current, changed := sections, false;
    for i := 0 to |ts|
      invariant |current| == |sections|
      invariant FoldAll(sections, ts, text, l) ==
                match FoldAll(current, ts[i..], text, l)
                case Err => Err
                case Ok((final, more)) => Ok((final, changed || more))
    {
      assert ts[i..][1..] == ts[i + 1..];
      var one := FoldOneTarget(current, ts[i], text, l);
      if one.Err? {
        return Err;
      }
      changed := changed || one.value.1;
      current := one.value.0;
    }
    return Ok((current, changed));
  }

  // ---------------------------------------------------------------- targets do not disturb each other

  predicate SameHeaders(a: seq<Section>, b: seq<Section>) {
    |a| == |b| && forall i :: 0 <= i < |a| ==> a[i].h == b[i].h
  }

  lemma {:induction false} FindRelSame(a: seq<Section>, b: seq<Section>, i: nat, t: nat)
    requires SameHeaders(a, b) && i <= |a|
    ensures FindRelFrom(a, i, t) == FindRelFrom(b, i, t)
    decreases |a| - i
  {
    if i < |a| {
      FindRelSame(a, b, i + 1, t);
    }
  }

  /** Folding target `t` touches only `t` and its relocation section. */
  lemma FoldTargetFrame(sections: seq<Section>, t: nat, text: Code, l: Linkage)
    requires t < |sections| && FoldTarget(sections, t, text, l).Ok?
    ensures SameHeaders(sections, FoldTarget(sections, t, text, l).value.0)
    ensures forall i :: 0 <= i < |sections| && i != t && !IsRelOf(sections[i], t) ==>
              FoldTarget(sections, t, text, l).value.0[i] == sections[i]
  {
    hide RelsIn, Pruned, Folded, EncodeRels, ValidCalls, CallsText;
  }

  /** What it leaves there depends only on what was there. */
  lemma FoldTargetLocal(a: seq<Section>, b: seq<Section>, t: nat, ri: nat, text: Code, l: Linkage)
    requires SameHeaders(a, b) && t < |a| && FindRel(a, t) == Some(ri)
    requires a[t] == b[t] && a[ri] == b[ri] && a[t].h.kind == SHT_PROGBITS
    ensures FoldTarget(a, t, text, l).Ok? == FoldTarget(b, t, text, l).Ok?
    ensures FoldTarget(a, t, text, l).Ok? ==>
              && FoldTarget(a, t, text, l).value.0[t] == FoldTarget(b, t, text, l).value.0[t]
              && FoldTarget(a, t, text, l).value.0[ri] == FoldTarget(b, t, text, l).value.0[ri]
  {
    hide RelsIn, Pruned, Folded, EncodeRels, ValidCalls, CallsText;
    FindRelSame(a, b, 0, t);
  }

  /** The targets: code sections, in increasing order. */
  predicate AreTargets(sections: seq<Section>, ts: seq<nat>) {
    && (forall k :: 0 <= k < |ts| ==> ts[k] < |sections| && sections[ts[k]].h.kind == SHT_PROGBITS)
    && forall j, k :: 0 <= j < k < |ts| ==> ts[j] < ts[k]
  }

  lemma {:induction false} FoldAllFrame(sections: seq<Section>, ts: seq<nat>, text: Code, l: Linkage, i: nat)
    requires AreTargets(sections, ts) && FoldAll(sections, ts, text, l).Ok? && i < |sections|
    requires i !in ts && forall k :: 0 <= k < |ts| ==> !IsRelOf(sections[i], ts[k])
    ensures FoldAll(sections, ts, text, l).value.0[i] == sections[i]
    decreases |ts|
  {
    hide FoldTarget;
    if ts != [] {
      FoldTargetFrame(sections, ts[0], text, l);
      FoldAllFrame(FoldTarget(sections, ts[0], text, l).value.0, ts[1..], text, l, i);
    }
  }

  lemma {:induction false} FoldAllAt(sections: seq<Section>, ts: seq<nat>, text: Code, l: Linkage, t: nat, ri: nat)
    requires AreTargets(sections, ts) && FoldAll(sections, ts, text, l).Ok?
    requires t in ts && FindRel(sections, t) == Some(ri)
    ensures FoldTarget(sections, t, text, l).Ok?
    ensures FoldAll(sections, ts, text, l).value.0[t] == FoldTarget(sections, t, text, l).value.0[t]
    ensures FoldAll(sections, ts, text, l).value.0[ri] == FoldTarget(sections, t, text, l).value.0[ri]
    decreases |ts|
  {
    hide FoldTarget, FindRel;
    var u, rest := ts[0], ts[1..];
    var after := FoldTarget(sections, u, text, l).value.0;
    FoldTargetFrame(sections, u, text, l);
    if u == t {
      FoldAllFrame(after, rest, text, l, t);
      FoldAllFrame(after, rest, text, l, ri);
    } else {
      FoldTargetLocal(sections, after, t, ri, text, l);
      StillItsRel(sections, after, t);
      FoldAllAt(after, rest, text, l, t, ri);
    }
  }

  lemma StillItsRel(a: seq<Section>, b: seq<Section>, t: nat)
    requires SameHeaders(a, b)
    ensures FindRel(a, t) == FindRel(b, t)
  {
    FindRelSame(a, b, 0, t);
  }

  // ---------------------------------------------------------------- the whole pass

  /** What the pass will do: the parsed sections, `.text` with its relocations, and the targets. */
  datatype Plan = Plan(text: Code, l: Linkage, targets: seq<nat>)

  function TextRels(sections: seq<Section>, ti: nat): (r: Result<seq<Rel>>) {
    match FindRel(sections, ti)
    case None => Ok([])
    case Some(ri) =>
      var e := EntrySize(sections[ri].h.entsize);
      if e < REL_SIZE then Err else Ok(RelsIn(sections[ri].data, e))
  }

  /** `Ok(None)` when the file has no `.text` code or no symbols, so that nothing needs folding. */
  function PlanFor(sections: seq<Section>, shstr: nat): (r: Result<Option<Plan>>)
    requires shstr < |sections|
    ensures r.Ok? && r.value.Some? ==> AreTargets(sections, r.value.value.targets)
  {
    match FindText(sections, shstr, 0)
    case None => Ok(None)
    case Some(ti) =>
      if sections[ti].data == [] || |sections[ti].data| % 8 != 0 then Ok(None)
      else
        match FindSymtab(sections, 0)
        case None => Ok(None)
        case Some(si) =>
          var strtab := sections[si].h.link;
          var e := SymbolSize(sections[si].h.entsize);
          if strtab >= |sections| then Ok(None)
          else if e < SYM_SIZE then Err
          else
            match TextRels(sections, ti)
            case Err => Err
            case Ok(rels) =>
              Ok(Some(Plan(Code(sections[ti].data, rels),
                           Linkage(SymbolsIn(sections[si].data, e), sections[strtab].data, ti),
                           Targets(sections, shstr, ti, |sections|))))
  }

  // ---------------------------------------------------------------- what the plan must be

  /** Section `i` has this name in the table of names `shstr`. */
  predicate HasName(sections: seq<Section>, shstr: nat, i: nat, name: seq<byte>)
    requires shstr < |sections| && i < |sections|
  {
    Spelled(sections[shstr].data, sections[i].h.nameOffset, name) && IsUtf8(name)
  }

  /** Executable code: program bits, allocated and executable and nothing else. */
  predicate IsExecutable(s: Section) { s.h.kind == 1 && s.h.flags == 6 }

  /** Code with the name `.text`. */
  predicate IsTextSection(sections: seq<Section>, shstr: nat, i: nat)
    requires shstr < |sections| && i < |sections|
  {
    IsExecutable(sections[i]) && HasName(sections, shstr, i, [46, 116, 101, 120, 116])
  }

  /** Code with a name that begins with `zeroserve.`. */
  ghost predicate IsScript(sections: seq<Section>, shstr: nat, i: nat)
    requires shstr < |sections| && i < |sections|
  {
    && IsExecutable(sections[i])
    && exists name :: HasName(sections, shstr, i, name) && [122, 101, 114, 111, 115, 101, 114, 118, 101, 46] <= name
  }

  predicate FirstText(sections: seq<Section>, shstr: nat, ti: nat)
    requires shstr < |sections|
  {
    && ti < |sections| && IsTextSection(sections, shstr, ti)
    && forall j :: 0 <= j < ti ==> !IsTextSection(sections, shstr, j)
  }

  predicate FirstSymtab(sections: seq<Section>, si: nat) {
    && si < |sections| && sections[si].h.kind == 2
    && forall j :: 0 <= j < si ==> sections[j].h.kind != 2
  }

  /** The first relocation table for section `t`. */
  predicate FirstRel(sections: seq<Section>, t: nat, ri: nat) {
    && ri < |sections| && sections[ri].h.kind == 9 && sections[ri].h.info == t
    && forall j :: 0 <= j < ri ==> !(sections[j].h.kind == 9 && sections[j].h.info == t)
  }

  /** The symbols of a table with entries of `e` bytes. */
  predicate AreSymbols(data: seq<byte>, e: nat, symbols: seq<Symbol>) {
    && e >= 24 && |symbols| * e <= |data| < (|symbols| + 1) * e
    && forall k :: 0 <= k < |symbols| ==> SymbolIn(data, k * e, symbols[k])
  }

  predicate SymbolIn(data: seq<byte>, at: nat, sym: Symbol) {
    && at + 24 <= |data|
    && sym == Symbol(U32(data[at..at + 4]), U16(data[at + 6..at + 8]), U64(data[at + 8..at + 16]))
  }

  /** The plan takes the first `.text`, the first symbol table with its strings, and as targets exactly
      the script sections. */
  ghost predicate Selects(sections: seq<Section>, shstr: nat, ti: nat, si: nat, plan: Plan)
    requires shstr < |sections|
  {
    && FirstText(sections, shstr, ti) && FirstSymtab(sections, si) && sections[si].h.link < |sections|
    && sections[ti].data != [] && |sections[ti].data| % 8 == 0
    && plan.text.data == sections[ti].data
    && plan.l.textIdx == ti && plan.l.strtab == sections[sections[si].h.link].data
    && AreSymbols(sections[si].data, if sections[si].h.entsize == 0 then 24 else sections[si].h.entsize, plan.l.symbols)
    && AreRelsOf(sections, ti, plan.text.rels) && AreScripts(sections, shstr, ti, plan.targets)
  }

  /** The entries of the first relocation table for section `t`, if there is one. */
  ghost predicate AreRelsOf(sections: seq<Section>, t: nat, rels: seq<Rel>) {
    && (forall ri: nat :: FirstRel(sections, t, ri) ==>
          && EntrySize(sections[ri].h.entsize) >= 16
          && rels == RelsIn(sections[ri].data, EntrySize(sections[ri].h.entsize)))
    && ((forall ri: nat :: !FirstRel(sections, t, ri)) ==> rels == [])
  }

  /** Exactly the script sections. */
  ghost predicate AreScripts(sections: seq<Section>, shstr: nat, ti: nat, targets: seq<nat>)
    requires shstr < |sections|
  {
    forall i: nat :: i in targets <==> i < |sections| && i != ti && IsScript(sections, shstr, i)
  }

  /** There is nothing to fold with: no usable `.text`, no symbols, or no strings for them. */
  ghost predicate NothingToFold(sections: seq<Section>, shstr: nat)
    requires shstr < |sections|
  {
    || (forall i :: 0 <= i < |sections| ==> !IsTextSection(sections, shstr, i))
    || (exists ti: nat :: FirstText(sections, shstr, ti) &&
          (sections[ti].data == [] || |sections[ti].data| % 8 != 0))
    || (forall i :: 0 <= i < |sections| ==> sections[i].h.kind != 2)
    || (exists si: nat :: FirstSymtab(sections, si) && sections[si].h.link >= |sections|)
  }

  lemma NameIff(sections: seq<Section>, shstr: nat, i: nat, name: seq<byte>)
    requires shstr < |sections| && i < |sections| && name != []
    ensures NameOf(sections, shstr, i) == name <==> HasName(sections, shstr, i, name)
  {
    CStrIff(sections[shstr].data, sections[i].h.nameOffset, name);
    hide CStr;
  }

  lemma NameCodes()
    ensures DOT_TEXT == [46, 116, 101, 120, 116]
    ensures ZEROSERVE == [122, 101, 114, 111, 115, 101, 114, 118, 101, 46]
  {
  }

  lemma TextIff(sections: seq<Section>, shstr: nat, i: nat)
    requires shstr < |sections| && i < |sections|
    ensures NameOf(sections, shstr, i) == DOT_TEXT && IsCode(sections[i]) <==> IsTextSection(sections, shstr, i)
  {
    NameCodes();
    NameIff(sections, shstr, i, DOT_TEXT);
    hide NameOf, HasName;
  }

  lemma ScriptIff(sections: seq<Section>, shstr: nat, text: nat, i: nat)
    requires shstr < |sections| && i < |sections|
    ensures IsTarget(sections, shstr, text, i) <==> i != text && IsScript(sections, shstr, i)
  {
    NameCodes();
    var name := NameOf(sections, shstr, i);
    hide NameOf, HasName;
    if ZEROSERVE <= name { NameIff(sections, shstr, i, name); }
    if other :| HasName(sections, shstr, i, other) && ZEROSERVE <= other { NameIff(sections, shstr, i, other); }
  }

  lemma {:induction false} FindTextIs(sections: seq<Section>, shstr: nat, i: nat)
    requires shstr < |sections| && i <= |sections|
    requires forall j :: 0 <= j < i ==> !IsTextSection(sections, shstr, j)
    ensures match FindText(sections, shstr, i)
            case Some(ti) => FirstText(sections, shstr, ti)
            case None => forall j :: 0 <= j < |sections| ==> !IsTextSection(sections, shstr, j)
    decreases |sections| - i
  {
    hide NameOf, IsCode, IsTextSection;
    if i < |sections| {
      TextIff(sections, shstr, i);
      if !IsTextSection(sections, shstr, i) { FindTextIs(sections, shstr, i + 1); }
    }
  }

  lemma {:induction false} FindSymtabIs(sections: seq<Section>, i: nat)
    requires i <= |sections| && forall j :: 0 <= j < i ==> sections[j].h.kind != 2
    ensures match FindSymtab(sections, i)
            case Some(si) => FirstSymtab(sections, si)
            case None => forall j :: 0 <= j < |sections| ==> sections[j].h.kind != 2
    decreases |sections| - i
  {
    if i < |sections| && sections[i].h.kind != 2 { FindSymtabIs(sections, i + 1); }
  }

  lemma {:induction false} FindRelFromIs(sections: seq<Section>, i: nat, t: nat)
    requires i <= |sections| && forall j :: 0 <= j < i ==> !(sections[j].h.kind == 9 && sections[j].h.info == t)
    ensures match FindRelFrom(sections, i, t)
            case Some(ri) => FirstRel(sections, t, ri)
            case None => forall j :: 0 <= j < |sections| ==> !(sections[j].h.kind == 9 && sections[j].h.info == t)
    decreases |sections| - i
  {
    if i < |sections| && !(sections[i].h.kind == 9 && sections[i].h.info == t) { FindRelFromIs(sections, i + 1, t); }
  }

  lemma FindRelIff(sections: seq<Section>, t: nat, ri: nat)
    ensures FindRel(sections, t) == Some(ri) <==> FirstRel(sections, t, ri)
  {
    FindRelFromIs(sections, 0, t);
  }

  lemma {:induction false} TargetsAre(sections: seq<Section>, shstr: nat, text: nat, n: nat, i: nat)
    requires shstr < |sections| && n <= |sections|
    ensures i in Targets(sections, shstr, text, n) <==> i < n && i != text && IsScript(sections, shstr, i)
  {
    hide IsTarget, IsScript;
    if n > 0 {
      TargetsAre(sections, shstr, text, n - 1, i);
      ScriptIff(sections, shstr, text, n - 1);
    }
  }

  lemma {:induction false} SymbolsAre(data: seq<byte>, e: nat)
    requires e >= 24
    ensures AreSymbols(data, e, SymbolsIn(data, e))
    decreases |data|
  {
    if |data| >= e {
      var rest := SymbolsIn(data[e..], e);
      SymbolsAre(data[e..], e);
      FirstSymbol(data, e);
      hide SymbolsIn, SymbolAt;
      MoreSymbols(data, e, SymbolAt(data[..e]), rest);
    }
  }

  lemma MoreSymbols(data: seq<byte>, e: nat, sym: Symbol, rest: seq<Symbol>)
    requires 24 <= e <= |data| && SymbolIn(data, 0, sym) && AreSymbols(data[e..], e, rest)
    ensures AreSymbols(data, e, [sym] + rest)
  {
    hide SymbolIn;
    var symbols := [sym] + rest;
    Times(|rest| + 1, e);
    Times(|rest| + 2, e);
    forall k | 0 <= k < |symbols|
      ensures SymbolIn(data, k * e, symbols[k])
    {
      if k > 0 {
        Times(k, e);
        LaterSymbol(data, e, (k - 1) * e, rest[k - 1]);
      }
    }
  }

  lemma Times(k: nat, e: nat)
    requires k > 0
    ensures k * e == (k - 1) * e + e
  {
  }

  lemma FirstSymbol(data: seq<byte>, e: nat)
    requires 24 <= e <= |data|
    ensures SymbolIn(data, 0, SymbolAt(data[..e]))
  {
    hide U16, U32, U64;
    var b := data[..e];
    assert b[0..4] == data[0..4] && b[6..8] == data[6..8] && b[8..16] == data[8..16];
  }

  lemma LaterSymbol(data: seq<byte>, e: nat, at: nat, sym: Symbol)
    requires e <= |data| && SymbolIn(data[e..], at, sym)
    ensures SymbolIn(data, at + e, sym)
  {
    hide U16, U32, U64;
    var b := data[e..];
    assert b[at..at + 4] == data[at + e..at + e + 4] && b[at + 6..at + 8] == data[at + e + 6..at + e + 8];
    assert b[at + 8..at + 16] == data[at + e + 8..at + e + 16];
  }

  lemma TextRelsAre(sections: seq<Section>, t: nat)
    requires TextRels(sections, t).Ok?
    ensures AreRelsOf(sections, t, TextRels(sections, t).value)
  {
    hide RelsIn, FirstRel, FindRel;
    forall ri: nat
      ensures FindRel(sections, t) == Some(ri) <==> FirstRel(sections, t, ri)
    {
      FindRelIff(sections, t, ri);
    }
  }

  lemma AllTargets(sections: seq<Section>, shstr: nat, ti: nat)
    requires shstr < |sections|
    ensures AreScripts(sections, shstr, ti, Targets(sections, shstr, ti, |sections|))
  {
    hide Targets, IsScript;
    forall i: nat
      ensures i in Targets(sections, shstr, ti, |sections|) <==>
              i < |sections| && i != ti && IsScript(sections, shstr, i)
    {
      TargetsAre(sections, shstr, ti, |sections|, i);
    }
  }

  lemma PlanSelects(sections: seq<Section>, shstr: nat) returns (ti: nat, si: nat)
    requires shstr < |sections| && PlanFor(sections, shstr).Ok? && PlanFor(sections, shstr).value.Some?
    ensures Selects(sections, shstr, ti, si, PlanFor(sections, shstr).value.value)
  {
    hide FindText, FindSymtab, SymbolsIn, TextRels, AreSymbols, FirstText, FirstSymtab, Targets, AreScripts, AreRelsOf;
    ti, si := FindText(sections, shstr, 0).value, FindSymtab(sections, 0).value;
    FindTextIs(sections, shstr, 0);
    FindSymtabIs(sections, 0);
    SymbolsAre(sections[si].data, SymbolSize(sections[si].h.entsize));
    TextRelsAre(sections, ti);
    AllTargets(sections, shstr, ti);
  }

  lemma OneFirstText(sections: seq<Section>, shstr: nat, a: nat, b: nat)
    requires shstr < |sections| && FirstText(sections, shstr, a) && FirstText(sections, shstr, b)
    ensures a == b
  {
    hide IsTextSection;
  }

  lemma NoPlan(sections: seq<Section>, shstr: nat)
    requires shstr < |sections| && PlanFor(sections, shstr) == Ok(None)
    ensures NothingToFold(sections, shstr)
  {
    hide FindText, FindSymtab, SymbolsIn, TextRels, FirstText, FirstSymtab, Targets, IsTextSection;
    FindTextIs(sections, shstr, 0);
    FindSymtabIs(sections, 0);
  }

  /** The sections of a BPF object file. */
  ghost predicate HasSections(input: seq<byte>, sections: seq<Section>)
    requires IsBpfObject(input)
  {
    && |sections| == U16(input[60..62])
    && forall i :: 0 <= i < |sections| ==> Entry(input, U64(input[40..48]), i) == Ok(sections[i])
  }

  /** The planned folding succeeded and changed something; `final` are the new sections. */
  ghost predicate Planned(input: seq<byte>, sections: seq<Section>, plan: Plan, final: seq<Section>)
    requires IsBpfObject(input)
  {
    && HasSections(input, sections)
    && PlanFor(sections, U16(input[62..64])) == Ok(Some(plan))
    && Selected(sections, U16(input[62..64]), plan)
    && FoldAll(sections, plan.targets, plan.text, plan.l) == Ok((final, true))
  }

  ghost predicate Selected(sections: seq<Section>, shstr: nat, plan: Plan)
    requires shstr < |sections|
  {
    exists ti: nat, si: nat :: Selects(sections, shstr, ti, si, plan)
  }

  /** A target with relocation table `ri` that stays as it is: it calls into `.text` but does not consist
      of whole instructions, or it does not and its table needs no pruning. */
  ghost predicate StaysAsItIs(sections: seq<Section>, plan: Plan, t: nat, ri: nat)
    requires t < |sections| && ri < |sections|
  {
    var e := EntrySize(sections[ri].h.entsize);
    && e >= 16
    && var rels := RelsIn(sections[ri].data, e);
    if CallsText(rels, plan.l) then |sections[t].data| % 8 != 0
    else EncodeRels(Pruned(sections[t].data, rels, |rels|)) == sections[ri].data
  }

  ghost predicate NoneChanges(sections: seq<Section>, plan: Plan) {
    forall t: nat, ri: nat :: t in plan.targets && t < |sections| && FirstRel(sections, t, ri) ==>
      StaysAsItIs(sections, plan, t, ri)
  }

  /** A target that was not changed was not to be, and the sections are what they were. */
  lemma UnchangedTarget(sections: seq<Section>, t: nat, plan: Plan)
    requires t < |sections| && FoldTarget(sections, t, plan.text, plan.l).Ok?
    requires !FoldTarget(sections, t, plan.text, plan.l).value.1
    ensures FoldTarget(sections, t, plan.text, plan.l).value.0 == sections
    ensures forall ri: nat :: FirstRel(sections, t, ri) ==> StaysAsItIs(sections, plan, t, ri)
  {
    hide RelsIn, Pruned, Folded, EncodeRels, ValidCalls, CallsText, FirstRel, FindRel;
    forall ri: nat
      ensures FindRel(sections, t) == Some(ri) <==> FirstRel(sections, t, ri)
    {
      FindRelIff(sections, t, ri);
    }
    if FindRel(sections, t).Some? {
      var ri := FindRel(sections, t).value;
      assert sections[ri := WithData(sections[ri], sections[ri].data)] == sections;
    }
  }

  lemma {:induction false} UnchangedTargets(sections: seq<Section>, ts: seq<nat>, plan: Plan)
    requires (forall k :: 0 <= k < |ts| ==> ts[k] < |sections|) && FoldAll(sections, ts, plan.text, plan.l).Ok?
    requires !FoldAll(sections, ts, plan.text, plan.l).value.1
    ensures forall t: nat, ri: nat :: t in ts && t < |sections| && FirstRel(sections, t, ri) ==>
              StaysAsItIs(sections, plan, t, ri)
    decreases |ts|
  {
    hide FoldTarget, FirstRel, StaysAsItIs;
    if ts != [] {
      UnchangedTarget(sections, ts[0], plan);
      UnchangedTargets(sections, ts[1..], plan);
    }
  }

  /** The pass over all targets fails exactly when some target cannot be folded on its own. */
  lemma {:induction false} FoldAllFails(sections: seq<Section>, ts: seq<nat>, text: Code, l: Linkage)
    requires AreTargets(sections, ts)
    ensures FoldAll(sections, ts, text, l).Err? <==>
            exists k :: 0 <= k < |ts| && FoldTarget(sections, ts[k], text, l).Err?
    decreases |ts|
  {
    hide FoldTarget, FindRel;
    if ts != [] && FoldTarget(sections, ts[0], text, l).Ok? {
      var after, rest := FoldTarget(sections, ts[0], text, l).value.0, ts[1..];
      FoldTargetFrame(sections, ts[0], text, l);
      FoldAllFails(after, rest, text, l);
      forall k | 0 <= k < |rest|
        ensures FoldTarget(after, rest[k], text, l).Err? <==> FoldTarget(sections, ts[k + 1], text, l).Err?
      {
        assert rest[k] == ts[k + 1];
        SameOutcome(sections, after, ts[k + 1], text, l);
      }
      if k :| 0 <= k < |rest| && FoldTarget(after, rest[k], text, l).Err? {
        assert FoldTarget(sections, ts[k + 1], text, l).Err?;
      }
      if k :| 0 <= k < |ts| && FoldTarget(sections, ts[k], text, l).Err? {
        assert FoldTarget(after, rest[k - 1], text, l).Err?;
      }
    }
  }

  lemma SameOutcome(a: seq<Section>, b: seq<Section>, t: nat, text: Code, l: Linkage)
    requires SameHeaders(a, b) && t < |a| && a[t] == b[t] && a[t].h.kind == SHT_PROGBITS
    requires forall i :: 0 <= i < |a| && IsRelOf(a[i], t) ==> a[i] == b[i]
    ensures FoldTarget(a, t, text, l).Err? <==> FoldTarget(b, t, text, l).Err?
  {
    FindRelSame(a, b, 0, t);
    if FindRel(a, t).Some? {
      hide FoldTarget;
      FoldTargetLocal(a, b, t, FindRel(a, t).value, text, l);
    }
  }

  /** `out` is a file that holds `final` behind the file header of `input`. */
  ghost predicate IsRebuilt(input: seq<byte>, final: seq<Section>, out: seq<byte>) {
    && |out| == TableOffset(final) + HEADER_SIZE * |final|
    && |input| >= HEADER_SIZE && |out| >= HEADER_SIZE
    && out[..40] == input[..40] && out[48..64] == input[48..64]
    && U64(out[40..48]) == TableOffset(final)
    && exists placed :: HoldsSections(out, TableOffset(final), final, placed)
  }

  /** Nothing to do: not a BPF object, nothing to fold, or no section changed. */
  ghost predicate NothingToDo(input: seq<byte>) {
    IsBpfObject(input) ==>
      exists sections :: HasSections(input, sections) &&
        (var plan := PlanFor(sections, U16(input[62..64]));
         plan.Ok?
         && (if plan.value.None? then NothingToFold(sections, U16(input[62..64]))
             else
               var p := plan.value.value;
               var folded := FoldAll(sections, p.targets, p.text, p.l);
               && Selected(sections, U16(input[62..64]), p) && NoneChanges(sections, p)
               && folded.Ok? && !folded.value.1))
  }

  /** The symbols, relocations or call targets are unusable, or the new file would be too long. */
  predicate Fails(sections: seq<Section>, shstr: nat)
    requires shstr < |sections|
  {
    match PlanFor(sections, shstr)
    case Err => true
    case Ok(None) => false
    case Ok(Some(plan)) =>
      match FoldAll(sections, plan.targets, plan.text, plan.l)
      case Err => true
      case Ok((final, changed)) => changed && TableOffset(final) + HEADER_SIZE * |final| > MAX_LEN
  }

  lemma {:induction false} FoldAllVectors(sections: seq<Section>, ts: seq<nat>, text: Code, l: Linkage)
    requires AreVectors(sections) && AreTargets(sections, ts) && FoldAll(sections, ts, text, l).Ok?
    ensures AreVectors(FoldAll(sections, ts, text, l).value.0)
    decreases |ts|
  {
    if ts != [] {
      FoldTargetVectors(sections, ts[0], text, l);
      FoldTargetFrame(sections, ts[0], text, l);
      hide FoldTarget, AreVectors;
      FoldAllVectors(FoldTarget(sections, ts[0], text, l).value.0, ts[1..], text, l);
    }
  }

  lemma FoldTargetVectors(sections: seq<Section>, t: nat, text: Code, l: Linkage)
    requires AreVectors(sections) && t < |sections| && FoldTarget(sections, t, text, l).Ok?
    ensures AreVectors(FoldTarget(sections, t, text, l).value.0)
  {
    hide RelsIn, Pruned, Folded, EncodeRels, ValidCalls, CallsText;
  }

  lemma ParsedVectors(input: seq<byte>, sections: seq<Section>)
    requires IsBpfObject(input) && HasSections(input, sections) && |input| <= MAX_LEN
    ensures AreVectors(sections)
  {
    hide DecodeHeader;
    forall i | 0 <= i < |sections| ensures |sections[i].data| <= MAX_LEN {
      assert Entry(input, U64(input[40..48]), i) == Ok(sections[i]);
    }
  }

  /** The pass: `Some` carries a rewritten file. */
  method FoldTextSubprograms(input: seq<byte>) returns (r: Result<Option<seq<byte>>>)
    requires |input| <= MAX_LEN
    ensures r.Ok? && r.value.Some? ==>
              IsBpfObject(input) &&
              exists sections, plan, final ::
                Planned(input, sections, plan, final) && IsRebuilt(input, final, r.value.value)
    ensures r.Ok? && r.value.None? ==> NothingToDo(input)
    ensures r.Err? ==>
              && IsBpfObject(input)
              && forall sections :: HasSections(input, sections) ==> Fails(sections, U16(input[62..64]))
  {
    hide PlanFor, FoldAll, Entry, AreVectors, AreTargets, HoldsSections, TableOffset, EndAfter;
    hide Selected, StaysAsItIs, FirstRel, NothingToFold;
    if |input| < HEADER_SIZE || input[0..4] != ELF_MAGIC || input[4] != 2 || input[5] != 1
       || U16(input[18..20]) != EM_BPF {
      return Ok(None);
    }
    var shoff, shentsize := U64(input[40..48]), U16(input[58..60]);
    var shnum, shstrndx := U16(input[60..62]), U16(input[62..64]);
    if shentsize != HEADER_SIZE || shnum == 0 || shstrndx >= shnum {
      return Ok(None);
    }
    var parsed := ParseSections(input, shoff, shnum);
    if parsed.Err? {
      return Err;
    }
    var sections := parsed.value;
    assert HasSections(input, sections);
    OneParse(input, sections);
    var plan := PlanFor(sections, shstrndx);
    if plan.Err? {
      return Err;
    }
    if plan.value.None? {
      NoPlan(sections, shstrndx);
      return Ok(None);
    }
    PlanIsSelected(sections, shstrndx);
    var Plan(text, l, targets) := plan.value.value;
    TargetsInRange(sections, targets);
    var folded := FoldAllTargets(sections, targets, text, l);
    if folded.Err? {
      return Err;
    }
    var (final, changed) := folded.value;
    if !changed {
      UnchangedTargets(sections, targets, plan.value.value);
      return Ok(None);
    }
    ParsedVectors(input, sections);
    FoldAllVectors(sections, targets, text, l);
    var out := RebuildElf(input, final);
    if out.Err? {
      return Err;
    }
    assert Planned(input, sections, plan.value.value, final);
    assert IsRebuilt(input, final, out.value);
    return Ok(Some(out.value));
  }

  lemma PlanIsSelected(sections: seq<Section>, shstr: nat)
    requires shstr < |sections| && PlanFor(sections, shstr).Ok? && PlanFor(sections, shstr).value.Some?
    ensures Selected(sections, shstr, PlanFor(sections, shstr).value.value)
  {
    hide PlanFor, Selects;
    var ti, si := PlanSelects(sections, shstr);
  }

  lemma TargetsInRange(sections: seq<Section>, ts: seq<nat>)
    requires AreTargets(sections, ts)
    ensures forall k :: 0 <= k < |ts| ==> ts[k] < |sections|
  {
  }

  /** A file has one list of sections. */
  lemma OneParse(input: seq<byte>, sections: seq<Section>)
    requires IsBpfObject(input) && HasSections(input, sections)
    ensures forall other :: HasSections(input, other) ==> other == sections
  {
    hide Entry;
    forall other | HasSections(input, other) ensures other == sections {
      forall i | 0 <= i < |sections| ensures other[i] == sections[i] {
        assert Entry(input, U64(input[40..48]), i) == Ok(sections[i]);
      }
    }
  }

  // ---------------------------------------------------------------- the file that is written

  /** The program a target section and its relocation section stand for. */
  function ProgramOf(target: Section, rel: Section, plan: Plan): (p: EbpfSteps.Program)
    requires EntrySize(rel.h.entsize) >= REL_SIZE
  {
    EbpfSteps.Program(Code(target.data, RelsIn(rel.data, EntrySize(rel.h.entsize))), plan.text, plan.l)
  }

  /** Section `t` of the file is a target that was folded, with relocation section `ri`. Index 0 is the
      reserved entry of the section table. */
  ghost predicate FoldedIn(input: seq<byte>, sections: seq<Section>, plan: Plan, final: seq<Section>,
                           out: seq<byte>, t: nat, ri: nat)
  {
    && IsBpfObject(input) && Planned(input, sections, plan, final) && IsRebuilt(input, final, out)
    && t in plan.targets && FindRel(sections, t) == Some(ri) && t != 0 && ri != 0
    && var e := EntrySize(sections[ri].h.entsize);
    e >= REL_SIZE && CallsText(RelsIn(sections[ri].data, e), plan.l) && |sections[t].data| % 8 == 0
  }

  /** Every script section of the input that calls into `.text` and consists of whole instructions is
      folded in the output; the program there is the one the theorems below speak of. */
  lemma EveryScriptIsFolded(input: seq<byte>, sections: seq<Section>, plan: Plan, final: seq<Section>,
                            out: seq<byte>, ti: nat, t: nat, ri: nat)
    requires IsBpfObject(input) && Planned(input, sections, plan, final) && IsRebuilt(input, final, out)
    requires var shstr := U16(input[62..64]);
             FirstText(sections, shstr, ti) && t < |sections| && t != ti && IsScript(sections, shstr, t)
    requires FirstRel(sections, t, ri) && t != 0 && ri != 0 && |sections[t].data| % 8 == 0
    requires var e := EntrySize(sections[ri].h.entsize);
             e >= REL_SIZE && CallsText(RelsIn(sections[ri].data, e), plan.l)
    ensures FoldedIn(input, sections, plan, final, out, t, ri)
  {
    assert U16(input[62..64]) < |sections|;
    hide PlanFor, FoldAll, RelsIn, CallsText, IsScript, FirstText, HasSections, IsRebuilt, Selected, FindRel, FirstRel;
    ScriptIsTarget(sections, U16(input[62..64]), plan, ti, t);
    FindRelIff(sections, t, ri);
  }

  /** A script section that does not call into `.text` keeps its code, and its relocation table holds the
      entries that survive pruning. */
  lemma OtherScriptIsPruned(input: seq<byte>, sections: seq<Section>, plan: Plan, final: seq<Section>,
                            ti: nat, t: nat, ri: nat)
    requires IsBpfObject(input) && Planned(input, sections, plan, final)
    requires var shstr := U16(input[62..64]);
             FirstText(sections, shstr, ti) && t < |sections| && t != ti && IsScript(sections, shstr, t)
    requires FirstRel(sections, t, ri)
    requires var e := EntrySize(sections[ri].h.entsize);
             e >= REL_SIZE && !CallsText(RelsIn(sections[ri].data, e), plan.l)
    ensures |final| == |sections| && final[t] == sections[t]
    ensures var rels := RelsIn(sections[ri].data, EntrySize(sections[ri].h.entsize));
            final[ri] == WithData(sections[ri], EncodeRels(Pruned(sections[t].data, rels, |rels|)))
  {
    assert U16(input[62..64]) < |sections| && AreTargets(sections, plan.targets);
    hide PlanFor, RelsIn, CallsText, IsScript, FirstText, HasSections, Selected, FindRel, FirstRel, FoldAll, FoldTarget;
    hide Pruned, EncodeRels;
    ScriptIsTarget(sections, U16(input[62..64]), plan, ti, t);
    FindRelIff(sections, t, ri);
    FoldAllAt(sections, plan.targets, plan.text, plan.l, t, ri);
    PrunedAfter(sections, t, ri, plan);
  }

  lemma PrunedAfter(sections: seq<Section>, t: nat, ri: nat, plan: Plan)
    requires t < |sections| && FindRel(sections, t) == Some(ri) && FoldTarget(sections, t, plan.text, plan.l).Ok?
    requires sections[t].h.kind == SHT_PROGBITS
    requires var e := EntrySize(sections[ri].h.entsize);
             e >= REL_SIZE && !CallsText(RelsIn(sections[ri].data, e), plan.l)
    ensures var after := FoldTarget(sections, t, plan.text, plan.l).value.0;
            var rels := RelsIn(sections[ri].data, EntrySize(sections[ri].h.entsize));
            && after[t] == sections[t]
            && after[ri] == WithData(sections[ri], EncodeRels(Pruned(sections[t].data, rels, |rels|)))
  {
    hide RelsIn, Pruned, EncodeRels, ValidCalls, Folded, CallsText;
  }

  lemma ScriptIsTarget(sections: seq<Section>, shstr: nat, plan: Plan, ti: nat, t: nat)
    requires shstr < |sections| && Selected(sections, shstr, plan) && FirstText(sections, shstr, ti)
    requires t < |sections| && t != ti && IsScript(sections, shstr, t)
    ensures t in plan.targets
  {
    hide FirstText, IsScript, FirstSymtab, AreSymbols, AreRelsOf;
    var first: nat, si: nat :| Selects(sections, shstr, first, si, plan);
    OneFirstText(sections, shstr, ti, first);
  }

  /** The program that stands in the written file at `t`. */
  function WrittenProgram(out: seq<byte>, t: nat, ri: nat, l: Linkage): (p: Result<EbpfSteps.Program>)
    requires |out| >= HEADER_SIZE
  {
    match (Entry(out, U64(out[40..48]), t), Entry(out, U64(out[40..48]), ri))
    case (Ok(target), Ok(rel)) =>
      if EntrySize(rel.h.entsize) < REL_SIZE then Err
      else Ok(EbpfSteps.Program(Code(target.data, RelsIn(rel.data, EntrySize(rel.h.entsize))), Code([], []), l))
    case _ => Err
  }

  /** Reading the written file back. A target that called into `.text` has the bytes of the folded
      program, and its relocations too exactly when its table has 16-byte entries or is now empty. */
  lemma WrittenTargetIsFolded(input: seq<byte>, sections: seq<Section>, plan: Plan, final: seq<Section>,
                              out: seq<byte>, t: nat, ri: nat)
    requires FoldedIn(input, sections, plan, final, out, t, ri)
    ensures t < |sections| && ri < |sections| && EntrySize(sections[ri].h.entsize) >= REL_SIZE && |out| >= HEADER_SIZE
    ensures var folded := EbpfSteps.FoldedProgram(ProgramOf(sections[t], sections[ri], plan));
            var written := WrittenProgram(out, t, ri, plan.l);
            && folded.Ok? && written.Ok? && written.value.own.data == folded.value.own.data
            && (written == folded <==> EntrySize(sections[ri].h.entsize) == REL_SIZE || folded.value.own.rels == [])
  {
    hide PlanFor, FoldAll, Entry, RelsIn, EncodeRels, Folded, CallsText, TableOffset, Selected, FindRel;
    var shoff, e := U64(out[40..48]), EntrySize(sections[ri].h.entsize);
    var placed :| HoldsSections(out, TableOffset(final), final, placed);
    assert AreTargets(sections, plan.targets);
    FoldAllAt(sections, plan.targets, plan.text, plan.l, t, ri);
    TargetAfter(sections, t, ri, plan);
    assert ReadsBack(out, shoff, t, final[t], placed[t]);
    assert ReadsBack(out, shoff, ri, final[ri], placed[ri]);
    var code := Folded(Code(sections[t].data, RelsIn(sections[ri].data, e)), plan.text, plan.l);
    ReadsBackIff(code.value.rels, e);
  }

  /** The condition on the relocation table: 16-byte entries, or none left. */
  predicate TableReadsBack(target: Section, rel: Section, plan: Plan)
    requires EntrySize(rel.h.entsize) >= REL_SIZE
  {
    var folded := EbpfSteps.FoldedProgram(ProgramOf(target, rel, plan));
    EntrySize(rel.h.entsize) == REL_SIZE || (folded.Ok? && folded.value.own.rels == [])
  }

  /** Whatever stood in the reserved entry of the section table is gone. */
  lemma ReservedIsEmptied(input: seq<byte>, final: seq<Section>, out: seq<byte>)
    requires IsRebuilt(input, final, out) && final != []
    ensures Entry(out, U64(out[40..48]), 0).Ok? && Entry(out, U64(out[40..48]), 0).value.data == []
  {
    hide Entry, TableOffset;
    var placed :| HoldsSections(out, TableOffset(final), final, placed);
    assert ReadsBack(out, TableOffset(final), 0, final[0], placed[0]);
  }

  /** Every run of the original program is a run of the program in the written file. */
  lemma WrittenFileRunsTheSame(input: seq<byte>, sections: seq<Section>, plan: Plan, final: seq<Section>,
                               out: seq<byte>, t: nat, ri: nat,
                               configs: seq<EbpfSteps.Config>, effects: seq<EbpfSteps.Effect>)
    requires FoldedIn(input, sections, plan, final, out, t, ri) && t < |sections|
    requires TableReadsBack(sections[t], sections[ri], plan)
    requires |out| >= HEADER_SIZE && EbpfSteps.WellFormed(ProgramOf(sections[t], sections[ri], plan))
    requires EbpfSteps.Run(ProgramOf(sections[t], sections[ri], plan), configs, effects)
    ensures var written := WrittenProgram(out, t, ri, plan.l);
            && written.Ok?
            && EbpfSteps.Run(written.value, EbpfSteps.MovedConfigs(|sections[t].data| / 8, configs), effects)
  {
    hide FoldedIn, WrittenProgram, EbpfSteps.Run, EbpfSteps.FoldedProgram, EbpfSteps.WellFormed, RelsIn;
    WrittenTargetIsFolded(input, sections, plan, final, out, t, ri);
    EbpfSteps.RunsArePreserved(ProgramOf(sections[t], sections[ri], plan), configs, effects);
  }

  /** And the program in the written file has no other runs, if nothing in the original runs off its
      section. */
  lemma WrittenFileHasNoOtherRuns(input: seq<byte>, sections: seq<Section>, plan: Plan, final: seq<Section>,
                                  out: seq<byte>, t: nat, ri: nat,
                                  c: EbpfSteps.Config, ds: seq<EbpfSteps.Config>, effects: seq<EbpfSteps.Effect>)
    returns (cs: seq<EbpfSteps.Config>)
    requires FoldedIn(input, sections, plan, final, out, t, ri) && t < |sections|
    requires TableReadsBack(sections[t], sections[ri], plan)
    requires |out| >= HEADER_SIZE && EbpfSteps.WellFormed(ProgramOf(sections[t], sections[ri], plan))
    requires EbpfSteps.Closed(ProgramOf(sections[t], sections[ri], plan))
    requires EbpfSteps.ValidConfig(ProgramOf(sections[t], sections[ri], plan), c)
    requires var written := WrittenProgram(out, t, ri, plan.l); written.Ok? && EbpfSteps.Run(written.value, ds, effects)
    requires ds[0] == EbpfSteps.MovedConfig(|sections[t].data| / 8, c)
    ensures EbpfSteps.Run(ProgramOf(sections[t], sections[ri], plan), cs, effects)
    ensures cs[0] == c && EbpfSteps.MovedConfigs(|sections[t].data| / 8, cs) == ds
  {
    hide FoldedIn, WrittenProgram, EbpfSteps.FoldedProgram, EbpfSteps.WellFormed, EbpfSteps.Closed,
      EbpfSteps.ValidConfig, RelsIn;
    WrittenTargetIsFolded(input, sections, plan, final, out, t, ri);
    hide EbpfSteps.Run;
    cs := EbpfSteps.NoOtherRuns(ProgramOf(sections[t], sections[ri], plan), c, ds, effects);
  }

  lemma TargetAfter(sections: seq<Section>, t: nat, ri: nat, plan: Plan)
    requires t < |sections| && FindRel(sections, t) == Some(ri) && FoldTarget(sections, t, plan.text, plan.l).Ok?
    requires sections[t].h.kind == SHT_PROGBITS && EntrySize(sections[ri].h.entsize) >= REL_SIZE
    requires var e := EntrySize(sections[ri].h.entsize);
             CallsText(RelsIn(sections[ri].data, e), plan.l) && |sections[t].data| % 8 == 0
    ensures var after := FoldTarget(sections, t, plan.text, plan.l).value.0;
            var e := EntrySize(sections[ri].h.entsize);
            var code := Folded(Code(sections[t].data, RelsIn(sections[ri].data, e)), plan.text, plan.l);
            && code.Ok? && after[t].h == sections[t].h && after[ri].h == sections[ri].h
            && after[t].data == code.value.data && after[ri].data == EncodeRels(code.value.rels)
  {
    hide RelsIn, Folded, EncodeRels, ValidCalls, Pruned, CallsText;
  }
}
