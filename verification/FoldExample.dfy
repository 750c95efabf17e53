/** A small object file that the folding pass rewrites: one script section that calls a function in
    `.text`. It meets all the conditions of the theorems about written files at once. */
module FoldExample {
  import opened Bytes
  import opened Text
  import opened ElfFormat
  import opened Relocations
  import opened TextFolding
  import EbpfSteps
  import opened FoldDriver

  // ---------------------------------------------------------------- the file

  /** A NUL, `.text`, a NUL, `zeroserve.`, a NUL. */
  function Names(): (b: seq<byte>) { [0] + DOT_TEXT + [0] + ZEROSERVE + [0] }

  function Symtab(): (b: seq<byte>) { LE(4, 0) + [18, 0] + LE(2, 1) + LE(8, 8) + LE(8, 0) }

  function Head(nameOffset: u32, kind: u32, flags: u64, link: u32, info: u32): (h: Header) {
    Header(nameOffset, kind, flags, 0, 0, 0, link, info, 1, 0)
  }

  /** The reserved entry, `.text`, the script, its relocations, the symbols and the names. */
  function Sections(): (s: seq<Section>) {
    var p := EbpfSteps.Caller(Names());
    [Section(Head(0, 0, 0, 0, 0), []),
     Section(Head(1, SHT_PROGBITS, SHF_ALLOC_EXEC, 0, 0), p.text.data),
     Section(Head(7, SHT_PROGBITS, SHF_ALLOC_EXEC, 0, 0), p.own.data),
     Section(Head(0, SHT_REL, 0, 4, 2), EncodeRels(p.own.rels)),
     Section(Head(0, SHT_SYMTAB, 0, 5, 0), Symtab()),
     Section(Head(0, 3, 0, 0, 0), Names())]
  }

  const ZEROS: seq<byte> := [0, 0, 0, 0, 0, 0, 0, 0]

  /** The file header: a 64-bit little-endian BPF object with six sections, the last one the names. */
  const FILE_HEADER: seq<byte> :=
    [0x7f, 0x45, 0x4c, 0x46, 2, 1, 0, 0] + ZEROS + [1, 0, 247, 0, 0, 0, 0, 0] + ZEROS + ZEROS + ZEROS +
    ZEROS + [0, 0, 64, 0, 6, 0, 5, 0]

  /** Sections with these contents, wherever they lie in a file. */
  predicate Like(sections: seq<Section>) {
    && |sections| == 6
    && forall i :: 0 <= i < 6 ==> LikeOne(sections[i], Sections()[i])
  }

  predicate LikeOne(s: Section, t: Section) {
    s.data == t.data && s.h == t.h.(offset := s.h.offset, size := s.h.size)
  }

  // ---------------------------------------------------------------- names

  lemma {:induction false} UntilNulOf(name: seq<byte>, rest: seq<byte>)
    requires forall i :: 0 <= i < |name| ==> name[i] != 0
    ensures UntilNul(name + [0] + rest) == Some(name)
  {
    var s := name + [0] + rest;
    if name != [] {
      assert s[1..] == name[1..] + [0] + rest;
      UntilNulOf(name[1..], rest);
      assert [name[0]] + name[1..] == name;
    }
  }

  lemma NameAt(data: seq<byte>, offset: nat, name: seq<byte>, rest: seq<byte>)
    requires offset <= |data| && data[offset..] == name + [0] + rest
    requires forall i :: 0 <= i < |name| ==> 0 < name[i] < 128
    ensures CStr(data, offset) == Some(name)
  {
    UntilNulOf(name, rest);
    AsciiIsUtf8(name);
    hide UntilNul, IsUtf8;
  }

  lemma NamesAre()
    ensures CStr(Names(), 0) == Some([]) && CStr(Names(), 1) == Some(DOT_TEXT) && CStr(Names(), 7) == Some(ZEROSERVE)
  {
    NameSlices(DOT_TEXT, ZEROSERVE);
    TextBytes();
    hide CStr;
    NameAt(Names(), 0, [], DOT_TEXT + [0] + ZEROSERVE + [0]);
    NameAt(Names(), 1, DOT_TEXT, ZEROSERVE + [0]);
    NameAt(Names(), 7, ZEROSERVE, []);
  }

  lemma NameSlices(a: seq<byte>, b: seq<byte>)
    requires |a| == 5
    ensures var s := [0] + a + [0] + b + [0];
            && s[0..] == [] + [0] + (a + [0] + b + [0])
            && s[1..] == a + [0] + (b + [0])
            && s[7..] == b + [0] + []
  {
  }

  lemma TextBytes()
    ensures |DOT_TEXT| == 5 && forall i :: 0 <= i < 5 ==> 0 < DOT_TEXT[i] < 128
    ensures |ZEROSERVE| == 10 && forall i :: 0 <= i < 10 ==> 0 < ZEROSERVE[i] < 128
  {
  }

  // ---------------------------------------------------------------- the plan

  lemma LikeAt(sections: seq<Section>, i: nat)
    requires Like(sections) && i < 6
    ensures LikeOne(sections[i], Sections()[i])
  {
    hide Sections, LikeOne;
  }

  /** What the pass looks at in each section. */
  lemma Contents(sections: seq<Section>)
    requires Like(sections)
    ensures |sections| == 6
    ensures var p := EbpfSteps.Caller(Names());
            && sections[1].data == p.text.data && sections[2].data == p.own.data
            && sections[3].data == EncodeRels(p.own.rels) && sections[4].data == Symtab() && sections[5].data == Names()
    ensures sections[3].h.entsize == 0 && sections[4].h.entsize == 0 && sections[4].h.link == 5
    ensures forall i: nat :: i < 6 ==> KindOk(sections, i)
  {
    forall i: nat | i < 6
      ensures LikeOne(sections[i], Sections()[i])
    {
      LikeAt(sections, i);
    }
    hide Like, Names, Symtab, EncodeRels, EbpfSteps.Caller;
  }

  predicate KindOk(sections: seq<Section>, i: nat)
    requires i < |sections|
  {
    && sections[i].h.nameOffset == (if i == 1 then 1 else if i == 2 then 7 else 0)
    && (IsCode(sections[i]) <==> i == 1 || i == 2)
    && (sections[i].h.kind == SHT_SYMTAB <==> i == 4)
    && (sections[i].h.kind == SHT_REL <==> i == 3)
    && (i == 3 ==> sections[i].h.info == 2)
    && sections[i].h.addralign == 1
  }

  lemma Named(sections: seq<Section>, i: nat)
    requires Like(sections) && i < 6
    ensures NameOf(sections, 5, i) == if i == 1 then DOT_TEXT else if i == 2 then ZEROSERVE else []
  {
    Contents(sections);
    assert KindOk(sections, i);
    hide Like, Names, EncodeRels, EbpfSteps.Caller, Symtab, CStr;
    NamesAre();
  }

  lemma SymtabFields()
    ensures var s := Symtab();
            && |s| == 24 && s[..24] == s && s[24..] == []
            && s[0..4] == LE(4, 0) && s[6..8] == LE(2, 1) && s[8..16] == LE(8, 8)
  {
    hide LE;
  }

  lemma Symbols()
    ensures SymbolsIn(Symtab(), SYM_SIZE) == [Symbol(0, 1, 8)]
  {
    hide LE, U32, U64, Symtab;
    SymtabFields();
    U32OfLE(0);
    U64OfLE(8);
    assert U16(LE(2, 1)) == 1 by { Widths(); FromLEOfLE(2, 1); }
    hide U16;
    assert SymbolAt(Symtab()) == Symbol(0, 1, 8);
    assert SymbolsIn([], SYM_SIZE) == [];
  }

  lemma FoundText(sections: seq<Section>)
    requires Like(sections)
    ensures FindText(sections, 5, 0) == Some(1)
  {
    hide Like, NameOf, Names, EncodeRels, EbpfSteps.Caller, Symtab;
    Contents(sections);
    Named(sections, 0);
    Named(sections, 1);
    assert KindOk(sections, 1);
    hide IsCode;
    assert FindText(sections, 5, 1) == Some(1);
  }

  lemma FoundOthers(sections: seq<Section>)
    requires Like(sections)
    ensures FindSymtab(sections, 0) == Some(4) && FindRel(sections, 1) == None && FindRel(sections, 2) == Some(3)
  {
    hide Like, Names, EncodeRels, EbpfSteps.Caller, Symtab;
    Contents(sections);
    assert KindOk(sections, 0) && KindOk(sections, 1) && KindOk(sections, 2);
    assert KindOk(sections, 3) && KindOk(sections, 4) && KindOk(sections, 5);
    hide KindOk;
    assert FindSymtab(sections, 4) == Some(4);
    assert FindSymtab(sections, 2) == Some(4);
    assert FindRelFrom(sections, 6, 1) == None;
    assert FindRelFrom(sections, 4, 1) == None;
    assert FindRelFrom(sections, 2, 1) == None;
    assert FindRelFrom(sections, 3, 2) == Some(3);
    assert FindRelFrom(sections, 1, 2) == Some(3);
  }

  lemma TargetIff(sections: seq<Section>, i: nat)
    requires Like(sections) && i < 6
    ensures IsTarget(sections, 5, 1, i) <==> i == 2
  {
    hide Like, NameOf, Names, EncodeRels, EbpfSteps.Caller, Symtab;
    Contents(sections);
    Named(sections, i);
    assert KindOk(sections, i);
    assert ZEROSERVE <= ZEROSERVE;
  }

  lemma OneTarget(sections: seq<Section>)
    requires Like(sections)
    ensures Targets(sections, 5, 1, 6) == [2]
  {
    hide Like, IsTarget;
    assert |sections| == 6 by { LikeSix(sections); }
    TargetIff(sections, 0);
    TargetIff(sections, 1);
    TargetIff(sections, 2);
    TargetIff(sections, 3);
    TargetIff(sections, 4);
    TargetIff(sections, 5);
    assert Targets(sections, 5, 1, 0) == [];
    assert Targets(sections, 5, 1, 1) == [];
    assert Targets(sections, 5, 1, 2) == [];
    assert Targets(sections, 5, 1, 3) == [2];
    assert Targets(sections, 5, 1, 4) == [2];
    assert Targets(sections, 5, 1, 5) == [2];
  }

  lemma LikeSix(sections: seq<Section>)
    requires Like(sections)
    ensures |sections| == 6
  {
  }

  lemma ThePlan(sections: seq<Section>)
    requires Like(sections)
    ensures var p := EbpfSteps.Caller(Names()); PlanFor(sections, 5) == Ok(Some(Plan(p.text, p.l, [2])))
  {
    hide FindText, FindSymtab, FindRel, Targets, SymbolsIn, Like, Names, Symtab, EncodeRels, KindOk;
    LikeSix(sections);
    FoundText(sections);
    FoundOthers(sections);
    OneTarget(sections);
    Symbols();
    Contents(sections);
  }

  // ---------------------------------------------------------------- folding it

  /** The folded script has no relocations left. */
  lemma FoldsClean()
    ensures var p := EbpfSteps.Caller(Names());
            Folded(p.own, p.text, p.l).Ok? && Folded(p.own, p.text, p.l).value.rels == []
  {
    var p := EbpfSteps.Caller(Names());
    EbpfSteps.CallerFolds(Names());
    EbpfSteps.CallerCalls(Names());
    EbpfSteps.KeptRels(p);
    hide Folded, IsTextCall, EbpfSteps.WellFormed, EbpfSteps.Closed, EbpfSteps.AllConventional;
    assert Shift(p.text.rels, |p.own.data|) == [];
    assert EbpfSteps.AllRels(p) == p.own.rels && p.own.rels[1..] == [];
  }

  lemma FoldsTarget(sections: seq<Section>)
    requires Like(sections)
    ensures |sections| == 6
    ensures var p := EbpfSteps.Caller(Names());
            var code := Folded(p.own, p.text, p.l);
            && code.Ok? && |code.value.data| == 32
            && FoldTarget(sections, 2, p.text, p.l) ==
               Ok((sections[2 := WithData(sections[2], code.value.data)][3 := WithData(sections[3], [])], true))
  {
    var p := EbpfSteps.Caller(Names());
    Contents(sections);
    FoundOthers(sections);
    FoldsClean();
    Lengths(sections);
    ParseInvertsWrite(p.own.rels);
    EbpfSteps.CallerCalls(Names());
    NoRels();
    hide Like, FindRel, Folded, IsTextCall, RelsIn, ValidCalls, Pruned, EncodeRels, Names, Symtab, KindOk;
    assert CallsText(p.own.rels, p.l);
    hide EbpfSteps.Caller, CallsText;
  }

  lemma FoldsToChange(sections: seq<Section>)
    requires Like(sections)
    ensures var p := EbpfSteps.Caller(Names());
            var r := FoldAll(sections, [2], p.text, p.l);
            && r.Ok? && r.value.1 && SameHeaders(sections, r.value.0)
            && forall i :: 0 <= i < 6 ==> |r.value.0[i].data| <= 100
  {
    hide Like, Folded, Names, Symtab, EbpfSteps.Caller, FoldTarget;
    FoldsTarget(sections);
    Lengths(sections);
    assert [2][1..] == [];
  }

  lemma NoRels()
    ensures EncodeRels([]) == []
  {
  }

  lemma Lengths(sections: seq<Section>)
    requires Like(sections)
    ensures forall i :: 0 <= i < 6 ==> |sections[i].data| <= 100
    ensures |sections[2].data| == 16 && |EbpfSteps.Caller(Names()).text.data| == 16
  {
    Contents(sections);
    RelLength();
    LikeAt(sections, 0);
    assert |Names()| == 18 && |Symtab()| == 24;
    hide Like, Names, Symtab, EncodeRels, KindOk;
  }

  lemma RelLength()
    ensures |EncodeRels(EbpfSteps.Caller(Names()).own.rels)| == 16
  {
    var rels := EbpfSteps.Caller(Names()).own.rels;
    assert rels[1..] == [];
    hide LE;
  }

  /** Files with a few small sections are short. */
  lemma {:induction false} EndIsNear(sections: seq<Section>, n: nat)
    requires n <= |sections|
    requires forall i :: 0 <= i < |sections| ==> |sections[i].data| <= 100 && sections[i].h.addralign == 1
    ensures EndAfter(sections, n) <= HEADER_SIZE + 100 * n
  {
    if n > 0 { EndIsNear(sections, n - 1); }
  }

  lemma FileFits(sections: seq<Section>)
    requires |sections| == 6 && forall i :: 0 <= i < 6 ==> |sections[i].data| <= 100 && sections[i].h.addralign == 1
    ensures TableOffset(sections) + HEADER_SIZE * 6 <= MAX_LEN
  {
    EndIsNear(sections, 6);
    hide EndAfter;
  }

  lemma LikeAlignment(sections: seq<Section>)
    requires Like(sections)
    ensures forall i :: 0 <= i < 6 ==> sections[i].h.addralign == 1
  {
    Contents(sections);
    hide Like;
    forall i: nat | i < 6
      ensures sections[i].h.addralign == 1
    {
      assert KindOk(sections, i);
    }
  }

  // ---------------------------------------------------------------- end to end

  lemma IsObject(input: seq<byte>)
    requires |input| >= HEADER_SIZE && input[..40] == FILE_HEADER[..40] && input[48..64] == FILE_HEADER[48..64]
    ensures IsBpfObject(input) && U16(input[60..62]) == 6 && U16(input[62..64]) == 5
  {
    var f := FILE_HEADER;
    assert |f| == 64;
    assert forall i :: 0 <= i < 40 ==> input[i] == input[..40][i] == f[i];
    assert forall i :: 48 <= i < 64 ==> input[i] == input[48..64][i - 48] == f[i];
    assert input[0..4] == ELF_MAGIC && input[4] == 2 && input[5] == 1;
    assert input[18..20] == [247, 0] && input[58..60] == [64, 0] && input[60..62] == [6, 0] && input[62..64] == [5, 0];
    TwoBytes(247);
    TwoBytes(64);
    TwoBytes(6);
    TwoBytes(5);
  }

  lemma TwoBytes(b: byte)
    ensures U16([b, 0]) == b
  {
    var s: seq<byte> := [b, 0];
    assert s[1..] == [0] && s[1..][1..] == [];
    assert FromLE([0]) == 0;
  }

  /** What a file that holds the sections reads back to. */
  lemma ReadsLike(input: seq<byte>, shoff: nat, placed: seq<Section>, sections: seq<Section>)
    requires HoldsSections(input, shoff, Sections(), placed) && |sections| == 6
    requires forall i :: 0 <= i < 6 ==> Entry(input, shoff, i) == Ok(sections[i])
    ensures Like(sections)
  {
    hide Entry;
    forall i | 0 <= i < 6
      ensures LikeOne(sections[i], Sections()[i])
    {
      assert ReadsBack(input, shoff, i, Sections()[i], placed[i]);
    }
  }

  /** Any such file is folded: there is something to do and room to do it. */
  lemma IsFolded(input: seq<byte>, sections: seq<Section>)
    requires IsBpfObject(input) && U16(input[60..62]) == 6 && U16(input[62..64]) == 5
    requires HasSections(input, sections) && Like(sections)
    ensures !NothingToDo(input) && !Fails(sections, 5)
  {
    OneParse(input, sections);
    ThePlan(sections);
    FoldsToChange(sections);
    var p := EbpfSteps.Caller(Names());
    var final := FoldAll(sections, [2], p.text, p.l).value.0;
    LikeAlignment(sections);
    assert forall i :: 0 <= i < 6 ==> final[i].h == sections[i].h;
    FileFits(final);
    hide PlanFor, FoldAll, Like, TableOffset, HasSections;
  }

  /** The conditions of `WrittenFileRunsTheSame` and `WrittenFileHasNoOtherRuns` on a file. */
  ghost predicate Meets(input: seq<byte>, sections: seq<Section>, plan: Plan, final: seq<Section>, out: seq<byte>) {
    && FoldedIn(input, sections, plan, final, out, 2, 3) && |sections| == 6 && |out| >= HEADER_SIZE
    && EntrySize(sections[3].h.entsize) == REL_SIZE
    && var p := ProgramOf(sections[2], sections[3], plan);
    EbpfSteps.WellFormed(p) && EbpfSteps.Closed(p) && EbpfSteps.AllConventional(p)
  }

  lemma MeetsAll(input: seq<byte>, sections: seq<Section>, plan: Plan, final: seq<Section>, out: seq<byte>)
    requires IsBpfObject(input) && U16(input[60..62]) == 6 && U16(input[62..64]) == 5 && Like(sections)
    requires Planned(input, sections, plan, final) && IsRebuilt(input, final, out)
    ensures Meets(input, sections, plan, final, out)
  {
    var p := EbpfSteps.Caller(Names());
    ThePlan(sections);
    FoundOthers(sections);
    Contents(sections);
    ParseInvertsWrite(p.own.rels);
    EbpfSteps.CallerFolds(Names());
    EbpfSteps.CallerCalls(Names());
    hide Like, FindRel, RelsIn, IsTextCall, EncodeRels, PlanFor, FoldAll, EbpfSteps.WellFormed,
      EbpfSteps.Closed, EbpfSteps.AllConventional;
    assert CallsText(p.own.rels, p.l);
    assert ProgramOf(sections[2], sections[3], plan) == p;
  }

  /** Writes the example file and folds it. */
  method BuildAndFold() returns (input: seq<byte>, out: seq<byte>)
    ensures exists sections, plan, final :: Meets(input, sections, plan, final, out)
  {
    hide Meets, NothingToDo, Fails, Planned, IsRebuilt, Like, HoldsSections, Entry, IsBpfObject;
    var sections := Sections();
    assert Like(sections) by { SelfLike(); }
    Lengths(sections);
    LikeAlignment(sections);
    FileFits(sections);
    assert |FILE_HEADER| == 64;
    var built := RebuildElf(FILE_HEADER, sections);
    input := built.value;
    IsObject(input);
    ghost var shoff := U64(input[40..48]);
    ghost var placed :| HoldsSections(input, TableOffset(sections), sections, placed);
    ghost var read := SectionsOf(input, shoff, placed);
    IsFolded(input, read);
    assert |input| <= MAX_LEN;
    var folded := FoldTextSubprograms(input);
    assert folded.Ok? && folded.value.Some?;
    out := folded.value.value;
    ghost var ss, plan, final :| Planned(input, ss, plan, final) && IsRebuilt(input, final, out);
    SameSections(input, ss, plan, final, read);
    MeetsAll(input, ss, plan, final, out);
  }

  lemma SelfLike()
    ensures Like(Sections())
  {
  }

  lemma SectionsOf(input: seq<byte>, shoff: nat, placed: seq<Section>) returns (sections: seq<Section>)
    requires IsBpfObject(input) && U16(input[60..62]) == 6 && shoff == U64(input[40..48])
    requires HoldsSections(input, shoff, Sections(), placed)
    ensures HasSections(input, sections) && Like(sections)
  {
    hide Entry;
    sections := seq(6, i requires 0 <= i < 6 =>
                    if Entry(input, shoff, i).Ok? then Entry(input, shoff, i).value else Sections()[i]);
    forall i | 0 <= i < 6
      ensures Entry(input, shoff, i) == Ok(sections[i])
    {
      assert ReadsBack(input, shoff, i, Sections()[i], placed[i]);
    }
    ReadsLike(input, shoff, placed, sections);
  }

  lemma SameSections(input: seq<byte>, ss: seq<Section>, plan: Plan, final: seq<Section>, read: seq<Section>)
    requires IsBpfObject(input) && Planned(input, ss, plan, final) && HasSections(input, read)
    ensures ss == read
  {
    OneParse(input, read);
  }
}
