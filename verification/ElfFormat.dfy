/** The ELF64 section table as `src/tinycc.rs` reads it and writes it back: parsing a section
    header with its data, and re-laying out a file from a list of sections. */
module ElfFormat {
  import opened Bytes

  type u32 = x: int | 0 <= x < 0x1_0000_0000
  type u64 = x: int | 0 <= x < 0x1_0000_0000_0000_0000

  const HEADER_SIZE := 64
  const SHT_NOBITS: u32 := 8
  /** A vector longer than this aborts the program. */
  const MAX_LEN: nat := 0x7fff_ffff_ffff_ffff

  /** `Err` stands for an error return or a panic: either way no file is produced. */
  datatype Result<+T> = Ok(value: T) | Err

  datatype Header = Header(
    nameOffset: u32, kind: u32, flags: u64, addr: u64, offset: u64, size: u64,
    link: u32, info: u32, addralign: u64, entsize: u64)

  datatype Section = Section(h: Header, data: seq<byte>)

  lemma Widths()
    ensures Pow256(2) == 0x1_0000
    ensures Pow256(4) == 0x1_0000_0000
    ensures Pow256(8) == 0x1_0000_0000_0000_0000
  {
    assert Pow256(2) == 0x1_0000;
    assert Pow256(4) == 256 * 256 * Pow256(2);
    assert Pow256(6) == 256 * 256 * Pow256(4);
    assert Pow256(8) == 256 * 256 * Pow256(6);
  }

  function U32(b: seq<byte>): (v: u32)
    requires |b| == 4
  {
    Widths();
    FromLE(b)
  }

  function U64(b: seq<byte>): (v: u64)
    requires |b| == 8
  {
    Widths();
    FromLE(b)
  }

  // ---------------------------------------------------------------- one section header

  function EncodeHeader(h: Header): (b: seq<byte>)
    ensures |b| == HEADER_SIZE
  {
    LE(4, h.nameOffset) + LE(4, h.kind) + LE(8, h.flags) + LE(8, h.addr) + LE(8, h.offset)
    + LE(8, h.size) + LE(4, h.link) + LE(4, h.info) + LE(8, h.addralign) + LE(8, h.entsize)
  }

  function DecodeHeader(b: seq<byte>): (h: Header)
    requires |b| == HEADER_SIZE
  {
    Header(U32(b[0..4]), U32(b[4..8]), U64(b[8..16]), U64(b[16..24]), U64(b[24..32]),
           U64(b[32..40]), U32(b[40..44]), U32(b[44..48]), U64(b[48..56]), U64(b[56..64]))
  }

  lemma U32OfLE(v: u32)
    ensures U32(LE(4, v)) == v
  {
    Widths();
    FromLEOfLE(4, v);
  }

  lemma U64OfLE(v: u64)
    ensures U64(LE(8, v)) == v
  {
    Widths();
    FromLEOfLE(8, v);
  }

  lemma FirstFields(a: seq<byte>, b: seq<byte>, c: seq<byte>, d: seq<byte>, e: seq<byte>, s: seq<byte>)
    requires |a| == |b| == 4 && |c| == |d| == |e| == 8 && a + b + c + d + e <= s
    ensures s[0..4] == a && s[4..8] == b && s[8..16] == c && s[16..24] == d && s[24..32] == e
  {
    var t := a + b + c + d + e;
    assert t[0..4] == a && t[4..8] == b && t[8..16] == c && t[16..24] == d && t[24..32] == e;
    assert s[0..4] == t[0..4] && s[4..8] == t[4..8] && s[8..16] == t[8..16];
    assert s[16..24] == t[16..24] && s[24..32] == t[24..32];
  }

  lemma LastFields(a: seq<byte>, b: seq<byte>, c: seq<byte>, d: seq<byte>, e: seq<byte>, s: seq<byte>)
    requires |b| == |c| == 4 && |a| == |d| == |e| == 8 && s == a + b + c + d + e
    ensures s[0..8] == a && s[8..12] == b && s[12..16] == c && s[16..24] == d && s[24..32] == e
  {
  }

  lemma Behind(b: seq<byte>, back: seq<byte>)
    requires |b| == 64 && b[32..] == back
    ensures b[32..40] == back[0..8] && b[40..44] == back[8..12] && b[44..48] == back[12..16]
    ensures b[48..56] == back[16..24] && b[56..64] == back[24..32]
  {
  }

  lemma HeaderRoundTrip(h: Header)
    ensures DecodeHeader(EncodeHeader(h)) == h
  {
    hide LE, U32, U64;
    var b := EncodeHeader(h);
    FirstFields(LE(4, h.nameOffset), LE(4, h.kind), LE(8, h.flags), LE(8, h.addr), LE(8, h.offset), b);
    var back := LE(8, h.size) + LE(4, h.link) + LE(4, h.info) + LE(8, h.addralign) + LE(8, h.entsize);
    LastFields(LE(8, h.size), LE(4, h.link), LE(4, h.info), LE(8, h.addralign), LE(8, h.entsize), back);
    assert b[32..] == back;
    Behind(b, back);
    U32OfLE(h.nameOffset); U32OfLE(h.kind); U32OfLE(h.link); U32OfLE(h.info);
    U64OfLE(h.flags); U64OfLE(h.addr); U64OfLE(h.offset); U64OfLE(h.size);
    U64OfLE(h.addralign); U64OfLE(h.entsize);
  }

  /** Where the fields stand and how: name, kind, link and info in four bytes, the others in eight, low
      byte first. */
  lemma HeaderFields(b: seq<byte>)
    requires |b| == HEADER_SIZE
    ensures var h := DecodeHeader(b);
            && h.nameOffset == Four(b, 0) && h.kind == Four(b, 4) && h.flags == Eight(b, 8)
            && h.addr == Eight(b, 16) && h.offset == Eight(b, 24) && h.size == Eight(b, 32)
            && h.link == Four(b, 40) && h.info == Four(b, 44) && h.addralign == Eight(b, 48)
            && h.entsize == Eight(b, 56)
  {
    FourIs(b, 0); FourIs(b, 4); FourIs(b, 40); FourIs(b, 44);
    EightIs(b, 8); EightIs(b, 16); EightIs(b, 24); EightIs(b, 32); EightIs(b, 48); EightIs(b, 56);
    hide U32, U64, Four, Eight;
  }

  function Four(b: seq<byte>, i: nat): (v: int)
    requires i + 4 <= |b|
  {
    b[i] as int + 0x100 * (b[i + 1] as int) + 0x1_0000 * (b[i + 2] as int) + 0x100_0000 * (b[i + 3] as int)
  }

  function Eight(b: seq<byte>, i: nat): (v: int)
    requires i + 8 <= |b|
  {
    Four(b, i) + 0x1_0000_0000 * Four(b, i + 4)
  }

  lemma FourIs(b: seq<byte>, i: nat)
    requires i + 4 <= |b|
    ensures U32(b[i..i + 4]) == Four(b, i)
  {
    FromLEIs(b[i..i + 4]);
    hide FromLE;
  }

  lemma EightIs(b: seq<byte>, i: nat)
    requires i + 8 <= |b|
    ensures U64(b[i..i + 8]) == Eight(b, i)
  {
    var s := b[i..i + 8];
    FromLEIs(s);
    FourIs(b, i);
    FourIs(b, i + 4);
    assert s[..4] == b[i..i + 4] && s[4..] == b[i + 4..i + 8];
    hide FromLE, Four;
  }

  // ---------------------------------------------------------------- reading sections

  function SectionData(input: seq<byte>, h: Header): (r: Result<seq<byte>>)
    ensures r.Ok? && h.kind != SHT_NOBITS ==> |r.value| == h.size
  {
    if h.kind == SHT_NOBITS || h.size == 0 then Ok([])
    else if h.offset + h.size > |input| then Err
    else Ok(input[h.offset..h.offset + h.size])
  }

  /** The section whose header is at `off`. */
  function SectionAt(input: seq<byte>, off: nat): (r: Result<Section>) {
    if off + HEADER_SIZE > |input| then Err
    else
      var h := DecodeHeader(input[off..off + HEADER_SIZE]);
      match SectionData(input, h)
      case Ok(data) => Ok(Section(h, data))
      case Err => Err
  }

  /** Entry `i` of the section table at `shoff`. */
  function Entry(input: seq<byte>, shoff: nat, i: nat): (r: Result<Section>) {
    SectionAt(input, shoff + i * HEADER_SIZE)
  }

  method ParseSections(input: seq<byte>, shoff: nat, shnum: nat) returns (r: Result<seq<Section>>)
    ensures r.Ok? <==> forall i :: 0 <= i < shnum ==> Entry(input, shoff, i).Ok?
    ensures r.Ok? ==> |r.value| == shnum
    ensures r.Ok? ==> forall i :: 0 <= i < shnum ==> Entry(input, shoff, i) == Ok(r.value[i])
  {
    hide Entry;
    var sections := [];
    for i := 0 to shnum
      invariant |sections| == i
      invariant forall k :: 0 <= k < i ==> Entry(input, shoff, k) == Ok(sections[k])
    {
      var s := Entry(input, shoff, i);
      if s.Err? {
        return Err;
      }
      sections := sections + [s.value];
    }
    return Ok(sections);
  }

  // ---------------------------------------------------------------- writing sections

  function Alignment(h: Header): (a: nat)
    ensures a >= 1
  {
    if h.addralign == 0 then 1 else h.addralign
  }

  function AlignUp(n: nat, align: nat): (m: nat)
    ensures n <= m
  {
    if align <= 1 || n % align == 0 then n else n + (align - n % align)
  }

  lemma AlignUpIsAligned(n: nat, align: nat)
    requires align >= 1
    ensures AlignUp(n, align) % align == 0
  {
    if align > 1 && n % align != 0 {
      var q := n / align;
      assert n == q * align + n % align;
      assert AlignUp(n, align) == (q + 1) * align + 0;
      DivModUnique(AlignUp(n, align), align, q + 1, 0);
    }
  }

  /** Zero-pads `out` to a multiple of `align`. */
  method AlignVec(out: seq<byte>, align: nat) returns (r: Result<seq<byte>>)
    ensures r.Ok? <==> AlignUp(|out|, align) <= MAX_LEN || AlignUp(|out|, align) == |out|
    ensures r.Ok? ==> |r.value| == AlignUp(|out|, align) && out <= r.value
    ensures r.Ok? ==> forall i :: |out| <= i < |r.value| ==> r.value[i] == 0
    ensures r.Ok? && align >= 1 ==> |r.value| % align == 0
  {
    if align <= 1 {
      return Ok(out);
    }
    AlignUpIsAligned(|out|, align);
    var rem := |out| % align;
    if rem != 0 {
      var len := |out| + align - rem;
      if len > MAX_LEN {
        return Err;
      }
      return Ok(out + seq(len - |out|, i => 0));
    }
    return Ok(out);
  }

  /** Section 0 is the reserved entry; a no-bits section has no bytes in the file. */
  predicate HasFileBytes(i: nat, s: Section) {
    i != 0 && s.h.kind != 8
  }

  /** The header of `p` is that of `s` moved to a new place, and its bytes are in `out`. */
  predicate PlacedAt(out: seq<byte>, i: nat, s: Section, p: Section) {
    && p.data == s.data
    && p.h == s.h.(offset := p.h.offset, size := p.h.size)
    && (i == 0 ==> p.h.offset == 0 && p.h.size == 0)
    && (HasFileBytes(i, s) ==>
          && p.h.size == |s.data|
          && HEADER_SIZE <= p.h.offset
          && p.h.offset + p.h.size <= |out|
          && p.h.offset % Alignment(s.h) == 0
          && out[p.h.offset..p.h.offset + p.h.size] == s.data)
  }

  /** Bytes of different sections do not overlap and appear in section order. */
  predicate InOrder(placed: seq<Section>) {
    forall i, j :: 0 <= i < j < |placed| && HasFileBytes(i, placed[i]) && HasFileBytes(j, placed[j]) ==>
      placed[i].h.offset + placed[i].h.size <= placed[j].h.offset
  }

  predicate AllPlaced(out: seq<byte>, sections: seq<Section>, placed: seq<Section>) {
    && |placed| <= |sections|
    && forall i :: 0 <= i < |placed| ==> PlacedAt(out, i, sections[i], placed[i])
  }

  /** Placement only looks at bytes past the file header, and survives appending. */
  lemma PlacementSurvives(out: seq<byte>, out': seq<byte>, sections: seq<Section>, placed: seq<Section>)
    requires AllPlaced(out, sections, placed) && HEADER_SIZE <= |out| <= |out'|
    requires out'[HEADER_SIZE..|out|] == out[HEADER_SIZE..|out|]
    ensures AllPlaced(out', sections, placed)
  {
    forall i | 0 <= i < |placed| ensures PlacedAt(out', i, sections[i], placed[i]) {
      var p := placed[i].h;
      assert PlacedAt(out, i, sections[i], placed[i]);
      if HasFileBytes(i, sections[i]) {
        var a, b := p.offset, p.offset + p.size;
        SliceOfSlice(out', HEADER_SIZE, |out|, a, b);
        SliceOfSlice(out, HEADER_SIZE, |out|, a, b);
      }
    }
  }

  /** Every section's data fits in a vector. */
  predicate AreVectors(sections: seq<Section>) {
    forall i :: 0 <= i < |sections| ==> |sections[i].data| <= MAX_LEN
  }

  /** The length of the file after the first `n` sections have been laid out. */
  function EndAfter(sections: seq<Section>, n: nat): (len: nat)
    requires n <= |sections|
    ensures len >= HEADER_SIZE
  {
    if n == 0 then HEADER_SIZE
    else
      var s := sections[n - 1];
      var before := EndAfter(sections, n - 1);
      if HasFileBytes(n - 1, s) then AlignUp(before, Alignment(s.h)) + |s.data| else before
  }

  function TableOffset(sections: seq<Section>): (off: nat) {
    AlignUp(EndAfter(sections, |sections|), 8)
  }

  lemma {:induction false} EndAfterGrows(sections: seq<Section>, m: nat, n: nat)
    requires m <= n <= |sections|
    ensures EndAfter(sections, m) <= EndAfter(sections, n)
    decreases n
  {
    if m < n {
      EndAfterGrows(sections, m, n - 1);
    }
  }

  /** One more section with file bytes: `padded` extends the old bytes and its data follows. */
  lemma PlaceBytes(before: seq<byte>, padded: seq<byte>, sections: seq<Section>, placed: seq<Section>)
    requires |placed| < |sections| && HasFileBytes(|placed|, sections[|placed|])
    requires HEADER_SIZE <= |before| && before <= padded && |padded| <= MAX_LEN
    requires |sections[|placed|].data| <= MAX_LEN && |padded| % Alignment(sections[|placed|].h) == 0
    requires AllPlaced(before, sections, placed) && InOrder(placed)
    ensures var s := sections[|placed|];
            var p := s.(h := s.h.(offset := |padded|, size := |s.data|));
            AllPlaced(padded + s.data, sections, placed + [p]) && InOrder(placed + [p])
  {
    var s := sections[|placed|];
    var out := padded + s.data;
    assert out[..|before|] == before by { assert padded[..|before|] == before; }
    SlicesOfPrefix(before, out);
    PlacementSurvives(before, out, sections, placed);
    assert out[|padded|..|padded| + |s.data|] == s.data;
    forall i | 0 <= i < |placed| && HasFileBytes(i, placed[i])
      ensures placed[i].h.offset + placed[i].h.size <= |before|
    {
      assert PlacedAt(before, i, sections[i], placed[i]);
    }
  }

  /** One more section without file bytes. */
  lemma PlaceNothing(out: seq<byte>, sections: seq<Section>, placed: seq<Section>, offset: u64, size: u64)
    requires |placed| < |sections| && !HasFileBytes(|placed|, sections[|placed|])
    requires |placed| == 0 ==> offset == 0 && size == 0
    requires AllPlaced(out, sections, placed) && InOrder(placed)
    ensures var s := sections[|placed|];
            var p := s.(h := s.h.(offset := offset, size := size));
            AllPlaced(out, sections, placed + [p]) && InOrder(placed + [p])
  {
  }

  /** Lays the section data out after the 64-byte file header. */
  method PlaceSections(fileHeader: seq<byte>, sections: seq<Section>)
    returns (r: Result<(seq<byte>, seq<Section>)>)
    requires |fileHeader| == HEADER_SIZE && AreVectors(sections)
    ensures r.Ok? <==> EndAfter(sections, |sections|) <= MAX_LEN
    ensures r.Ok? ==>
              var (out, placed) := r.value;
              && |out| == EndAfter(sections, |sections|) && out[..HEADER_SIZE] == fileHeader
              && |placed| == |sections| && AllPlaced(out, sections, placed) && InOrder(placed)
  {
    hide AlignUp, AllPlaced, InOrder;
    var out, placed := fileHeader, [];
    NothingPlaced(out, sections);
    for i := 0 to |sections|
      invariant |placed| == i
      invariant |out| == EndAfter(sections, i) <= MAX_LEN && out[..HEADER_SIZE] == fileHeader
      invariant AllPlaced(out, sections, placed) && InOrder(placed)
    {
      var s := sections[i];
      EndAfterGrows(sections, i + 1, |sections|);
      if i == 0 {
        PlaceNothing(out, sections, placed, 0, 0);
        placed := placed + [s.(h := s.h.(offset := 0, size := 0))];
      } else if s.h.kind == SHT_NOBITS {
        PlaceNothing(out, sections, placed, |out|, |s.data|);
        placed := placed + [s.(h := s.h.(offset := |out|, size := |s.data|))];
      } else {
        var padded := AlignVec(out, Alignment(s.h));
        if padded.Err? || |padded.value| + |s.data| > MAX_LEN { return Err; }
        PlaceBytes(out, padded.value, sections, placed);
        placed := placed + [s.(h := s.h.(offset := |padded.value|, size := |s.data|))];
        out := padded.value + s.data;
      }
    }
    return Ok((out, placed));
  }

  lemma NothingPlaced(out: seq<byte>, sections: seq<Section>)
    ensures AllPlaced(out, sections, []) && InOrder([])
  {
  }

  function EncodeHeaders(placed: seq<Section>): (b: seq<byte>)
    ensures |b| == HEADER_SIZE * |placed|
  {
    if placed == [] then [] else EncodeHeaders(placed[..|placed| - 1]) + EncodeHeader(placed[|placed| - 1].h)
  }

  lemma {:induction false} HeaderInTable(placed: seq<Section>, i: nat)
    requires i < |placed|
    ensures EncodeHeaders(placed)[i * HEADER_SIZE..(i + 1) * HEADER_SIZE] == EncodeHeader(placed[i].h)
  {
    hide EncodeHeader;
    var n := |placed| - 1;
    var rest := EncodeHeaders(placed[..n]);
    if i < n {
      HeaderInTable(placed[..n], i);
      assert EncodeHeaders(placed)[i * HEADER_SIZE..(i + 1) * HEADER_SIZE] ==
             rest[i * HEADER_SIZE..(i + 1) * HEADER_SIZE];
    }
  }

  /** A rebuilt file: where its section table is and what reading it back gives. */
  ghost predicate HoldsSections(out: seq<byte>, shoff: nat, sections: seq<Section>, placed: seq<Section>) {
    && |placed| == |sections|
    && |out| == shoff + HEADER_SIZE * |sections|
    && InOrder(placed)
    && forall i :: 0 <= i < |sections| ==> ReadsBack(out, shoff, i, sections[i], placed[i])
  }

  /** Entry `i` reads back with the same fields, the same bytes, at an aligned place before the table. */
  ghost predicate ReadsBack(out: seq<byte>, shoff: nat, i: nat, s: Section, p: Section) {
    && Entry(out, shoff, i) == Ok(Section(p.h, if HasFileBytes(i, s) then s.data else []))
    && p.h == s.h.(offset := p.h.offset, size := p.h.size)
    && (HasFileBytes(i, s) ==>
          && p.h.size == |s.data|
          && HEADER_SIZE <= p.h.offset && p.h.offset + p.h.size <= shoff
          && p.h.offset % Alignment(s.h) == 0)
  }

  lemma PlacedReadsBack(body: seq<byte>, out: seq<byte>, i: nat, s: Section, p: Section)
    requires PlacedAt(body, i, s, p) && HEADER_SIZE <= |body| <= |out|
    requires out[HEADER_SIZE..|body|] == body[HEADER_SIZE..|body|]
    requires |body| + (i + 1) * HEADER_SIZE <= |out|
    requires out[|body| + i * HEADER_SIZE..|body| + (i + 1) * HEADER_SIZE] == EncodeHeader(p.h)
    ensures ReadsBack(out, |body|, i, s, p)
  {
    hide EncodeHeader, DecodeHeader;
    HeaderRoundTrip(p.h);
    if HasFileBytes(i, s) {
      var a, b := p.h.offset, p.h.offset + p.h.size;
      SliceOfSlice(out, HEADER_SIZE, |body|, a, b);
      SliceOfSlice(body, HEADER_SIZE, |body|, a, b);
    }
  }

  lemma AllReadBack(body: seq<byte>, out: seq<byte>, sections: seq<Section>, placed: seq<Section>)
    requires |placed| == |sections| && AllPlaced(body, sections, placed) && InOrder(placed)
    requires HEADER_SIZE <= |body| && |out| == |body| + HEADER_SIZE * |placed|
    requires out[HEADER_SIZE..|body|] == body[HEADER_SIZE..|body|]
    requires out[|body|..|out|] == EncodeHeaders(placed)
    ensures HoldsSections(out, |body|, sections, placed)
  {
    hide PlacedAt, InOrder, ReadsBack, EncodeHeader, EncodeHeaders;
    forall i | 0 <= i < |sections| ensures ReadsBack(out, |body|, i, sections[i], placed[i]) {
      HeaderInTable(placed, i);
      SliceOfSlice(out, |body|, |out|, |body| + i * HEADER_SIZE, |body| + (i + 1) * HEADER_SIZE);
      PlacedReadsBack(body, out, i, sections[i], placed[i]);
    }
  }

  method AppendHeaders(body: seq<byte>, placed: seq<Section>) returns (out: seq<byte>)
    ensures out == body + EncodeHeaders(placed)
  {
    hide EncodeHeader;
    out := body;
    for i := 0 to |placed|
      invariant out == body + EncodeHeaders(placed[..i])
    {
      out := out + EncodeHeader(placed[i].h);
      assert placed[..i + 1][..i] == placed[..i];
    }
    assert placed[..|placed|] == placed;
  }

  /** Writes a file with the given sections behind the file header of `input`, whose pointer to the
      section table (bytes 40 to 48) is replaced. */
  method RebuildElf(input: seq<byte>, sections: seq<Section>) returns (r: Result<seq<byte>>)
    requires |input| >= HEADER_SIZE && AreVectors(sections)
    ensures r.Ok? <==> TableOffset(sections) + HEADER_SIZE * |sections| <= MAX_LEN
    ensures r.Ok? ==>
              var shoff := TableOffset(sections);
              && |r.value| == shoff + HEADER_SIZE * |sections| && shoff >= HEADER_SIZE && shoff % 8 == 0
              && r.value[..40] == input[..40] && r.value[48..64] == input[48..64]
              && U64(r.value[40..48]) == shoff
              && exists placed :: HoldsSections(r.value, shoff, sections, placed)
  {
    hide AllPlaced, EncodeHeaders, LE, U64, InOrder, HoldsSections;
    var laid := PlaceSections(input[..HEADER_SIZE], sections);
    if laid.Err? { return Err; }
    var (out, placed) := laid.value;
    var padded := AlignVec(out, 8);
    if padded.Err? { return Err; }
    var body := padded.value;
    assert body[..|out|] == out;
    SlicesOfPrefix(out, body);
    PlacementSurvives(out, body, sections, placed);
    var shoff := |body|;
    out := AppendHeaders(body, placed);
    if |out| > MAX_LEN { return Err; }
    SlicesOfPatched(body, EncodeHeaders(placed), LE(8, shoff));
    out := out[..40] + LE(8, shoff) + out[48..];
    U64OfLE(shoff);
    AllReadBack(body, out, sections, placed);
    return Ok(out);
  }

  lemma SlicesOfPrefix(out: seq<byte>, body: seq<byte>)
    requires HEADER_SIZE <= |out| && out <= body
    ensures body[HEADER_SIZE..|out|] == out[HEADER_SIZE..|out|]
    ensures body[..40] == out[..HEADER_SIZE][..40] && body[48..64] == out[..HEADER_SIZE][48..64]
  {
    assert body[..|out|] == out;
  }

  lemma SlicesOfPatched(body: seq<byte>, table: seq<byte>, field: seq<byte>)
    requires HEADER_SIZE <= |body| && |field| == 8
    ensures var out := (body + table)[..40] + field + (body + table)[48..];
            && |out| == |body| + |table|
            && out[..40] == body[..40] && out[40..48] == field && out[48..64] == body[48..64]
            && out[HEADER_SIZE..|body|] == body[HEADER_SIZE..|body|]
            && out[|body|..|out|] == table
  {
    var whole := body + table;
    var out := whole[..40] + field + whole[48..];
    assert forall i :: 48 <= i < |out| ==> out[i] == whole[i];
  }
}
