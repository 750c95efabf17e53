/** Byte ranges (section 14 of RFC 9110) and the copy loops that send them (`src/server.rs`,
    `src/shared.rs`). */
module Ranges {
  import opened Bytes
  import Headers

  // ---------------------------------------------------------------- what a range selects

  datatype Spec = FromTo(first: nat, last: nat) | From(first: nat) | Suffix(count: nat)

  /** Whether a range selects position `k` of `size` bytes. */
  predicate Selected(s: Spec, size: nat, k: nat) {
    && k < size
    && match s
       case FromTo(a, b) => a <= k <= b
       case From(a) => a <= k
       case Suffix(n) => k + n >= size
  }

  /** The interval is the selected positions, no more and no fewer. */
  ghost predicate Exactly(start: nat, len: nat, s: Spec, size: nat) {
    start + len <= size && forall k: nat :: start <= k < start + len <==> Selected(s, size, k)
  }

  // ---------------------------------------------------------------- reading numbers and fields

  const U64: nat := 0x1_0000_0000_0000_0000

  predicate DigitsOnly(s: string) { forall i :: 0 <= i < |s| ==> '0' <= s[i] <= '9' }

  function Number(s: string): (n: nat)
    requires DigitsOnly(s)
  {
    if s == [] then 0 else 10 * Number(s[..|s| - 1]) + (s[|s| - 1] as int - '0' as int)
  }

  /** A 64-bit decimal number; a plus sign may stand in front. */
  function ParseU64(s: string): (r: Option<nat>) {
    var d := if |s| > 1 && s[0] == '+' then s[1..] else s;
    if d != [] && DigitsOnly(d) && Number(d) < U64 then Some(Number(d)) else None
  }

  /** A number in decimal. */
  function Decimal(n: nat): (s: string) {
    if n < 10 then [DIGITS[n]] else Decimal(n / 10) + [DIGITS[n % 10]]
  }

  const DIGITS: string := "0123456789"

  lemma {:induction false} DecimalNumber(n: nat)
    ensures Decimal(n) != [] && DigitsOnly(Decimal(n)) && Number(Decimal(n)) == n
  {
    var s := Decimal(n);
    assert DIGITS[n % 10] as int == '0' as int + n % 10;
    if n < 10 {
      assert s[..0] == [];
    } else {
      DecimalNumber(n / 10);
      assert s[..|s| - 1] == Decimal(n / 10);
    }
  }

  /** Reading a printed number gives it back, exactly when it fits in 64 bits. */
  lemma ParseOfDecimal(n: nat)
    ensures ParseU64(Decimal(n)) == if n < U64 then Some(n) else None
  {
    DecimalNumber(n);
    hide Number;
    assert Decimal(n)[0] != '+';
  }

  /** The text before and after the first `c`. */
  function SplitOnce(s: string, c: char): (r: Option<(string, string)>)
    ensures r.Some? ==> s == r.value.0 + [c] + r.value.1 && c !in r.value.0
    ensures r.None? <==> c !in s
  {
    if s == [] then None
    else if s[0] == c then Some(([], s[1..]))
    else
      match SplitOnce(s[1..], c)
      case None => None
      case Some((a, b)) =>
        assert s == [s[0]] + s[1..];
        Some(([s[0]] + a, b))
  }

  function Fields(s: string, c: char): (parts: seq<string>)
    ensures parts != []
    decreases |s|
  {
    match SplitOnce(s, c)
    case None => [s]
    case Some((a, b)) => [a] + Fields(b, c)
  }

  const PREFIX: string := "bytes="

  function AfterPrefix(text: string): (r: Option<string>) {
    var t := Headers.Trim(text);
    if PREFIX <= t then Some(t[|PREFIX|..]) else None
  }

  lemma {:induction false} SplitOnceIs(a: string, c: char, b: string)
    requires c !in a
    ensures SplitOnce(a + [c] + b, c) == Some((a, b))
  {
    var s := a + [c] + b;
    if a != [] {
      assert s[0] == a[0] && s[1..] == a[1..] + [c] + b;
      SplitOnceIs(a[1..], c, b);
      assert [a[0]] + a[1..] == a;
    } else {
      assert s[1..] == b;
    }
  }

  /** A list with separators between its parts. */
  function Separated(parts: seq<string>, c: char): (s: string)
    requires parts != []
  {
    if |parts| == 1 then parts[0] else parts[0] + [c] + Separated(parts[1..], c)
  }

  /** Reading such a list gives the parts back. */
  lemma {:induction false} FieldsOf(parts: seq<string>, c: char)
    requires parts != [] && forall i :: 0 <= i < |parts| ==> c !in parts[i]
    ensures Fields(Separated(parts, c), c) == parts
  {
    if |parts| > 1 {
      FieldsOf(parts[1..], c);
      SplitOnceIs(parts[0], c, Separated(parts[1..], c));
      assert parts == [parts[0]] + parts[1..];
    }
  }

  lemma DecimalTrims(n: nat)
    ensures Headers.Trim(Decimal(n)) == Decimal(n) && '-' !in Decimal(n) && ',' !in Decimal(n) && Decimal(n) != []
  {
    var s := Decimal(n);
    DecimalNumber(n);
    assert !Headers.Space(s[0]) && !Headers.Space(s[|s| - 1]);
    NoTrim(s);
    hide Decimal, Number;
  }

  lemma NoTrim(s: string)
    requires s != [] ==> !Headers.Space(s[0]) && !Headers.Space(s[|s| - 1])
    ensures Headers.Trim(s) == s
  {
    hide Headers.Space;
  }

  // ---------------------------------------------------------------- static files

  /** What the `Range` header of a static request asks for; anything else is ignored. */
  function StaticSpec(text: string): (r: Option<Spec>) {
    match AfterPrefix(text)
    case None => None
    case Some(spec) =>
      if ',' in spec then None
      else
        match SplitOnce(spec, '-')
        case None => None
        case Some((start, end)) =>
          if start == [] then
            (match ParseU64(Headers.Trim(end)) case None => None case Some(n) => Some(Suffix(n)))
          else
            match ParseU64(Headers.Trim(start))
            case None => None
            case Some(a) =>
              if Headers.Trim(end) == [] then Some(From(a))
              else match ParseU64(Headers.Trim(end)) case None => None case Some(b) => Some(FromTo(a, b))
  }

  /** The three forms with printed numbers. */
  lemma StaticReads(a: nat, b: nat)
    requires a < U64 && b < U64
    ensures StaticSpec("bytes=" + Decimal(a) + "-" + Decimal(b)) == Some(FromTo(a, b))
    ensures StaticSpec("bytes=" + Decimal(a) + "-") == Some(From(a))
    ensures StaticSpec("bytes=-" + Decimal(b)) == Some(Suffix(b))
  {
    hide StaticSpec, Decimal;
    StaticForm(Decimal(a), Decimal(b), Some(a), Some(b), a, b);
    StaticForm(Decimal(a), [], Some(a), None, a, b);
    StaticForm([], Decimal(b), None, Some(b), a, b);
    assert "bytes=" + Decimal(a) + "-" + [] == "bytes=" + Decimal(a) + "-";
    assert "bytes=" + [] + "-" + Decimal(b) == "bytes=-" + Decimal(b);
  }

  /** A header whose numbers, where there are any, are `a` and `b`. */
  lemma StaticForm(start: string, end: string, first: Option<nat>, last: Option<nat>, a: nat, b: nat)
    requires a < U64 && b < U64 && (first.Some? || last.Some?)
    requires (if first.Some? then first.value == a && start == Decimal(a) else start == [])
    requires (if last.Some? then last.value == b && end == Decimal(b) else end == [])
    ensures StaticSpec("bytes=" + start + "-" + end) ==
            Some(if first.None? then Suffix(b) else if last.None? then From(a) else FromTo(a, b))
  {
    var spec := start + "-" + end;
    hide AfterPrefix, Decimal, ParseU64, Headers.Trim, SplitOnce;
    DecimalTrims(a);
    DecimalTrims(b);
    DecimalEnds(b);
    ParseOfDecimal(a);
    ParseOfDecimal(b);
    assert spec[|spec| - 1] == if end == [] then '-' else end[|end| - 1];
    BehindPrefix(spec);
    assert "bytes=" + spec == "bytes=" + start + "-" + end;
    NoTrim([]);
    SplitOnceIs(start, '-', end);
  }

  lemma BehindPrefix(spec: string)
    requires spec != [] && !Headers.Space(spec[|spec| - 1])
    ensures AfterPrefix("bytes=" + spec) == Some(spec)
  {
    var text := "bytes=" + spec;
    assert text[0] == 'b' && text[|text| - 1] == spec[|spec| - 1];
    NoTrim(text);
    hide Headers.Trim, Headers.Space;
    assert text[6..] == spec;
  }

  lemma DecimalEnds(n: nat)
    ensures Decimal(n) != [] && !Headers.Space(Decimal(n)[|Decimal(n)| - 1])
  {
    DecimalNumber(n);
    hide Decimal, Number;
  }

  datatype Reply =
    | Whole
    | Partial(start: nat, len: nat, contentLength: nat, last: int, total: nat)
    | Unsatisfiable

  function Less1(n: nat): (m: nat) { if n == 0 then 0 else n - 1 }

  /** The answer to a `Range` header that may be used at all. */
  function StaticRange(text: string, total: nat): (r: Reply) {
    match StaticSpec(text)
    case None => Whole
    case Some(spec) =>
      var parsed: Option<(nat, nat)> :=
        match spec {
          case Suffix(n) =>
            if n == 0 then None else Some((if n >= total then 0 else total - n, Less1(total)))
          case From(a) => Some((a, Less1(total)))
          case FromTo(a, b) => Some((a, b))
        };
      match parsed
      case None => Unsatisfiable
      case Some((start, end)) =>
        if total == 0 || start >= total || end < start then Unsatisfiable
        else
          var last := if end < total - 1 then end else total - 1;
          Partial(start, last - start + 1, last - start + 1, last, total)
  }

  /** A partial answer is the selected positions, is not empty, and its headers say so; a range is
      unsatisfiable exactly when it selects nothing. */
  lemma StaticRangeIsExact(text: string, total: nat)
    ensures var r := StaticRange(text, total);
            && (r.Whole? <==> StaticSpec(text).None?)
            && (r.Partial? ==>
                  && Exactly(r.start, r.len, StaticSpec(text).value, total) && r.len > 0
                  && r.contentLength == r.len && r.last == r.start + r.len - 1 && r.total == total)
            && (StaticSpec(text).Some? ==>
                  (r.Unsatisfiable? <==> forall k: nat :: !Selected(StaticSpec(text).value, total, k)))
  {
    hide StaticSpec;
    var r := StaticRange(text, total);
    if r.Partial? { assert Selected(StaticSpec(text).value, total, r.start); }
  }

  // ---------------------------------------------------------------- the form that follows Go

  /** One element of the list: nothing, an error, a range beyond the end, or a range. */
  datatype Part = Skip | Bad | Beyond | Range(start: nat, len: nat)

  function CaddySpec(ra: string): (r: Option<Spec>) {
    match SplitOnce(ra, '-')
    case None => None
    case Some((rawStart, rawEnd)) =>
      var start, end := Headers.Trim(rawStart), Headers.Trim(rawEnd);
      if start == [] then
        if end == [] || end[0] == '-' then None
        else match ParseU64(end) case None => None case Some(n) => Some(Suffix(n))
      else
        match ParseU64(start)
        case None => None
        case Some(a) =>
          if end == [] then Some(From(a))
          else match ParseU64(end) case None => None case Some(b) => Some(FromTo(a, b))
  }

  /** The three forms with printed numbers. */
  lemma CaddyReads(a: nat, b: nat)
    requires a < U64 && b < U64
    ensures CaddySpec(Decimal(a) + "-" + Decimal(b)) == Some(FromTo(a, b))
    ensures CaddySpec(Decimal(a) + "-") == Some(From(a))
    ensures CaddySpec("-" + Decimal(b)) == Some(Suffix(b))
  {
    hide CaddySpec, Decimal;
    DecimalTrims(a);
    DecimalTrims(b);
    CaddyForm(Decimal(a), Decimal(b), a, b);
    CaddyForm(Decimal(a), [], a, b);
    CaddyForm([], Decimal(b), a, b);
    assert Decimal(a) + "-" + [] == Decimal(a) + "-";
    assert [] + "-" + Decimal(b) == "-" + Decimal(b);
  }

  lemma CaddyForm(start: string, end: string, a: nat, b: nat)
    requires a < U64 && b < U64 && (start == [] || start == Decimal(a)) && (end == [] || end == Decimal(b))
    requires start != [] || end != []
    ensures CaddySpec(start + "-" + end) ==
            Some(if start == [] then Suffix(b) else if end == [] then From(a) else FromTo(a, b))
  {
    hide Decimal, ParseU64, Headers.Trim, SplitOnce;
    DecimalTrims(a);
    DecimalTrims(b);
    ParseOfDecimal(a);
    ParseOfDecimal(b);
    NoTrim([]);
    SplitOnceIs(start, '-', end);
    assert end != [] ==> end[0] != '-';
  }

  /** The first number of an element, which is looked at before the second is parsed. */
  predicate StartsBeyond(ra: string, size: nat) {
    match SplitOnce(ra, '-')
    case None => false
    case Some((rawStart, _)) =>
      var start := Headers.Trim(rawStart);
      start != [] && ParseU64(start).Some? && ParseU64(start).value >= size
  }

  function PartOf(raw: string, size: nat): (p: Part) {
    var ra := Headers.Trim(raw);
    if ra == [] then Skip
    else if StartsBeyond(ra, size) then Beyond
    else
      match CaddySpec(ra)
      case None => Bad
      case Some(Suffix(n)) => var i := if n > size then size else n; Range(size - i, i)
      case Some(From(a)) => if a < size then Range(a, size - a) else Beyond
      case Some(FromTo(a, b)) =>
        if a > b then Bad else if a >= size then Beyond else Range(a, (if b >= size then size - 1 else b) - a + 1)
  }

  /** A range is the selected positions. It is empty exactly for a suffix of no bytes, or of an empty
      file. */
  lemma PartIsExact(raw: string, size: nat)
    requires PartOf(raw, size).Range?
    ensures var p, ra := PartOf(raw, size), Headers.Trim(raw);
            && CaddySpec(ra).Some? && Exactly(p.start, p.len, CaddySpec(ra).value, size)
            && (p.len == 0 <==> CaddySpec(ra).value.Suffix? && (CaddySpec(ra).value.count == 0 || size == 0))
  {
    hide CaddySpec, StartsBeyond, Headers.Trim;
  }

  /** The suffix of no bytes of a file of five. */
  lemma EmptySuffixExample()
    ensures PartOf("-0", 5) == Range(5, 0)
  {
    assert Headers.Trim("-0") == "-0" && SplitOnce("-0", '-') == Some(("", "0"));
    assert Headers.Trim("") == "" && Headers.Trim("0") == "0";
    assert ParseU64("0") == Some(0);
  }

  datatype Parsed = Invalid | NoOverlap | Ranges(ranges: seq<(nat, nat)>)

  /** The ranges of a list, in order. */
  function RangesOf(parts: seq<string>, size: nat): (r: seq<(nat, nat)>) {
    if parts == [] then []
    else
      var p := PartOf(parts[|parts| - 1], size);
      RangesOf(parts[..|parts| - 1], size) + if p.Range? then [(p.start, p.len)] else []
  }

  /** Some element of the list is of this kind. */
  predicate Any(parts: seq<string>, size: nat, p: Part) { exists i :: 0 <= i < |parts| && PartOf(parts[i], size) == p }

  lemma AnyNext(parts: seq<string>, i: nat, size: nat, p: Part)
    requires i < |parts|
    ensures Any(parts[..i + 1], size, p) <==> Any(parts[..i], size, p) || PartOf(parts[i], size) == p
    ensures PartOf(parts[i], size) == p ==> Any(parts, size, p)
  {
    hide PartOf;
    if Any(parts[..i], size, p) {
      var j :| 0 <= j < i && PartOf(parts[..i][j], size) == p;
      assert parts[..i + 1][j] == parts[j] == parts[..i][j];
    }
    if Any(parts[..i + 1], size, p) {
      var j :| 0 <= j < i + 1 && PartOf(parts[..i + 1][j], size) == p;
      if j < i { assert parts[..i + 1][j] == parts[j] == parts[..i][j]; }
    }
    if PartOf(parts[i], size) == p { assert parts[..i + 1][i] == parts[i]; }
  }

  lemma AnyNone(size: nat)
    ensures !Any([], size, Bad) && !Any([], size, Beyond)
  {
  }

  method ParsePart(raw: string, size: nat) returns (p: Part)
    ensures p == PartOf(raw, size)
  {
    hide ParseU64, Headers.Trim, SplitOnce;
    var ra := Headers.Trim(raw);
    if ra == [] { return Skip; }
    var halves := SplitOnce(ra, '-');
    if halves.None? { return Bad; }
    var start, end := Headers.Trim(halves.value.0), Headers.Trim(halves.value.1);
    if start == [] {
      if end == [] || end[0] == '-' { return Bad; }
      var n := ParseU64(end);
      if n.None? { return Bad; }
      var i := if n.value > size then size else n.value;
      return Range(size - i, size - (size - i));
    }
    var a := ParseU64(start);
    if a.None? { return Bad; }
    if a.value >= size { return Beyond; }
    if end == [] { return Range(a.value, size - a.value); }
    var b := ParseU64(end);
    if b.None? || a.value > b.value { return Bad; }
    var last := if b.value >= size then size - 1 else b.value;
    p := Range(a.value, last - a.value + 1);
  }

  method ParseByteRangeSpec(spec: string, size: nat) returns (r: Parsed)
    ensures var parts := Fields(spec, ',');
            && (r.Invalid? <==> Any(parts, size, Bad))
            && (r.NoOverlap? <==> !Any(parts, size, Bad) && Any(parts, size, Beyond) && RangesOf(parts, size) == [])
            && (r.Ranges? ==> r.ranges == RangesOf(parts, size))
  {
    hide CaddySpec, StartsBeyond, Headers.Trim, Fields;
    hide PartOf, Any;
    var parts := Fields(spec, ',');
    AnyNone(size);
    var ranges: seq<(nat, nat)> := [];
    var noOverlap := false;
    for i := 0 to |parts|
      invariant !Any(parts[..i], size, Bad)
      invariant noOverlap <==> Any(parts[..i], size, Beyond)
      invariant ranges == RangesOf(parts[..i], size)
    {
      assert parts[..i + 1][..i] == parts[..i] && parts[..i + 1][i] == parts[i];
      AnyNext(parts, i, size, Bad);
      AnyNext(parts, i, size, Beyond);
      var part := ParsePart(parts[i], size);
      match part {
        case Skip =>
        case Bad => return Invalid;
        case Beyond => noOverlap := true;
        case Range(start, len) => ranges := ranges + [(start, len)];
      }
    }
    assert parts[..|parts|] == parts;
    if noOverlap && ranges == [] { return NoOverlap; }
    r := Ranges(ranges);
  }

  /** The answer to a `Range` header in the form that follows Go, for a method that may have one. More
      than one range is answered with the whole content, whatever their lengths add up to. */
  method ApplyCaddyRange(text: string, size: nat) returns (r: Reply)
    ensures var parts := if AfterPrefix(text).Some? then Fields(AfterPrefix(text).value, ',') else [];
            var malformed := AfterPrefix(text).None? || Any(parts, size, Bad);
            && (r.Partial? <==> !malformed && |RangesOf(parts, size)| == 1)
            && (r.Unsatisfiable? <==>
                malformed || (Any(parts, size, Beyond) && RangesOf(parts, size) == [] && size > 0))
    ensures r.Partial? ==>
              && r.start + r.len <= size && r.contentLength == r.len && r.last == r.start + r.len - 1 && r.total == size
              && exists part :: SinglePart(text, size, part) &&
                   Exactly(r.start, r.len, CaddySpec(Headers.Trim(part)).value, size)
  {
    hide Headers.Trim, ParseU64, PartOf, CaddySpec, Any, RangesOf, Fields;
    var spec := AfterPrefix(text);
    if spec.None? { return Unsatisfiable; }
    var parsed := ParseByteRangeSpec(spec.value, size);
    match parsed {
      case Invalid => return Unsatisfiable;
      case NoOverlap => return if size == 0 then Whole else Unsatisfiable;
      case Ranges(ranges) =>
        if |ranges| != 1 { return Whole; }
        ghost var part := OnlyRange(Fields(spec.value, ','), size);
        PartIsExact(part, size);
        var (start, len) := ranges[0];
        assert SinglePart(text, size, part);
        var last: int := start;
        r := Partial(start, len, len, last + len - 1, size);
    }
  }

  /** `part` is an element of the header's list and the only one that gives a range. */
  predicate SinglePart(text: string, size: nat, part: string) {
    && AfterPrefix(text).Some? && PartOf(part, size).Range? && CaddySpec(Headers.Trim(part)).Some?
    && part in Fields(AfterPrefix(text).value, ',')
    && RangesOf(Fields(AfterPrefix(text).value, ','), size) == [(PartOf(part, size).start, PartOf(part, size).len)]
  }

  lemma {:induction false} OnlyRange(parts: seq<string>, size: nat) returns (part: string)
    requires |RangesOf(parts, size)| == 1
    ensures part in parts && PartOf(part, size).Range?
    ensures RangesOf(parts, size) == [(PartOf(part, size).start, PartOf(part, size).len)]
  {
    hide PartOf;
    var last := parts[|parts| - 1];
    if PartOf(last, size).Range? {
      part := last;
      assert |RangesOf(parts[..|parts| - 1], size)| == 0;
    } else {
      part := OnlyRange(parts[..|parts| - 1], size);
    }
  }

  // ---------------------------------------------------------------- copying a range

  /** How many bytes a positional read gives: as many as it likes, up to the room and to the end. */
  function Got(file: seq<byte>, offset: nat, room: nat, wanted: nat): (n: nat)
    ensures (n <= room && offset + n <= |file|) || n == 0
  {
    var there := if offset < |file| then |file| - offset else 0;
    var most := if room < there then room else there;
    if wanted < most then wanted else most
  }

  /** What has been copied is the beginning of the file from `offset` on. */
  predicate Copied(file: seq<byte>, offset: nat, copied: seq<byte>) {
    copied != [] ==> offset + |copied| <= |file| && copied == file[offset..offset + |copied|]
  }

  lemma CopiedNothing(file: seq<byte>, offset: nat)
    ensures Copied(file, offset, [])
  {
  }

  lemma CopiedAll(file: seq<byte>, offset: nat, copied: seq<byte>)
    requires Copied(file, offset, copied) && copied != []
    ensures offset + |copied| <= |file| && copied == file[offset..offset + |copied|]
  {
  }

  lemma CopiedMore(file: seq<byte>, offset: nat, copied: seq<byte>, n: nat)
    requires Copied(file, offset, copied) && offset + |copied| + n <= |file|
    ensures Copied(file, offset, copied + file[offset + |copied|..offset + |copied| + n])
  {
    var at := offset + |copied|;
    assert file[offset..at] + file[at..at + n] == file[offset..at + n];
  }

  /** Copies `len` bytes from `offset`; `answers` says how each read goes and `writes` how each write
      does: one that fails has got rid of some of its bytes but not of all. A copy that succeeds is the
      exact slice, and one that fails has sent only a beginning of it. */
  method StreamRange(file: seq<byte>, offset: nat, len: nat, chunkSize: nat,
                     answers: nat -> Option<nat>, writes: nat -> Option<nat>)
    returns (ok: bool, out: seq<byte>)
    ensures |out| <= len && Copied(file, offset, out)
    ensures ok <==> |out| == len
  {
    out := [];
    var remaining: nat, at: nat, i: nat := len, offset, 0;
    while remaining > 0
      invariant |out| + remaining == len && at == offset + |out|
      invariant Copied(file, offset, out)
    {
      var room := if remaining < chunkSize then remaining else chunkSize;
      if answers(i).None? { return false, out; }
      var n := Got(file, at, room, answers(i).value);
      if n == 0 { return false, out; }
      var sent := if writes(i).None? then n else if writes(i).value < n then writes(i).value else n - 1;
      CopiedMore(file, offset, out, sent);
      out := out + file[at..at + sent];
      if sent < n { return false, out; }
      remaining := remaining - n;
      at := at + n;
      i := i + 1;
    }
    ok := true;
  }

  // ---------------------------------------------------------------- the same over HTTP/2

  datatype Frame = Frame(data: seq<byte>, end: bool)

  function Payload(frames: seq<Frame>): (b: seq<byte>) {
    if frames == [] then [] else Payload(frames[..|frames| - 1]) + frames[|frames| - 1].data
  }

  lemma PayloadSnoc(frames: seq<Frame>, f: Frame)
    ensures Payload(frames + [f]) == Payload(frames) + f.data
  {
    assert (frames + [f])[..|frames|] == frames;
  }

  /** No frame ends the stream, or only the last one does. */
  predicate Open(frames: seq<Frame>) { forall i :: 0 <= i < |frames| ==> !frames[i].end }

  predicate EndedOnce(frames: seq<Frame>) {
    frames != [] && frames[|frames| - 1].end && Open(frames[..|frames| - 1])
  }

  lemma Growing(base: seq<byte>, data: seq<byte>, offset: nat, n: nat)
    requires offset + n <= |data|
    ensures base + data[..offset] + data[offset..offset + n] == base + data[..offset + n]
    ensures base <= base + data[..offset] <= base + data
  {
    assert data[..offset] + data[offset..offset + n] == data[..offset + n];
  }

  /** What was sent after `base` is a beginning of the slice. */
  ghost predicate Begun(base: seq<byte>, now: seq<byte>, file: seq<byte>, offset: nat, len: nat) {
    exists n: nat :: n <= len && (n > 0 ==> offset + n <= |file|) && now == base + Slice(file, offset, n)
  }

  /** A copied beginning and any part of the next piece are a beginning. */
  lemma BegunSoFar(base: seq<byte>, copied: seq<byte>, piece: seq<byte>,
                   file: seq<byte>, offset: nat, len: nat, now: seq<byte>)
    requires Copied(file, offset, copied) && |copied| + |piece| <= len
    requires piece != [] ==>
               var at := offset + |copied|; at + |piece| <= |file| && piece == file[at..at + |piece|]
    requires base + copied <= now <= base + copied + piece
    ensures Begun(base, now, file, offset, len)
  {
    var n := |now| - |base|;
    var slice := Slice(file, offset, n);
    if n > 0 {
      assert offset + n <= |file| && |slice| == n;
      forall k | 0 <= k < n
        ensures now[|base| + k] == slice[k]
      {
        assert now[|base| + k] == (base + copied + piece)[|base| + k];
      }
    } else {
      assert slice == [] || offset > |file|;
    }
    assert now == base + slice;
  }

  class SendStream {
    var frames: seq<Frame>
    /** What each wait for window space gives; none is an error or a closed stream. */
    var capacities: seq<Option<nat>>

    method Emit(data: seq<byte>, end: bool)
      requires Open(frames)
      modifies this`frames
      ensures frames == old(frames) + [Frame(data, end)] && Payload(frames) == old(Payload(frames)) + data
      ensures if end then EndedOnce(frames) else Open(frames)
    {
      PayloadSnoc(frames, Frame(data, end));
      assert (frames + [Frame(data, end)])[..|frames|] == frames;
      frames := frames + [Frame(data, end)];
    }

    /** Sends data in as many pieces as the window needs. */
    method SendData(data: seq<byte>, end: bool) returns (ok: bool)
      requires Open(frames)
      modifies this
      ensures ok ==> Payload(frames) == old(Payload(frames)) + data && (if end then EndedOnce(frames) else Open(frames))
      ensures !ok ==> Open(frames) && old(Payload(frames)) <= Payload(frames) <= old(Payload(frames)) + data
      ensures |capacities| <= |old(capacities)|
    {
      hide Payload, EndedOnce, Open;
      if data == [] {
        assert Payload(frames) + [] == Payload(frames);
        if end { Emit([], true); }
        return true;
      }
      var offset: nat := 0;
      while offset < |data|
        invariant offset <= |data|
        invariant offset < |data| || !end ==> Open(frames)
        invariant offset == |data| && end ==> EndedOnce(frames)
        invariant Payload(frames) == old(Payload(frames)) + data[..offset]
        invariant |capacities| <= |old(capacities)|
        decreases |capacities|, |data| - offset
      {
        Growing(old(Payload(frames)), data, offset, 0);
        if capacities == [] || capacities[0].None? { return false; }
        var capacity := capacities[0].value;
        capacities := capacities[1..];
        if capacity == 0 { continue; }
        var toSend := if |data| - offset < capacity then |data| - offset else capacity;
        Growing(old(Payload(frames)), data, offset, toSend);
        Emit(data[offset..offset + toSend], end && offset + toSend == |data|);
        offset := offset + toSend;
      }
      assert data[..|data|] == data;
      ok := true;
    }

    /** Sends a slice of a file. */
    method StreamTarEntry(file: seq<byte>, offset: nat, len: nat, chunkSize: nat, answers: nat -> Option<nat>)
      returns (ok: bool)
      requires Open(frames) && len > 0
      modifies this
      ensures ok ==> offset + len <= |file| && EndedOnce(frames)
      ensures ok ==> Payload(frames) == old(Payload(frames)) + file[offset..offset + len]
      ensures !ok ==> Open(frames) && Begun(old(Payload(frames)), Payload(frames), file, offset, len)
    {
      hide Payload, EndedOnce, Open, Begun, Copied;
      var remaining: nat, at: nat, i: nat := len, offset, 0;
      assert Payload(frames) + [] == Payload(frames);
      ghost var copied: seq<byte> := [];
      CopiedNothing(file, offset);
      while remaining > 0
        invariant |copied| + remaining == len && at == offset + |copied|
        invariant Copied(file, offset, copied)
        invariant Payload(frames) == old(Payload(frames)) + copied
        invariant if remaining > 0 then Open(frames) else EndedOnce(frames)
      {
        var room := if remaining < chunkSize then remaining else chunkSize;
        BegunSoFar(old(Payload(frames)), copied, [], file, offset, len, Payload(frames));
        if answers(i).None? { return false; }
        var n := Got(file, at, room, answers(i).value);
        if n == 0 { return false; }
        var sent := SendData(file[at..at + n], remaining == n);
        BegunSoFar(old(Payload(frames)), copied, file[at..at + n], file, offset, len, Payload(frames));
        if !sent { return false; }
        CopiedMore(file, offset, copied, n);
        assert old(Payload(frames)) + copied + file[at..at + n] == old(Payload(frames)) + (copied + file[at..at + n]);
        copied := copied + file[at..at + n];
        remaining := remaining - n;
        at := at + n;
        i := i + 1;
      }
      CopiedAll(file, offset, copied);
      ok := true;
    }

    /** A static response: its head, then the slice. A response that succeeds ends its stream exactly
        once, on its last frame, for every length; the head itself ends an empty one. */
    method SendStatic(headOnly: bool, file: seq<byte>, offset: nat, len: nat, chunkSize: nat,
                      answers: nat -> Option<nat>)
      returns (ok: bool)
      requires frames == []
      modifies this
      ensures ok ==>
                && EndedOnce(frames)
                && Payload(frames) == if headOnly || len == 0 then [] else Slice(file, offset, len)
      ensures !ok ==> Open(frames) && Begun([], Payload(frames), file, offset, len)
    {
      var endStream := headOnly || len == 0;
      Emit([], endStream);
      if endStream { return true; }
      ok := StreamTarEntry(file, offset, len, chunkSize, answers);
      if ok { assert [] + file[offset..offset + len] == file[offset..offset + len]; }
    }
  }

  function Slice(file: seq<byte>, offset: nat, len: nat): (b: seq<byte>) {
    if offset + len <= |file| then file[offset..offset + len] else []
  }
}
