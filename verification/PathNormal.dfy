/** Request path normalisation (`src/site.rs`): two views of a path, one decoded and one still
    percent-encoded, kept component by component in step. */
module PathNormal {
  import opened Bytes
  import opened Segments
  import Text

  const PERCENT: byte := '%' as int
  const DOT: seq<byte> := ['.' as int]
  const DOT_DOT: seq<byte> := ['.' as int, '.' as int]

  // ---------------------------------------------------------------- percent decoding

  function HexValue(b: byte): (r: Option<byte>)
    ensures r.Some? ==> r.value < 16
  {
    if '0' as int <= b <= '9' as int then Some(b - '0' as int)
    else if 'a' as int <= b <= 'f' as int then Some(b - 'a' as int + 10)
    else if 'A' as int <= b <= 'F' as int then Some(b - 'A' as int + 10)
    else None
  }

  /** A percent sign too close to the end stands for itself. */
  function Decode(s: seq<byte>): (r: Option<seq<byte>>)
    ensures r.Some? ==> (r.value == [] <==> s == [])
  {
    if s == [] then Some([])
    else if s[0] == PERCENT && |s| > 2 then
      match (HexValue(s[1]), HexValue(s[2]))
      case (Some(hi), Some(lo)) =>
        (match Decode(s[3..])
         case Some(rest) => Some([16 * hi + lo] + rest)
         case None => None)
      case (_, _) => None
    else
      match Decode(s[1..])
      case Some(rest) => Some([s[0]] + rest)
      case None => None
  }

  function Prepend(out: seq<byte>, r: Option<seq<byte>>): (t: Option<seq<byte>>) {
    match r
    case Some(rest) => Some(out + rest)
    case None => None
  }

  lemma PrependMore(out: seq<byte>, b: byte, r: Option<seq<byte>>)
    ensures Prepend(out, Prepend([b], r)) == Prepend(out + [b], r)
  {
    if r.Some? { assert out + ([b] + r.value) == out + [b] + r.value; }
  }

  lemma PrependNothing(r: Option<seq<byte>>)
    ensures Prepend([], r) == r
  {
    if r.Some? { assert [] + r.value == r.value; }
  }

  method PercentDecode(input: seq<byte>) returns (r: Option<seq<byte>>)
    ensures r == Decode(input)
  {
    var out: seq<byte> := [];
    var i := 0;
    assert input[0..] == input;
    PrependNothing(Decode(input));
    while i < |input|
      invariant i <= |input|
      invariant Decode(input) == Prepend(out, Decode(input[i..]))
    {
      ghost var s := input[i..];
      if input[i] == PERCENT && i + 2 < |input| {
        assert s[1] == input[i + 1] && s[2] == input[i + 2] && s[3..] == input[i + 3..];
        var hi := HexValue(input[i + 1]);
        if hi.None? { return None; }
        var lo := HexValue(input[i + 2]);
        if lo.None? { return None; }
        PrependMore(out, 16 * hi.value + lo.value, Decode(s[3..]));
        out := out + [16 * hi.value + lo.value];
        i := i + 3;
      } else {
        assert s[1..] == input[i + 1..];
        PrependMore(out, input[i], Decode(s[1..]));
        out := out + [input[i]];
        i := i + 1;
      }
    }
    assert input[i..] == [] && out + [] == out;
    return Some(out);
  }

  // ---------------------------------------------------------------- percent encoding

  /** The digits, as text. */
  const CAPITALS := "0123456789ABCDEF"
  const SMALLS := "0123456789abcdef"

  /** How a byte may be written: as itself, or as a percent sign and two digits, the high one first. */
  datatype Written = Itself(b: byte) | Coded(b: byte, highSmall: bool, lowSmall: bool)

  function DigitOf(v: nat, small: bool): (c: byte)
    requires v < 16
  {
    var digit := if small then SMALLS[v] else CAPITALS[v];
    if digit < 128 as char then digit as int else 0
  }

  function WrittenText(w: Written): (s: seq<byte>) {
    match w
    case Itself(b) => [b]
    case Coded(b, high, low) => ['%' as int, DigitOf(b / 16, high), DigitOf(b % 16, low)]
  }

  function TextOfAll(ws: seq<Written>): (s: seq<byte>) {
    if ws == [] then [] else WrittenText(ws[0]) + TextOfAll(ws[1..])
  }

  function BytesOf(ws: seq<Written>): (s: seq<byte>) { seq(|ws|, i requires 0 <= i < |ws| => ws[i].b) }

  /** A percent sign stands for itself only where no room is left for digits. */
  predicate WellWritten(ws: seq<Written>) {
    ws == [] ||
    ((ws[0].Itself? && ws[0].b == '%' as int ==> |TextOfAll(ws[1..])| < 2) && WellWritten(ws[1..]))
  }

  lemma DigitReads(v: nat, small: bool)
    requires v < 16
    ensures HexValue(DigitOf(v, small)) == Some(v)
  {
  }

  lemma DecodeFirst(w: Written, rest: seq<byte>)
    requires w.Itself? && w.b == '%' as int ==> |rest| < 2
    ensures Decode(WrittenText(w) + rest) == if Decode(rest).None? then None else Some([w.b] + Decode(rest).value)
  {
    hide Decode, DigitOf, HexValue;
    if w.Itself? {
      DecodePlain(w.b, rest);
    } else {
      DigitReads(w.b / 16, w.highSmall);
      DigitReads(w.b % 16, w.lowSmall);
      DecodeEscape(DigitOf(w.b / 16, w.highSmall), DigitOf(w.b % 16, w.lowSmall), rest);
      assert 16 * (w.b / 16) + w.b % 16 == w.b;
    }
  }

  lemma DecodePlain(b: byte, rest: seq<byte>)
    requires b == '%' as int ==> |rest| < 2
    ensures Decode([b] + rest) == if Decode(rest).None? then None else Some([b] + Decode(rest).value)
  {
    hide HexValue;
    var s := [b] + rest;
    assert s[0] == b && s[1..] == rest && |s| == |rest| + 1;
  }

  lemma DecodeEscape(high: byte, low: byte, rest: seq<byte>)
    requires HexValue(high).Some? && HexValue(low).Some?
    ensures Decode(['%' as int, high, low] + rest) ==
            if Decode(rest).None? then None
            else Some([16 * HexValue(high).value + HexValue(low).value] + Decode(rest).value)
  {
    hide HexValue;
    var s := ['%' as int, high, low] + rest;
    assert s[0] == '%' as int && s[1] == high && s[2] == low && s[3..] == rest;
  }

  /** Decoding inverts percent encoding. */
  lemma {:induction false} DecodeInverts(ws: seq<Written>)
    requires WellWritten(ws)
    ensures Decode(TextOfAll(ws)) == Some(BytesOf(ws))
  {
    if ws == [] {
      assert BytesOf(ws) == [];
    } else {
      hide Decode, WrittenText;
      DecodeInverts(ws[1..]);
      DecodeFirst(ws[0], TextOfAll(ws[1..]));
      assert BytesOf(ws) == [ws[0].b] + BytesOf(ws[1..]);
    }
  }

  /** A byte is a digit exactly when it stands among them, and its value is its place there. */
  lemma HexIff(b: byte)
    ensures HexValue(b).Some? <==> exists v: nat, small: bool :: v < 16 && DigitOf(v, small) == b
    ensures forall v: nat, small: bool :: v < 16 && DigitOf(v, small) == b ==> HexValue(b) == Some(v)
  {
    forall v: nat, small: bool | v < 16
      ensures HexValue(DigitOf(v, small)) == Some(v)
    {
      DigitReads(v, small);
    }
    if HexValue(b).Some? {
      var v := HexValue(b).value;
      assert DigitOf(v, b >= 'a' as int) == b;
    }
  }

  lemma DigitWritten(b: byte) returns (small: bool)
    requires HexValue(b).Some?
    ensures DigitOf(HexValue(b).value, small) == b
  {
    small := b >= 'a' as int;
  }

  /** What decodes is such a text. */
  lemma {:induction false} DecodedWritten(s: seq<byte>) returns (ws: seq<Written>)
    requires Decode(s).Some?
    ensures WellWritten(ws) && TextOfAll(ws) == s && BytesOf(ws) == Decode(s).value
  {
    if s == [] {
      ws := [];
    } else {
      var first: Written;
      var rest: seq<byte>;
      if s[0] == PERCENT && |s| > 2 {
        var high := DigitWritten(s[1]);
        var low := DigitWritten(s[2]);
        var hi, lo := HexValue(s[1]).value, HexValue(s[2]).value;
        hide DigitOf, HexValue;
        first, rest := Coded(16 * hi + lo, high, low), s[3..];
        assert (16 * hi + lo) / 16 == hi && (16 * hi + lo) % 16 == lo;
        assert s == [s[0], s[1], s[2]] + rest;
      } else {
        first, rest := Itself(s[0]), s[1..];
        assert s == [s[0]] + rest;
      }
      hide HexValue;
      var more := DecodedWritten(rest);
      ws := [first] + more;
      assert ws[1..] == more;
      assert BytesOf(ws) == [first.b] + BytesOf(more);
    }
  }

  /** Decoding succeeds exactly on percent-encoded texts, and gives the bytes they encode. */
  lemma DecodeIff(s: seq<byte>, d: seq<byte>)
    ensures Decode(s) == Some(d) <==> exists ws :: WellWritten(ws) && TextOfAll(ws) == s && BytesOf(ws) == d
  {
    if Decode(s) == Some(d) {
      var ws := DecodedWritten(s);
    }
    hide Decode, TextOfAll, BytesOf, WellWritten;
    if ws :| WellWritten(ws) && TextOfAll(ws) == s && BytesOf(ws) == d {
      DecodeInverts(ws);
    }
  }

  // ---------------------------------------------------------------- the walk over the parts

  /** What a part between slashes means. */
  datatype Kind = Skip | Up | Keep(decoded: seq<byte>) | Bad

  function KindOf(part: seq<byte>): (k: Kind) {
    if part == [] then Skip
    else
      match Decode(part)
      case None => Bad
      case Some(d) =>
        if d == DOT then Skip
        else if d == DOT_DOT then Up
        else if SEPARATOR in d || !Text.IsUtf8(d) then Bad
        else Keep(d)
  }

  /** The stack of kept parts after the first `k`, as indices; none when a part is bad or the path
      climbs above the root. */
  function Walk(parts: seq<seq<byte>>, k: nat): (r: Option<seq<nat>>)
    requires k <= |parts|
    ensures r.Some? ==> forall m :: 0 <= m < |r.value| ==> r.value[m] < k && KindOf(parts[r.value[m]]).Keep?
  {
    if k == 0 then Some([])
    else
      match Walk(parts, k - 1)
      case None => None
      case Some(stack) =>
        match KindOf(parts[k - 1])
        case Skip => Some(stack)
        case Bad => None
        case Up => if stack == [] then None else Some(stack[..|stack| - 1])
        case Keep(_) => Some(stack + [k - 1])
  }

  function Encoded(parts: seq<seq<byte>>, stack: seq<nat>): (r: seq<seq<byte>>)
    requires forall m :: 0 <= m < |stack| ==> stack[m] < |parts|
    ensures |r| == |stack|
  {
    seq(|stack|, m requires 0 <= m < |stack| => parts[stack[m]])
  }

  function Decoded(parts: seq<seq<byte>>, stack: seq<nat>): (r: seq<seq<byte>>)
    requires forall m :: 0 <= m < |stack| ==> stack[m] < |parts| && KindOf(parts[stack[m]]).Keep?
    ensures |r| == |stack|
  {
    seq(|stack|, m requires 0 <= m < |stack| && stack[m] < |parts| && KindOf(parts[stack[m]]).Keep? =>
        KindOf(parts[stack[m]]).decoded)
  }

  datatype NormalizedPath = NormalizedPath(relative: seq<byte>, encodedRelative: seq<byte>, dirHint: bool)

  function RawOf(raw: seq<byte>): (r: seq<byte>)
    ensures r != []
  {
    if raw == [] then [SEPARATOR] else raw
  }

  function Normalize(raw: seq<byte>): (r: Option<NormalizedPath>) {
    var parts := Split(RawOf(raw));
    match Walk(parts, |parts|)
    case None => None
    case Some(stack) =>
      var dirHint := RawOf(raw)[|RawOf(raw)| - 1] == SEPARATOR;
      Some(NormalizedPath(Join(Decoded(parts, stack)), Join(Encoded(parts, stack)), dirHint))
  }

  method NormalizeRequestPath(raw: seq<byte>) returns (r: Option<NormalizedPath>)
    ensures r == Normalize(raw)
  {
    hide Decode, Split, Join, Decoded, Encoded, Text.IsUtf8;
    var normalizedRaw := if raw == [] then [SEPARATOR] else raw;
    var last := normalizedRaw[|normalizedRaw| - 1];
    var dirHint := normalizedRaw == [SEPARATOR] || (last == SEPARATOR && |normalizedRaw| > 1);
    var decodedComponents: seq<seq<byte>>, rawComponents: seq<seq<byte>> := [], [];
    var parts := Split(normalizedRaw);
    ghost var stack := [];
    ViewsEmpty(parts);
    for i := 0 to |parts|
      invariant Walk(parts, i) == Some(stack)
      invariant decodedComponents == Decoded(parts, stack) && rawComponents == Encoded(parts, stack)
    {
      var part := parts[i];
      if part == [] { continue; }
      var decoded := PercentDecode(part);
      if decoded.None? { WalkFails(parts, i + 1, |parts|); return None; }
      var d := decoded.value;
      if d == DOT { continue; }
      if d == DOT_DOT {
        if decodedComponents == [] { WalkFails(parts, i + 1, |parts|); return None; }
        ViewsPop(parts, stack);
        decodedComponents := decodedComponents[..|decodedComponents| - 1];
        rawComponents := rawComponents[..|rawComponents| - 1];
        stack := stack[..|stack| - 1];
        continue;
      }
      if SEPARATOR in d { WalkFails(parts, i + 1, |parts|); return None; }
      if !Text.IsUtf8(d) { WalkFails(parts, i + 1, |parts|); return None; }
      ViewsPush(parts, stack, i);
      decodedComponents := decodedComponents + [d];
      rawComponents := rawComponents + [part];
      stack := stack + [i];
    }
    return Some(NormalizedPath(Join(decodedComponents), Join(rawComponents), dirHint));
  }

  lemma ViewsEmpty(parts: seq<seq<byte>>)
    ensures Decoded(parts, []) == [] && Encoded(parts, []) == []
  {
  }

  lemma ViewsPush(parts: seq<seq<byte>>, stack: seq<nat>, i: nat)
    requires forall m :: 0 <= m < |stack| ==> stack[m] < |parts| && KindOf(parts[stack[m]]).Keep?
    requires i < |parts| && KindOf(parts[i]).Keep?
    ensures Decoded(parts, stack + [i]) == Decoded(parts, stack) + [KindOf(parts[i]).decoded]
    ensures Encoded(parts, stack + [i]) == Encoded(parts, stack) + [parts[i]]
  {
    hide KindOf;
  }

  lemma ViewsPop(parts: seq<seq<byte>>, stack: seq<nat>)
    requires stack != [] && forall m :: 0 <= m < |stack| ==> stack[m] < |parts| && KindOf(parts[stack[m]]).Keep?
    ensures Decoded(parts, stack[..|stack| - 1]) == Decoded(parts, stack)[..|stack| - 1]
    ensures Encoded(parts, stack[..|stack| - 1]) == Encoded(parts, stack)[..|stack| - 1]
  {
    hide KindOf;
  }

  lemma {:induction false} WalkFails(parts: seq<seq<byte>>, i: nat, k: nat)
    requires i <= k <= |parts| && Walk(parts, i).None?
    ensures Walk(parts, k).None?
  {
    if i < k { WalkFails(parts, i, k - 1); }
  }

  // ---------------------------------------------------------------- which paths are accepted, and what is kept

  /** How deep below the root the first `k` parts lead. */
  function Depth(parts: seq<seq<byte>>, k: nat): (d: int)
    requires k <= |parts|
  {
    if k == 0 then 0
    else Depth(parts, k - 1) + match KindOf(parts[k - 1]) case Keep(_) => 1 case Up => -1 case _ => 0
  }

  /** No part is bad and no prefix climbs above the root. */
  predicate Allowed(parts: seq<seq<byte>>, k: nat)
    requires k <= |parts|
  {
    && (forall i :: 0 <= i < k ==> !KindOf(parts[i]).Bad?)
    && (forall i :: 0 <= i <= k ==> Depth(parts, i) >= 0)
  }

  /** Part `i` is kept and no later part of the first `k` climbs out of it. */
  predicate Survives(parts: seq<seq<byte>>, i: nat, k: nat)
    requires k <= |parts|
  {
    i < k && KindOf(parts[i]).Keep? && forall j :: i < j <= k ==> Depth(parts, j) >= Depth(parts, i + 1)
  }

  /** The stack holds exactly the survivors, in order, each at its depth. */
  ghost predicate StackIs(parts: seq<seq<byte>>, stack: seq<nat>, k: nat)
    requires k <= |parts|
  {
    && |stack| == Depth(parts, k)
    && (forall m :: 0 <= m < |stack| ==> Survives(parts, stack[m], k) && Depth(parts, stack[m] + 1) == m + 1)
    && (forall m, n :: 0 <= m < n < |stack| ==> stack[m] < stack[n])
    && (forall i: nat :: Survives(parts, i, k) ==> i in stack)
  }

  /** A path is accepted exactly when no part is bad and no prefix climbs above the root; then the
      kept components are the parts that no later `..` undoes. */
  lemma {:induction false} WalkIff(parts: seq<seq<byte>>, k: nat)
    requires k <= |parts|
    ensures Walk(parts, k).Some? <==> Allowed(parts, k)
    ensures Walk(parts, k).Some? ==> StackIs(parts, Walk(parts, k).value, k)
  {
    hide KindOf;
    if k > 0 {
      WalkIff(parts, k - 1);
      if Walk(parts, k - 1).Some? { WalkStep(parts, Walk(parts, k - 1).value, k); }
    }
  }

  lemma WalkStep(parts: seq<seq<byte>>, stack: seq<nat>, k: nat)
    requires 0 < k <= |parts| && Walk(parts, k - 1) == Some(stack)
    requires Allowed(parts, k - 1) && StackIs(parts, stack, k - 1)
    ensures Walk(parts, k).Some? <==> Allowed(parts, k)
    ensures Walk(parts, k).Some? ==> StackIs(parts, Walk(parts, k).value, k)
  {
    hide KindOf, StackIs, Allowed, Survives;
    AllowedStep(parts, k);
    assert |stack| == Depth(parts, k - 1) by { StackDepth(parts, stack, k - 1); }
    match KindOf(parts[k - 1])
    case Bad =>
    case Skip => SkipStep(parts, stack, k);
    case Keep(_) => KeepStep(parts, stack, k);
    case Up => if stack != [] { UpStep(parts, stack, k); }
  }

  lemma AllowedStep(parts: seq<seq<byte>>, k: nat)
    requires 0 < k <= |parts| && Allowed(parts, k - 1)
    ensures Allowed(parts, k) <==> !KindOf(parts[k - 1]).Bad? && Depth(parts, k) >= 0
  {
    hide KindOf;
  }

  lemma StackDepth(parts: seq<seq<byte>>, stack: seq<nat>, k: nat)
    requires k <= |parts| && StackIs(parts, stack, k)
    ensures |stack| == Depth(parts, k)
  {
  }

  lemma SurvivesStep(parts: seq<seq<byte>>, i: nat, k: nat)
    requires 0 < k <= |parts| && i < k - 1
    ensures Survives(parts, i, k) <==> Survives(parts, i, k - 1) && Depth(parts, k) >= Depth(parts, i + 1)
  {
    hide KindOf, Depth;
  }

  lemma SkipStep(parts: seq<seq<byte>>, stack: seq<nat>, k: nat)
    requires 0 < k <= |parts| && KindOf(parts[k - 1]).Skip? && StackIs(parts, stack, k - 1)
    ensures StackIs(parts, stack, k)
  {
    hide KindOf;
    assert Depth(parts, k) == Depth(parts, k - 1);
    hide Depth;
    forall i: nat | i < k - 1 { SurvivesStep(parts, i, k); }
    assert !Survives(parts, k - 1, k);
    forall m | 0 <= m < |stack|
      ensures Survives(parts, stack[m], k)
    {
      assert Survives(parts, stack[m], k - 1);
    }
  }

  lemma KeepStep(parts: seq<seq<byte>>, stack: seq<nat>, k: nat)
    requires 0 < k <= |parts| && KindOf(parts[k - 1]).Keep? && StackIs(parts, stack, k - 1)
    ensures StackIs(parts, stack + [k - 1], k)
  {
    hide KindOf;
    assert Depth(parts, k) == Depth(parts, k - 1) + 1;
    hide Depth;
    var t := stack + [k - 1];
    forall i: nat | i < k - 1 { SurvivesStep(parts, i, k); }
    forall m | 0 <= m < |t|
      ensures Survives(parts, t[m], k) && Depth(parts, t[m] + 1) == m + 1
    {
      if m < |stack| { assert Survives(parts, stack[m], k - 1); }
    }
    forall i: nat | Survives(parts, i, k)
      ensures i in t
    {
      if i == k - 1 { assert t[|stack|] == i; }
    }
  }

  lemma UpStep(parts: seq<seq<byte>>, stack: seq<nat>, k: nat)
    requires 0 < k <= |parts| && KindOf(parts[k - 1]).Up? && StackIs(parts, stack, k - 1) && stack != []
    ensures StackIs(parts, stack[..|stack| - 1], k)
  {
    hide KindOf;
    assert Depth(parts, k) == Depth(parts, k - 1) - 1;
    hide Depth;
    var t := stack[..|stack| - 1];
    forall i: nat | i < k - 1 { SurvivesStep(parts, i, k); }
    forall m | 0 <= m < |t|
      ensures Survives(parts, t[m], k) && Depth(parts, t[m] + 1) == m + 1
    {
      assert t[m] == stack[m] && Survives(parts, stack[m], k - 1);
    }
    assert !Survives(parts, k - 1, k);
    forall i: nat | Survives(parts, i, k)
      ensures i in t
    {
      var m :| 0 <= m < |stack| && stack[m] == i;
      assert m + 1 == Depth(parts, i + 1) <= Depth(parts, k) == |stack| - 1;
      assert t[m] == i;
    }
  }

  // ---------------------------------------------------------------- the two views

  /** The components a view has. */
  function Components(view: seq<byte>): (c: seq<seq<byte>>) { if view == [] then [] else Split(view) }

  lemma ComponentsOfJoin(parts: seq<seq<byte>>)
    requires forall m :: 0 <= m < |parts| ==> parts[m] != [] && SEPARATOR !in parts[m]
    ensures Components(Join(parts)) == parts
    ensures Join(parts) == [] <==> parts == []
  {
    if parts != [] {
      SplitOfJoin(parts);
      assert |Join(parts)| >= |parts[0]|;
    }
  }

  /** A component of a decoded path: not empty, no dots that mean something else, no slash, and text. */
  predicate Plain(d: seq<byte>) {
    d != [] && d != DOT && d != DOT_DOT && SEPARATOR !in d && Text.IsUtf8(d)
  }

  lemma KeptParts(parts: seq<seq<byte>>, stack: seq<nat>)
    requires forall i :: 0 <= i < |parts| ==> SEPARATOR !in parts[i]
    requires forall m :: 0 <= m < |stack| ==> stack[m] < |parts| && KindOf(parts[stack[m]]).Keep?
    ensures var d, e := Decoded(parts, stack), Encoded(parts, stack);
            && |d| == |e|
            && (forall m :: 0 <= m < |d| ==>
                  Plain(d[m]) && e[m] != [] && SEPARATOR !in e[m] && Decode(e[m]) == Some(d[m]))
            && Components(Join(d)) == d && Components(Join(e)) == e
            && (Join(d) == [] <==> d == []) && (Join(e) == [] <==> e == [])
  {
    hide Decode, Text.IsUtf8, Split, Join, Components;
    var d, e := Decoded(parts, stack), Encoded(parts, stack);
    forall m | 0 <= m < |d|
      ensures Plain(d[m]) && e[m] != [] && SEPARATOR !in e[m] && Decode(e[m]) == Some(d[m])
    {
      assert KindOf(parts[stack[m]]).Keep?;
    }
    ComponentsOfJoin(d);
    ComponentsOfJoin(e);
  }

  /** The two views of an accepted path have the same number of components; each decoded one is plain
      and is the decoding of the encoded one. They are the surviving parts of the request path. */
  lemma ViewsCorrespond(raw: seq<byte>)
    requires Normalize(raw).Some?
    ensures var p := Normalize(raw).value;
            var d, e := Components(p.relative), Components(p.encodedRelative);
            |d| == |e| && forall m :: 0 <= m < |d| ==> Plain(d[m]) && Decode(e[m]) == Some(d[m])
    ensures var parts := Split(RawOf(raw));
            var stack := Walk(parts, |parts|).value;
            && StackIs(parts, stack, |parts|)
            && Components(Normalize(raw).value.encodedRelative) == Encoded(parts, stack)
  {
    hide Split, Join, Components, KindOf, StackIs, Plain;
    var parts := Split(RawOf(raw));
    KeptParts(parts, Walk(parts, |parts|).value);
    WalkIff(parts, |parts|);
  }

  /** Exactly the paths that are accepted. */
  lemma AcceptedIff(raw: seq<byte>)
    ensures Normalize(raw).Some? <==> Allowed(Split(RawOf(raw)), |Split(RawOf(raw))|)
  {
    hide Split, KindOf, Allowed;
    WalkIff(Split(RawOf(raw)), |Split(RawOf(raw))|);
  }

  // ---------------------------------------------------------------- normalising again

  function EncodedPath(p: NormalizedPath): (s: seq<byte>) {
    if p.encodedRelative == [] then [SEPARATOR] else [SEPARATOR] + p.encodedRelative
  }

  function EncodedPathWithDirHint(p: NormalizedPath): (s: seq<byte>) {
    var path := EncodedPath(p);
    if p.dirHint && path != [SEPARATOR] then path + [SEPARATOR] else path
  }

  lemma JoinTrailing(parts: seq<seq<byte>>)
    requires parts != []
    ensures Join(parts + [[]]) == Join(parts) + [SEPARATOR]
  {
    if |parts| > 1 {
      assert (parts + [[]])[1..] == parts[1..] + [[]];
      JoinTrailing(parts[1..]);
    } else {
      assert (parts + [[]])[1..] == [[]];
    }
  }

  /** The encoded view as a path: behind a slash, with or without a slash at the end. */
  function Slashed(view: seq<byte>, hint: bool): (s: seq<byte>) {
    if hint then [SEPARATOR] + view + [SEPARATOR] else [SEPARATOR] + view
  }

  function SlashedParts(e: seq<seq<byte>>, hint: bool): (parts: seq<seq<byte>>) {
    if hint then [[]] + e + [[]] else [[]] + e
  }

  predicate NoSlash(parts: seq<seq<byte>>) { forall m :: 0 <= m < |parts| ==> SEPARATOR !in parts[m] }

  lemma SplitJoined(e: seq<seq<byte>>)
    requires e != [] && NoSlash(e)
    ensures Split([SEPARATOR] + Join(e)) == [[]] + e
  {
    SplitOfJoin(e);
    hide Split, Join;
    var none: seq<byte> := [];
    assert [SEPARATOR] + Join(e) == none + [SEPARATOR] + Join(e);
    SplitAtFirst(none, Join(e));
  }

  lemma SplitAgain(e: seq<seq<byte>>, hint: bool)
    requires e != [] && NoSlash(e)
    ensures Split(Slashed(Join(e), hint)) == SlashedParts(e, hint)
  {
    hide Split, Join;
    if hint {
      var more := e + [[]];
      assert NoSlash(more);
      hide NoSlash;
      SplitJoined(more);
      JoinTrailing(e);
      assert [SEPARATOR] + (Join(e) + [SEPARATOR]) == Slashed(Join(e), true);
      assert [[]] + more == SlashedParts(e, true);
    } else {
      SplitJoined(e);
    }
  }

  function Counted(n: nat): (s: seq<nat>)
    ensures |s| == n && forall i :: 0 <= i < n ==> s[i] == i + 1
  {
    seq(n, i => i + 1)
  }

  lemma EmptySkips()
    ensures KindOf([]) == Skip
  {
  }

  lemma WalkOne(parts: seq<seq<byte>>, k: nat, stack: seq<nat>)
    requires 0 < k <= |parts| && Walk(parts, k - 1) == Some(stack)
    ensures KindOf(parts[k - 1]).Skip? ==> Walk(parts, k) == Some(stack)
    ensures KindOf(parts[k - 1]).Keep? ==> Walk(parts, k) == Some(stack + [k - 1])
  {
    hide KindOf;
  }

  /** Parts that are all kept, between empty ones, are kept in their order. */
  lemma {:induction false} WalkKeepsAll(e: seq<seq<byte>>, hint: bool, k: nat)
    requires k <= |SlashedParts(e, hint)| && forall m :: 0 <= m < |e| ==> KindOf(e[m]).Keep?
    ensures Walk(SlashedParts(e, hint), k) == Some(Counted(if k == 0 then 0 else if k - 1 <= |e| then k - 1 else |e|))
  {
    hide KindOf;
    var parts := SlashedParts(e, hint);
    if k == 0 {
      assert Counted(0) == [];
    } else {
      hide Walk;
      WalkKeepsAll(e, hint, k - 1);
      EmptySkips();
      var stack := Walk(parts, k - 1).value;
      WalkOne(parts, k, stack);
      if 2 <= k < |e| + 2 {
        assert parts[k - 1] == e[k - 2];
        assert Counted(k - 1) == stack + [k - 1];
      } else {
        assert parts[k - 1] == [];
        assert stack == Counted(if k - 1 <= |e| then k - 1 else |e|);
      }
    }
  }

  lemma WalkAgain(e: seq<seq<byte>>, d: seq<seq<byte>>, hint: bool)
    requires |d| == |e| && forall m :: 0 <= m < |e| ==> KindOf(e[m]) == Keep(d[m])
    ensures var parts := SlashedParts(e, hint);
            && Walk(parts, |parts|) == Some(Counted(|e|))
            && Encoded(parts, Counted(|e|)) == e && Decoded(parts, Counted(|e|)) == d
  {
    hide KindOf, Walk;
    var parts := SlashedParts(e, hint);
    WalkKeepsAll(e, hint, |parts|);
    forall m | 0 <= m < |e|
      ensures parts[Counted(|e|)[m]] == e[m]
    {
    }
    hide SlashedParts, Counted;
    assert Encoded(parts, Counted(|e|)) == e;
    assert Decoded(parts, Counted(|e|)) == d;
  }

  /** Normalising the encoded view, with or without its trailing slash, gives the same two views. */
  lemma SameViewsAgain(parts: seq<seq<byte>>, stack: seq<nat>, hint: bool)
    requires forall i :: 0 <= i < |parts| ==> SEPARATOR !in parts[i]
    requires forall m :: 0 <= m < |stack| ==> stack[m] < |parts| && KindOf(parts[stack[m]]).Keep?
    requires stack != []
    ensures var d, e := Decoded(parts, stack), Encoded(parts, stack);
            Normalize(Slashed(Join(e), hint)) == Some(NormalizedPath(Join(d), Join(e), hint))
  {
    hide Split, Join, KindOf, Components, Walk, SlashedParts;
    var d, e := Decoded(parts, stack), Encoded(parts, stack);
    KeptParts(parts, stack);
    hide Plain;
    SplitAgain(e, hint);
    assert forall m :: 0 <= m < |e| ==> e[m] == parts[stack[m]] && KindOf(e[m]) == Keep(d[m]);
    hide Decoded, Encoded;
    WalkAgain(e, d, hint);
    LastOfJoin(e);
  }

  lemma {:induction false} LastOfJoin(e: seq<seq<byte>>)
    requires e != [] && forall m :: 0 <= m < |e| ==> e[m] != [] && SEPARATOR !in e[m]
    ensures Join(e) != [] && Join(e)[|Join(e)| - 1] != SEPARATOR
  {
    if |e| > 1 {
      LastOfJoin(e[1..]);
    } else {
      assert e[0][|e[0]| - 1] in e[0];
    }
  }

  /** Normalising an accepted path again changes neither view. The directory hint survives, except
      that the root always has it. */
  lemma NormalizeAgain(raw: seq<byte>)
    requires Normalize(raw).Some?
    ensures var p := Normalize(raw).value;
            var isRoot := p.relative == [];
            && Normalize(EncodedPathWithDirHint(p)) == Some(p.(dirHint := p.dirHint || isRoot))
            && Normalize(EncodedPath(p)) == Some(p.(dirHint := isRoot))
  {
    var p := Normalize(raw).value;
    var parts := Split(RawOf(raw));
    var stack := Walk(parts, |parts|).value;
    hide Split, Join, KindOf, Components, Walk;
    KeptParts(parts, stack);
    if stack == [] {
      RootAgain();
    } else {
      SameViewsAgain(parts, stack, false);
      SameViewsAgain(parts, stack, true);
    }
  }

  lemma RootAgain()
    ensures Normalize([SEPARATOR]) == Some(NormalizedPath([], [], true))
  {
    assert [SEPARATOR] == [] + [SEPARATOR] + [];
    SplitAtFirst([], []);
    assert Split([]) == [[]];
    var parts := [[], []];
    assert Split([SEPARATOR]) == parts;
    assert KindOf([]) == Skip;
    hide KindOf, Split;
    assert Walk(parts, 0) == Some([]);
    assert Walk(parts, 1) == Some([]);
    assert Walk(parts, 2) == Some([]);
    ViewsEmpty(parts);
  }

  /** The relative view is empty exactly when the path leads back to the root. */
  lemma RootIff(raw: seq<byte>)
    requires Normalize(raw).Some?
    ensures var parts := Split(RawOf(raw));
            Normalize(raw).value.relative == [] <==> Depth(parts, |parts|) == 0
  {
    hide Split, Join, KindOf, Depth, Components;
    var parts := Split(RawOf(raw));
    KeptParts(parts, Walk(parts, |parts|).value);
    WalkIff(parts, |parts|);
    StackDepth(parts, Walk(parts, |parts|).value, |parts|);
  }

  /** The hint is kept exactly unless the path leads to the root without a slash at its end, as `/.`
      does. */
  lemma HintKeptIff(raw: seq<byte>)
    requires Normalize(raw).Some?
    ensures var p, path := Normalize(raw).value, RawOf(raw);
            var parts := Split(path);
            Normalize(EncodedPathWithDirHint(p)) == Some(p) <==>
            Depth(parts, |parts|) > 0 || path[|path| - 1] == SEPARATOR
  {
    RootIff(raw);
    AcceptedIff(raw);
    var parts := Split(RawOf(raw));
    assert Depth(parts, |parts|) >= 0;
    assert Normalize(raw).value.dirHint <==> RawOf(raw)[|RawOf(raw)| - 1] == SEPARATOR;
    hide Normalize, Split, Depth, KindOf, Allowed;
    NormalizeAgain(raw);
  }

  lemma SkippedKind(part: seq<byte>)
    requires part == [] || part == DOT
    ensures KindOf(part) == Skip
  {
    if part == DOT {
      assert part[0] != PERCENT && part[1..] == [];
      assert Decode(part[1..]) == Some([]);
      assert Decode(part) == Some([part[0]] + []);
    }
  }

  /** The path `/.` leads to the root and has no hint; normalised again, it has one. */
  lemma RootHintExample()
    ensures var p := NormalizedPath([], [], false);
            && Normalize([SEPARATOR] + DOT) == Some(p)
            && EncodedPathWithDirHint(p) == [SEPARATOR] && Normalize([SEPARATOR]) == Some(p.(dirHint := true))
  {
    var dot, root := [SEPARATOR] + DOT, [SEPARATOR];
    assert Split(dot) == [[], DOT] by {
      assert dot[1..] == DOT;
      assert Split(DOT) == [DOT];
    }
    assert Split(root) == [[], []];
    SkippedKind([]);
    SkippedKind(DOT);
    hide KindOf;
    assert Walk([[], DOT], 1) == Some([]) && Walk([[], DOT], 2) == Some([]);
    assert Walk([[], []], 1) == Some([]) && Walk([[], []], 2) == Some([]);
  }

  // ---------------------------------------------------------------- the laws of dots

  /** The encoded components that are left of a list of parts. */
  function Kept(parts: seq<seq<byte>>): (r: Option<seq<seq<byte>>>) {
    if parts == [] then Some([])
    else KeptNext(Kept(parts[..|parts| - 1]), parts[|parts| - 1])
  }

  function KeptNext(r: Option<seq<seq<byte>>>, part: seq<byte>): (t: Option<seq<seq<byte>>>) {
    if r.None? then None
    else
      match KindOf(part)
      case Skip => r
      case Bad => None
      case Up => if r.value == [] then None else Some(r.value[..|r.value| - 1])
      case Keep(_) => Some(r.value + [part])
  }

  lemma {:induction false} WalkIsKept(parts: seq<seq<byte>>, k: nat)
    requires k <= |parts|
    ensures match Walk(parts, k)
            case None => Kept(parts[..k]) == None
            case Some(stack) => Kept(parts[..k]) == Some(Encoded(parts, stack))
  {
    hide KindOf;
    if k > 0 {
      WalkIsKept(parts, k - 1);
      assert parts[..k][..k - 1] == parts[..k - 1] && parts[..k][k - 1] == parts[k - 1];
      if Walk(parts, k - 1).Some? {
        var stack := Walk(parts, k - 1).value;
        if KindOf(parts[k - 1]).Keep? {
          assert Encoded(parts, stack + [k - 1]) == Encoded(parts, stack) + [parts[k - 1]];
        } else if stack != [] {
          assert Encoded(parts, stack[..|stack| - 1]) == Encoded(parts, stack)[..|stack| - 1];
        }
      }
    } else {
      assert Encoded(parts, []) == [];
    }
  }

  /** A path is accepted exactly when its parts leave something, even nothing, and the encoded view is
      what they leave. */
  lemma NormalizeIsKept(raw: seq<byte>)
    ensures var kept := Kept(Split(RawOf(raw)));
            && (Normalize(raw).Some? <==> kept.Some?)
            && (kept.Some? ==> Normalize(raw).value.encodedRelative == Join(kept.value))
  {
    var parts := Split(RawOf(raw));
    hide Split;
    WalkIsKept(parts, |parts|);
    assert parts[..|parts|] == parts;
  }

  lemma KeptSnoc(a: seq<seq<byte>>, part: seq<byte>)
    ensures Kept(a + [part]) == KeptNext(Kept(a), part)
  {
    assert (a + [part])[..|a|] == a;
  }

  lemma {:induction false} SameSoFar(a: seq<seq<byte>>, a': seq<seq<byte>>, b: seq<seq<byte>>)
    requires Kept(a) == Kept(a')
    ensures Kept(a + b) == Kept(a' + b)
    decreases |b|
  {
    hide KeptNext;
    if b == [] {
      assert a + b == a && a' + b == a';
    } else {
      var front, last := b[..|b| - 1], b[|b| - 1];
      SameSoFar(a, a', front);
      assert a + b == a + front + [last] && a' + b == a' + front + [last];
      hide Kept;
      KeptSnoc(a + front, last);
      KeptSnoc(a' + front, last);
    }
  }

  lemma {:induction false} NoneStays(a: seq<seq<byte>>, b: seq<seq<byte>>)
    requires Kept(a) == None
    ensures Kept(a + b) == None
    decreases |b|
  {
    if b == [] {
      assert a + b == a;
    } else {
      var front, last := b[..|b| - 1], b[|b| - 1];
      NoneStays(a, front);
      assert a + b == a + front + [last];
      hide Kept;
      KeptSnoc(a + front, last);
    }
  }

  /** A part that stands for a name: it decodes to text without a slash that is neither empty nor dots. */
  predicate IsName(part: seq<byte>) {
    var d := Decode(part);
    && d.Some? && d.value != [] && d.value != [46] && d.value != [46, 46]
    && 47 !in d.value && Text.IsUtf8(d.value)
  }

  lemma NameKind(part: seq<byte>)
    requires IsName(part)
    ensures KindOf(part) == Keep(Decode(part).value)
  {
    hide Text.IsUtf8;
  }

  /** An empty part and a dot are nothing, however the dot is written. */
  lemma DotIsNothing(a: seq<seq<byte>>, dot: seq<byte>, b: seq<seq<byte>>)
    requires dot == [] || Decode(dot) == Some([46])
    ensures Kept(a + [dot] + b) == Kept(a + b)
  {
    hide Kept, Decode;
    KeptSnoc(a, dot);
    SameSoFar(a + [dot], a, b);
  }

  /** Two dots take the name before them away. */
  lemma DotsCancel(a: seq<seq<byte>>, name: seq<byte>, dots: seq<byte>, b: seq<seq<byte>>)
    requires IsName(name) && Decode(dots) == Some([46, 46]) && Kept(a).Some?
    ensures Kept(a + [name, dots] + b) == Kept(a + b)
  {
    hide Kept, Decode, IsName;
    NameKind(name);
    KeptSnoc(a, name);
    KeptSnoc(a + [name], dots);
    assert a + [name] + [dots] == a + [name, dots];
    var e := Kept(a).value;
    assert (e + [name])[..|e|] == e;
    assert dots != [];
    SameSoFar(a + [name, dots], a, b);
  }

  /** A path that climbs above the root is refused. */
  lemma DotsAboveRoot(a: seq<seq<byte>>, dots: seq<byte>, b: seq<seq<byte>>)
    requires Kept(a) == Some([]) && Decode(dots) == Some([46, 46])
    ensures Kept(a + [dots] + b) == None
  {
    hide Kept, Decode;
    KeptSnoc(a, dots);
    assert dots != [];
    NoneStays(a + [dots], b);
  }

  /** So is one with a part that does not decode, or not to text without a slash. */
  lemma BadPartFails(a: seq<seq<byte>>, part: seq<byte>, b: seq<seq<byte>>)
    requires var d := Decode(part); d.None? || 47 in d.value || !Text.IsUtf8(d.value)
    ensures Kept(a + [part] + b) == None
  {
    hide Kept, Text.IsUtf8;
    KeptSnoc(a, part);
    assert Decode([]) == Some([]) && Text.IsUtf8([]) by { EmptyText(); }
    AsciiDots();
    hide Decode;
    NoneStays(a + [part], b);
  }

  lemma EmptyText()
    ensures Decode([]) == Some([]) && Text.IsUtf8([])
  {
  }

  lemma AsciiDots()
    ensures Text.IsUtf8(DOT) && Text.IsUtf8(DOT_DOT)
  {
    Text.AsciiIsUtf8(DOT);
    Text.AsciiIsUtf8(DOT_DOT);
  }

  /** Names stay. */
  lemma {:induction false} NamesStay(names: seq<seq<byte>>)
    requires forall i :: 0 <= i < |names| ==> IsName(names[i])
    ensures Kept(names) == Some(names)
  {
    hide IsName;
    if names != [] {
      var front, last := names[..|names| - 1], names[|names| - 1];
      NamesStay(front);
      NameKind(last);
      assert names == front + [last];
    }
  }
}
