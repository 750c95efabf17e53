/** The pattern language shared by the SDK glob and the file-server glob: how a pattern
    splits into tokens, and what it means for a path to be consumed by them.

    The two matchers read the same syntax but differ in dialect. In the SDK dialect bytes
    are compared after ASCII case folding and neither `*`, `?` nor a class may take a `/`.
    In the file dialect bytes are compared exactly and `/` is an ordinary byte. */
module GlobTokens {
  import opened Bytes

  const ASTERISK: byte := '*' as int
  const QUESTION: byte := '?' as int
  const OPEN: byte := '[' as int
  const CLOSE: byte := ']' as int
  const CARET: byte := '^' as int
  const DASH: byte := '-' as int
  const ESCAPE: byte := '\\' as int
  const SLASH: byte := '/' as int

  datatype Dialect = Sdk | File

  datatype Span = Span(lo: byte, hi: byte)

  /** `Malformed` stands for an unterminated class or a trailing escape; it accepts nothing. */
  datatype Token =
    | Star
    | AnyByte
    | Class(negated: bool, spans: seq<Span>)
    | Literal(b: byte)
    | Malformed

  // ---------------------------------------------------------------- bytes

  function Lower(b: byte): (r: byte) {
    if 'A' as int <= b <= 'Z' as int then b + 32 else b
  }

  /** The value of a byte read through C's signed `char`. */
  function Signed(b: byte): (r: int) {
    if b < 128 then b else b - 256
  }

  predicate InSpan(d: Dialect, s: Span, v: byte) {
    match d
    case Sdk => Signed(Lower(s.lo)) <= Signed(Lower(v)) <= Signed(Lower(s.hi))
    case File => s.lo <= v <= s.hi
  }

  predicate InSpans(d: Dialect, spans: seq<Span>, v: byte) {
    exists i :: 0 <= i < |spans| && InSpan(d, spans[i], v)
  }

  // ---------------------------------------------------------------- syntax

  /** One class member and the index after it; an escape protects the byte that follows it. */
  function ClassByte(pat: seq<byte>, pi: nat): (r: (byte, nat)) {
    if pi >= |pat| then (0, pi)
    else if pat[pi] == ESCAPE && pi + 1 < |pat| then (pat[pi + 1], pi + 2)
    else (pat[pi], pi + 1)
  }

  /** One class term, a single member or a range, and the index after it. */
  function ParseTerm(pat: seq<byte>, pi: nat): (r: Option<(Span, nat)>)
    requires pi < |pat|
    ensures r.Some? ==> pi < r.value.1 <= |pat|
  {
    if pat[pi] == DASH then None
    else
      var (start, p1) := ClassByte(pat, pi);
      if p1 < |pat| && pat[p1] == DASH then
        if p1 + 1 >= |pat| || pat[p1 + 1] == CLOSE then None
        else
          var (end, p2) := ClassByte(pat, p1 + 1);
          Some((Span(start, end), p2))
      else Some((Span(start, start), p1))
  }

  /** The class terms from `pi` up to the closing bracket, and the index after it. */
  function ParseTerms(pat: seq<byte>, pi: nat, hasTerm: bool): (r: Option<(seq<Span>, nat)>)
    ensures r.Some? ==> pi < r.value.1 <= |pat|
    decreases |pat| - pi
  {
    if pi >= |pat| then None
    else if pat[pi] == CLOSE && hasTerm then Some(([], pi + 1))
    else
      match ParseTerm(pat, pi)
      case None => None
      case Some((span, p)) =>
        match ParseTerms(pat, p, true)
        case None => None
        case Some((rest, next)) => Some(([span] + rest, next))
  }

  /** `pi` is the index after the opening bracket. */
  function ParseClass(pat: seq<byte>, pi: nat): (r: Option<(Token, nat)>)
    ensures r.Some? ==> r.value.0.Class? && pi < r.value.1 <= |pat|
  {
    var negated := pi < |pat| && pat[pi] == CARET;
    match ParseTerms(pat, if negated then pi + 1 else pi, false)
    case None => None
    case Some((spans, next)) => Some((Class(negated, spans), next))
  }

  function NextToken(pat: seq<byte>, pi: nat): (r: (Token, nat))
    requires pi < |pat|
    ensures pi < r.1 <= |pat|
  {
    if pat[pi] == ASTERISK then (Star, pi + 1)
    else if pat[pi] == QUESTION then (AnyByte, pi + 1)
    else if pat[pi] == OPEN then
      match ParseClass(pat, pi + 1)
      case None => (Malformed, |pat|)
      case Some(r) => r
    else if pat[pi] == ESCAPE then
      if pi + 1 >= |pat| then (Malformed, |pat|) else (Literal(pat[pi + 1]), pi + 2)
    else (Literal(pat[pi]), pi + 1)
  }

  function Tokens(pat: seq<byte>, pi: nat): (ts: seq<Token>)
    decreases |pat| - pi
  {
    if pi >= |pat| then []
    else
      var (t, next) := NextToken(pat, pi);
      [t] + Tokens(pat, next)
  }

  // ---------------------------------------------------------------- class scanning

  lemma InSpansCons(d: Dialect, s: Span, rest: seq<Span>, v: byte)
    ensures InSpans(d, [s] + rest, v) <==> InSpan(d, s, v) || InSpans(d, rest, v)
  {
    if InSpan(d, s, v) { assert InSpan(d, ([s] + rest)[0], v); }
    if InSpans(d, rest, v) {
      var i :| 0 <= i < |rest| && InSpan(d, rest[i], v);
      assert InSpan(d, ([s] + rest)[i + 1], v);
    }
  }

  /** A class scan from `start` that stands at `pi` has seen a hit iff a term so far takes `v`. */
  ghost predicate ClassScan(d: Dialect, pat: seq<byte>, start: nat, pi: nat, hasTerm: bool, hit: bool, v: byte) {
    var whole, rest := ParseTerms(pat, start, false), ParseTerms(pat, pi, hasTerm);
    && whole.Some? == rest.Some?
    && (whole.Some? ==> whole.value.1 == rest.value.1)
    && (whole.Some? ==> (InSpans(d, whole.value.0, v) <==> hit || InSpans(d, rest.value.0, v)))
  }

  lemma ClassScanStart(d: Dialect, pat: seq<byte>, start: nat, v: byte)
    ensures ClassScan(d, pat, start, start, false, false, v)
  {
  }

  /** The scan ends at the closing bracket, or runs off a class that is not closed. */
  lemma ClassScanEnd(d: Dialect, pat: seq<byte>, start: nat, pi: nat, hasTerm: bool, hit: bool, v: byte)
    requires ClassScan(d, pat, start, pi, hasTerm, hit, v)
    requires pi < |pat| ==> pat[pi] == CLOSE && hasTerm
    ensures if pi < |pat|
            then && ParseTerms(pat, start, false).Some? && ParseTerms(pat, start, false).value.1 == pi + 1
                 && InSpans(d, ParseTerms(pat, start, false).value.0, v) == hit
            else ParseTerms(pat, start, false).None?
  {
  }

  lemma ClassScanStep(d: Dialect, pat: seq<byte>, start: nat, pi: nat, hasTerm: bool, hit: bool, v: byte)
    requires ClassScan(d, pat, start, pi, hasTerm, hit, v)
    requires pi < |pat| && !(pat[pi] == CLOSE && hasTerm)
    ensures match ParseTerm(pat, pi)
            case None => ParseTerms(pat, start, false).None?
            case Some((span, next)) => ClassScan(d, pat, start, next, true, hit || InSpan(d, span, v), v)
  {
    hide ParseTerm, InSpans, InSpan;
    if ParseTerm(pat, pi).Some? {
      var (span, next) := ParseTerm(pat, pi).value;
      if ParseTerms(pat, next, true).Some? {
        InSpansCons(d, span, ParseTerms(pat, next, true).value.0, v);
      }
    }
  }

  // ---------------------------------------------------------------- meaning

  /** Whether a token other than `*` takes the byte `v`. */
  predicate AcceptsByte(d: Dialect, t: Token, v: byte) {
    match t
    case Star => false
    case AnyByte => d.Sdk? ==> v != SLASH
    case Class(negated, spans) => InSpans(d, spans, v) != negated && (d.Sdk? ==> v != SLASH)
    case Literal(b) => if d.Sdk? then Lower(v) == Lower(b) else v == b
    case Malformed => false
  }

  predicate Accepts(d: Dialect, t: Token, part: seq<byte>) {
    if t.Star? then d.Sdk? ==> SLASH !in part
    else |part| == 1 && AcceptsByte(d, t, part[0])
  }

  function Flatten(parts: seq<seq<byte>>): (s: seq<byte>) {
    if parts == [] then [] else parts[0] + Flatten(parts[1..])
  }

  /** `parts` assigns to every token the piece of `path` it takes. */
  ghost predicate IsAssignment(d: Dialect, ts: seq<Token>, path: seq<byte>, parts: seq<seq<byte>>) {
    && |parts| == |ts|
    && Flatten(parts) == path
    && forall i :: 0 <= i < |ts| ==> Accepts(d, ts[i], parts[i])
  }

  /** The reference meaning: some assignment consumes the whole path. */
  ghost predicate Consumes(d: Dialect, ts: seq<Token>, path: seq<byte>) {
    exists parts :: IsAssignment(d, ts, path, parts)
  }

  /** The same meaning by trying every split, one byte at a time. */
  predicate Matches(d: Dialect, ts: seq<Token>, a: seq<byte>)
    decreases |ts| + |a|
  {
    if ts == [] then a == []
    else if ts[0].Star? then
      || Matches(d, ts[1..], a)
      || (a != [] && (d.Sdk? ==> a[0] != SLASH) && Matches(d, ts, a[1..]))
    else a != [] && AcceptsByte(d, ts[0], a[0]) && Matches(d, ts[1..], a[1..])
  }

  lemma {:induction false} MatchesGivesAssignment(d: Dialect, ts: seq<Token>, a: seq<byte>)
    returns (parts: seq<seq<byte>>)
    requires Matches(d, ts, a)
    ensures IsAssignment(d, ts, a, parts)
    decreases |ts| + |a|
  {
    if ts == [] {
      parts := [];
    } else if ts[0].Star? && !Matches(d, ts[1..], a) {
      var rest := MatchesGivesAssignment(d, ts, a[1..]);
      parts := [[a[0]] + rest[0]] + rest[1..];
      assert parts[1..] == rest[1..];
      assert a == [a[0]] + a[1..];
      forall i | 0 <= i < |ts| ensures Accepts(d, ts[i], parts[i]) {
        if i > 0 { assert parts[i] == rest[i]; }
      }
    } else {
      var head := if ts[0].Star? then [] else [a[0]];
      var rest := MatchesGivesAssignment(d, ts[1..], a[|head|..]);
      parts := [head] + rest;
      assert parts[1..] == rest;
      assert a == head + a[|head|..];
      forall i | 0 <= i < |ts| ensures Accepts(d, ts[i], parts[i]) {
        if i > 0 { assert parts[i] == rest[i - 1] && ts[i] == ts[1..][i - 1]; }
      }
    }
  }

  lemma {:induction false} AssignmentGivesMatches(d: Dialect, ts: seq<Token>, a: seq<byte>, parts: seq<seq<byte>>)
    requires IsAssignment(d, ts, a, parts)
    ensures Matches(d, ts, a)
    decreases |ts| + |a|
  {
    if ts == [] {
    } else if ts[0].Star? && parts[0] != [] {
      var rest := [parts[0][1..]] + parts[1..];
      assert rest[1..] == parts[1..];
      assert a == parts[0] + Flatten(parts[1..]);
      assert a[1..] == parts[0][1..] + Flatten(parts[1..]);
      forall i | 0 <= i < |ts| ensures Accepts(d, ts[i], rest[i]) {
        if i > 0 { assert rest[i] == parts[i]; }
      }
      AssignmentGivesMatches(d, ts, a[1..], rest);
    } else {
      assert a == parts[0] + Flatten(parts[1..]);
      assert a[|parts[0]|..] == Flatten(parts[1..]);
      AssignmentGivesMatches(d, ts[1..], a[|parts[0]|..], parts[1..]);
    }
  }

  lemma MatchesIffConsumes(d: Dialect, ts: seq<Token>, a: seq<byte>)
    ensures Matches(d, ts, a) <==> Consumes(d, ts, a)
  {
    if Matches(d, ts, a) {
      var parts := MatchesGivesAssignment(d, ts, a);
    }
    if Consumes(d, ts, a) {
      var parts :| IsAssignment(d, ts, a, parts);
      AssignmentGivesMatches(d, ts, a, parts);
    }
  }
}
