/** The file server's glob (`src/caddy_file.rs`): a recursive matcher with a memo table, applied to
    a path component by component. Two theorems: the memo table never changes an answer, and on
    well-formed lower-case patterns the component-wise match agrees with the SDK's greedy loop. */
module FileGlob {
  import opened Bytes
  import opened Segments
  import opened GlobTokens
  import GlobSyntax
  import SdkGlob

  function FileClassByte(pattern: seq<byte>, pi: nat): (r: Option<(byte, nat)>)
  {
    if pi >= |pattern| then None
    else if pattern[pi] == ESCAPE && pi + 1 < |pattern| then Some((pattern[pi + 1], pi + 2))
    else Some((pattern[pi], pi + 1))
  }

  method GlobClassMatch(pattern: seq<byte>, pi0: nat, value: byte) returns (r: Option<(bool, nat)>)
    ensures match ParseClass(pattern, pi0)
            case None => r.None?
            case Some((t, next)) => r == Some((InSpans(File, t.spans, value) != t.negated, next))
  {
    hide ClassScan, InSpans, ParseTerms;
    var pi := pi0;
    var negated := pi < |pattern| && pattern[pi] == CARET;
    if negated {
      pi := pi + 1;
    }
    var hit, hasTerm := false, false;
    ghost var start0 := pi;
    ClassScanStart(File, pattern, pi, value);
    while pi < |pattern|
      invariant ClassScan(File, pattern, start0, pi, hasTerm, hit, value)
      decreases |pattern| - pi
    {
      if pattern[pi] == CLOSE && hasTerm {
        ClassScanEnd(File, pattern, start0, pi, hasTerm, hit, value);
        return Some((if negated then !hit else hit, pi + 1));
      }
      ClassScanStep(File, pattern, start0, pi, hasTerm, hit, value);
      if pattern[pi] == DASH {
        return None;
      }
      var member := FileClassByte(pattern, pi);
      var start := member.value.0;
      pi := member.value.1;
      hasTerm := true;
      if pi < |pattern| && pattern[pi] == DASH {
        if pi + 1 >= |pattern| || pattern[pi + 1] == CLOSE {
          return None;
        }
        var last := FileClassByte(pattern, pi + 1);
        pi := last.value.1;
        if start <= value && value <= last.value.0 {
          hit := true;
        }
      } else if value == start {
        hit := true;
      }
    }
    ClassScanEnd(File, pattern, start0, pi, hasTerm, hit, value);
    return None;
  }

  // ---------------------------------------------------------------- the memo table

  /** The unmemoised meaning of one subproblem. */
  predicate Answer(pattern: seq<byte>, value: seq<byte>, pi: nat, vi: nat)
    requires vi <= |value|
  {
    Matches(File, Tokens(pattern, pi), value[vi..])
  }

  class Memo {
    var table: map<(nat, nat), bool>

    constructor ()
      ensures table == map[]
    {
      table := map[];
    }

    /** Every cached answer is the unmemoised one. */
    ghost predicate Sound(pattern: seq<byte>, value: seq<byte>)
      reads this
    {
      forall k :: k in table ==> k.1 <= |value| && table[k] == Answer(pattern, value, k.0, k.1)
    }
  }

  lemma AnswerUnfolds(pattern: seq<byte>, value: seq<byte>, pi: nat, vi: nat)
    requires pi < |pattern| && vi <= |value|
    ensures pattern[pi] == ASTERISK ==>
              (Answer(pattern, value, pi, vi) <==>
                 Answer(pattern, value, pi + 1, vi) || (vi < |value| && Answer(pattern, value, pi, vi + 1)))
    ensures pattern[pi] != ASTERISK ==>
              (Answer(pattern, value, pi, vi) <==>
                 && vi < |value| && AcceptsByte(File, NextToken(pattern, pi).0, value[vi])
                 && Answer(pattern, value, NextToken(pattern, pi).1, vi + 1))
  {
    assert Tokens(pattern, pi)[1..] == Tokens(pattern, NextToken(pattern, pi).1);
    if vi < |value| { assert value[vi..][1..] == value[vi + 1..]; }
    if pattern[pi] != ASTERISK { SdkGlob.NextTokenNoStar(pattern, pi); }
  }

  /** The same, spelled out for each kind of token. */
  lemma AnswerByKind(pattern: seq<byte>, value: seq<byte>, pi: nat, vi: nat)
    requires pi < |pattern| && vi < |value| && pattern[pi] != ASTERISK
    ensures Answer(pattern, value, pi, vi) <==>
              if pattern[pi] == QUESTION then Answer(pattern, value, pi + 1, vi + 1)
              else if pattern[pi] == OPEN then
                var c := ParseClass(pattern, pi + 1);
                && c.Some?
                && InSpans(File, c.value.0.spans, value[vi]) != c.value.0.negated
                && Answer(pattern, value, c.value.1, vi + 1)
              else if pattern[pi] == ESCAPE then
                pi + 1 < |pattern| && value[vi] == pattern[pi + 1] && Answer(pattern, value, pi + 2, vi + 1)
              else value[vi] == pattern[pi] && Answer(pattern, value, pi + 1, vi + 1)
  {
    hide Answer, ParseClass, InSpans;
    AnswerUnfolds(pattern, value, pi, vi);
  }

  lemma AnswerAtEnd(pattern: seq<byte>, value: seq<byte>, vi: nat)
    requires vi <= |value|
    ensures Answer(pattern, value, |pattern|, vi) <==> vi == |value|
  {
  }

  method GlobMatchInner(pattern: seq<byte>, value: seq<byte>, pi: nat, vi: nat, memo: Memo) returns (r: bool)
    requires pi <= |pattern| && vi <= |value| && memo.Sound(pattern, value)
    modifies memo
    ensures r == Answer(pattern, value, pi, vi)
    ensures memo.Sound(pattern, value)
    ensures forall k :: k in old(memo.table) ==> k in memo.table
    decreases |pattern| - pi + |value| - vi
  {
    hide Answer, NextToken, ParseClass, InSpans, AcceptsByte;
    if (pi, vi) in memo.table {
      return memo.table[(pi, vi)];
    }
    if pi == |pattern| {
      r := vi == |value|;
      AnswerAtEnd(pattern, value, vi);
    } else {
      AnswerUnfolds(pattern, value, pi, vi);
      if pattern[pi] != ASTERISK && vi < |value| {
        AnswerByKind(pattern, value, pi, vi);
      }
      if pattern[pi] == ASTERISK {
        r := GlobMatchInner(pattern, value, pi + 1, vi, memo);
        if !r && vi < |value| {
          r := GlobMatchInner(pattern, value, pi, vi + 1, memo);
        }
      } else if pattern[pi] == QUESTION {
        r := vi < |value|;
        if r { r := GlobMatchInner(pattern, value, pi + 1, vi + 1, memo); }
      } else if pattern[pi] == OPEN {
        if vi >= |value| {
          r := false;
        } else {
          var class_ := GlobClassMatch(pattern, pi + 1, value[vi]);
          r := class_.Some? && class_.value.0;
          if r { r := GlobMatchInner(pattern, value, class_.value.1, vi + 1, memo); }
        }
      } else if pattern[pi] == ESCAPE {
        r := pi + 1 < |pattern| && vi < |value| && value[vi] == pattern[pi + 1];
        if r { r := GlobMatchInner(pattern, value, pi + 2, vi + 1, memo); }
      } else {
        r := vi < |value| && value[vi] == pattern[pi];
        if r { r := GlobMatchInner(pattern, value, pi + 1, vi + 1, memo); }
      }
    }
    memo.table := memo.table[(pi, vi) := r];
  }

  method GlobMatch(pattern: seq<byte>, value: seq<byte>) returns (r: bool)
    ensures r <==> Consumes(File, Tokens(pattern, 0), value)
    ensures r <==> GlobSyntax.Means(File, pattern, value)
  {
    hide GlobSyntax.Means;
    GlobSyntax.TokensMean(File, pattern, value);
    var memo := new Memo();
    r := GlobMatchInner(pattern, value, 0, 0, memo);
    assert value[0..] == value;
    MatchesIffConsumes(File, Tokens(pattern, 0), value);
  }

  // ---------------------------------------------------------------- paths

  /** Component by component, in the same number. */
  predicate AllMatch(patterns: seq<seq<byte>>, values: seq<seq<byte>>) {
    && |patterns| == |values|
    && forall i :: 0 <= i < |patterns| ==> Matches(File, Tokens(patterns[i], 0), values[i])
  }

  method PathGlobMatch(pattern: seq<byte>, value: seq<byte>) returns (r: bool)
    ensures r <==> AllMatch(Split(pattern), Split(value))
  {
    hide GlobSyntax.Means, Matches, Consumes, Tokens, Split;
    var patterns, values := Split(pattern), Split(value);
    if |patterns| != |values| {
      return false;
    }
    for i := 0 to |patterns|
      invariant forall j :: 0 <= j < i ==> Matches(File, Tokens(patterns[j], 0), values[j])
    {
      MatchesIffConsumes(File, Tokens(patterns[i], 0), values[i]);
      var ok := GlobMatch(patterns[i], values[i]);
      if !ok {
        return false;
      }
    }
    return true;
  }

  // ---------------------------------------------------------------- agreement with the SDK

  predicate IsLower(s: seq<byte>) {
    forall i :: 0 <= i < |s| ==> Lower(s[i]) == s[i]
  }

  predicate IsAscii(s: seq<byte>) {
    forall i :: 0 <= i < |s| ==> s[i] < 128
  }

  /** From `pi` on every token is well formed and no escape or class contains a slash. */
  predicate PlainSlashes(pat: seq<byte>, pi: nat)
    decreases |pat| - pi
  {
    pi < |pat| ==>
      var (t, next) := NextToken(pat, pi);
      && !t.Malformed?
      && (pat[pi] == SLASH || NoSlashIn(pat, pi, next))
      && PlainSlashes(pat, next)
  }

  /** A token whose bytes both dialects compare alike. */
  predicate Neutral(t: Token) {
    match t
    case Literal(b) => Lower(b) == b < 128
    case Class(_, spans) =>
      forall i :: 0 <= i < |spans| ==>
        Lower(spans[i].lo) == spans[i].lo < 128 && Lower(spans[i].hi) == spans[i].hi < 128
    case _ => true
  }

  predicate AllNeutral(ts: seq<Token>) {
    forall i :: 0 <= i < |ts| ==> Neutral(ts[i])
  }

  predicate NoSlashToken(ts: seq<Token>) {
    forall i :: 0 <= i < |ts| ==> ts[i] != Literal(SLASH)
  }

  /** `w` is the stretch of `pat` that begins at `lo`. */
  predicate Window(pat: seq<byte>, w: seq<byte>, lo: nat) {
    lo + |w| <= |pat| && forall i :: 0 <= i < |w| ==> w[i] == pat[lo + i]
  }

  lemma ClassByteInWindow(pat: seq<byte>, w: seq<byte>, lo: nat, pi: nat)
    requires Window(pat, w, lo) && pi < |w| && ClassByte(pat, lo + pi).1 <= lo + |w|
    ensures ClassByte(w, pi) == (ClassByte(pat, lo + pi).0, ClassByte(pat, lo + pi).1 - lo)
  {
    if pi + 1 < |w| { assert w[pi + 1] == pat[lo + pi + 1]; }
  }

  lemma TermInWindow(pat: seq<byte>, w: seq<byte>, lo: nat, pi: nat)
    requires Window(pat, w, lo) && pi < |w| && ParseTerm(pat, lo + pi).Some?
    requires ParseTerm(pat, lo + pi).value.1 < lo + |w|
    ensures ParseTerm(w, pi) == Some((ParseTerm(pat, lo + pi).value.0, ParseTerm(pat, lo + pi).value.1 - lo))
  {
    var p1 := ClassByte(pat, lo + pi).1;
    ClassByteInWindow(pat, w, lo, pi);
    assert w[pi] == pat[lo + pi] && w[p1 - lo] == pat[p1];
    if pat[p1] == DASH {
      assert w[p1 + 1 - lo] == pat[p1 + 1];
      ClassByteInWindow(pat, w, lo, p1 + 1 - lo);
    }
  }

  /** A class that lies inside the window reads the same there. */
  lemma {:induction false} TermsInWindow(pat: seq<byte>, w: seq<byte>, lo: nat, pi: nat, hasTerm: bool)
    requires Window(pat, w, lo) && ParseTerms(pat, lo + pi, hasTerm).Some?
    requires ParseTerms(pat, lo + pi, hasTerm).value.1 <= lo + |w|
    ensures ParseTerms(w, pi, hasTerm)
         == Some((ParseTerms(pat, lo + pi, hasTerm).value.0, ParseTerms(pat, lo + pi, hasTerm).value.1 - lo))
    decreases |pat| - pi
  {
    hide ParseTerm;
    assert w[pi] == pat[lo + pi];
    if !(pat[lo + pi] == CLOSE && hasTerm) {
      TermInWindow(pat, w, lo, pi);
      TermsInWindow(pat, w, lo, ParseTerm(pat, lo + pi).value.1 - lo, true);
    }
  }

  lemma TokenInWindow(pat: seq<byte>, w: seq<byte>, lo: nat, pi: nat)
    requires Window(pat, w, lo) && pi < |w|
    requires !NextToken(pat, lo + pi).0.Malformed? && NextToken(pat, lo + pi).1 <= lo + |w|
    ensures NextToken(w, pi) == (NextToken(pat, lo + pi).0, NextToken(pat, lo + pi).1 - lo)
  {
    hide ParseTerms;
    var p := lo + pi;
    assert w[pi] == pat[p];
    if pat[p] == OPEN {
      assert w[pi + 1] == pat[p + 1];
      TermsInWindow(pat, w, lo, if pat[p + 1] == CARET then pi + 2 else pi + 1, false);
    } else if pat[p] == ESCAPE {
      assert w[pi + 1] == pat[p + 1];
    }
  }

  predicate NoSlashIn(pat: seq<byte>, lo: nat, hi: nat) {
    forall i :: lo <= i < hi <= |pat| ==> pat[i] != SLASH
  }

  lemma TokensUnfold(pat: seq<byte>, pi: nat)
    ensures pi < |pat| ==> Tokens(pat, pi) == [NextToken(pat, pi).0] + Tokens(pat, NextToken(pat, pi).1)
    ensures pi >= |pat| ==> Tokens(pat, pi) == []
  {
  }

  /** Up to the first slash the pattern tokenises on its own. */
  lemma {:induction false} TokensBeforeSlash(pat: seq<byte>, w: seq<byte>, pi: nat)
    requires Window(pat, w, 0) && pi <= |w| < |pat| && pat[|w|] == SLASH
    requires NoSlashIn(pat, pi, |w|) && PlainSlashes(pat, pi)
    ensures PlainSlashes(pat, |w|)
    ensures Tokens(pat, pi) == Tokens(w, pi) + Tokens(pat, |w|)
    decreases |w| - pi
  {
    hide NextToken, Window, Tokens;
    TokensUnfold(w, pi);
    if pi < |w| {
      var (t, next) := NextToken(pat, pi);
      assert next <= |w|;
      TokensBeforeSlash(pat, w, next);
      TokenInWindow(pat, w, 0, pi);
      TokensUnfold(pat, pi);
      assert [t] + (Tokens(w, next) + Tokens(pat, |w|)) == ([t] + Tokens(w, next)) + Tokens(pat, |w|);
    }
  }

  lemma {:induction false} TokensAfter(pat: seq<byte>, w: seq<byte>, lo: nat, pi: nat)
    requires Window(pat, w, lo) && lo + |w| == |pat| && pi <= |w| && PlainSlashes(pat, lo + pi)
    ensures PlainSlashes(w, pi) && Tokens(w, pi) == Tokens(pat, lo + pi)
    decreases |w| - pi
  {
    hide NextToken, Tokens;
    TokensUnfold(w, pi);
    TokensUnfold(pat, lo + pi);
    if pi < |w| {
      var next := NextToken(pat, lo + pi).1;
      TokenInWindow(pat, w, lo, pi);
      TokensAfter(pat, w, lo, next - lo);
    }
  }

  lemma {:induction false} NeutralTerms(pat: seq<byte>, pi: nat, hasTerm: bool)
    requires IsLower(pat) && IsAscii(pat) && ParseTerms(pat, pi, hasTerm).Some?
    ensures Neutral(Class(false, ParseTerms(pat, pi, hasTerm).value.0))
    decreases |pat| - pi
  {
    if !(pat[pi] == CLOSE && hasTerm) {
      NeutralTerms(pat, ParseTerm(pat, pi).value.1, true);
    }
  }

  lemma {:induction false} NeutralTokens(pat: seq<byte>, pi: nat)
    requires IsLower(pat) && IsAscii(pat)
    ensures AllNeutral(Tokens(pat, pi))
    decreases |pat| - pi
  {
    if pi < |pat| {
      var (t, next) := NextToken(pat, pi);
      if t.Class? {
        NeutralTerms(pat, if pat[pi + 1] == CARET then pi + 2 else pi + 1, false);
      }
      NeutralTokens(pat, next);
    }
  }

  lemma {:induction false} NoSlashTokens(pat: seq<byte>, pi: nat)
    requires SLASH !in pat
    ensures NoSlashToken(Tokens(pat, pi))
    decreases |pat| - pi
  {
    if pi < |pat| {
      NoSlashTokens(pat, NextToken(pat, pi).1);
    }
  }

  lemma DialectsAgreeOnByte(t: Token, v: byte)
    requires Neutral(t) && v != SLASH && Lower(v) == v
    ensures AcceptsByte(Sdk, t, v) <==> AcceptsByte(File, t, v)
  {
    if t.Class? {
      forall i | 0 <= i < |t.spans| ensures InSpan(Sdk, t.spans[i], v) <==> InSpan(File, t.spans[i], v) {}
    }
  }

  lemma {:induction false} DialectsAgree(ts: seq<Token>, a: seq<byte>)
    requires AllNeutral(ts) && SLASH !in a && IsLower(a)
    ensures Matches(Sdk, ts, a) <==> Matches(File, ts, a)
    decreases |ts| + |a|
  {
    if ts != [] {
      if a != [] && !ts[0].Star? { DialectsAgreeOnByte(ts[0], a[0]); }
      if a != [] && ts[0].Star? { DialectsAgree(ts, a[1..]); }
      if ts[0].Star? { DialectsAgree(ts[1..], a); } else if a != [] { DialectsAgree(ts[1..], a[1..]); }
    }
  }

  /** Without a literal slash the SDK dialect cannot get past one. */
  lemma {:induction false} SlashBlocks(ts: seq<Token>, a: seq<byte>)
    requires AllNeutral(ts) && NoSlashToken(ts) && Matches(Sdk, ts, a)
    ensures SLASH !in a
    decreases |ts| + |a|
  {
    if ts != [] {
      if ts[0].Star? && !Matches(Sdk, ts[1..], a) {
        SlashBlocks(ts, a[1..]);
        assert a == [a[0]] + a[1..];
      } else if ts[0].Star? {
        SlashBlocks(ts[1..], a);
      } else {
        SlashBlocks(ts[1..], a[1..]);
        assert a == [a[0]] + a[1..];
      }
    }
  }

  /** A literal slash meets the first slash of the path. */
  lemma {:induction false} SlashSplits(ts: seq<Token>, rest: seq<Token>, a: seq<byte>)
    requires AllNeutral(ts) && NoSlashToken(ts)
    ensures Matches(Sdk, ts + [Literal(SLASH)] + rest, a)
       <==> SLASH in a && Matches(Sdk, ts, a[..FirstSlash(a)]) && Matches(Sdk, rest, a[FirstSlash(a) + 1..])
    decreases |ts| + |a|
  {
    var all := ts + [Literal(SLASH)] + rest;
    if ts == [] {
      assert all[1..] == rest;
    } else {
      assert all[1..] == ts[1..] + [Literal(SLASH)] + rest;
      if ts[0].Star? { SlashSplits(ts[1..], rest, a); }
      if a != [] && a[0] != SLASH {
        SlashSplits(if ts[0].Star? then ts else ts[1..], rest, a[1..]);
        if SLASH in a {
          var k := FirstSlash(a);
          assert a[1..][k - 1] == SLASH;
          assert a[..k][1..] == a[1..][..k - 1] && a[1..][k..] == a[k + 1..];
        }
      }
    }
  }

  predicate Comparable(pattern: seq<byte>, value: seq<byte>) {
    IsLower(pattern) && IsAscii(pattern) && PlainSlashes(pattern, 0) && IsLower(value)
  }

  /** One component: the SDK dialect refuses a path with a slash, and otherwise agrees. */
  lemma AgreesOnComponent(pattern: seq<byte>, value: seq<byte>)
    requires IsLower(pattern) && IsAscii(pattern) && IsLower(value) && SLASH !in pattern
    ensures Matches(Sdk, Tokens(pattern, 0), value) <==> SLASH !in value && Matches(File, Tokens(pattern, 0), value)
  {
    var ts := Tokens(pattern, 0);
    NeutralTokens(pattern, 0);
    NoSlashTokens(pattern, 0);
    if SLASH !in value {
      DialectsAgree(ts, value);
    } else if Matches(Sdk, ts, value) {
      SlashBlocks(ts, value);
    }
  }

  /** The pattern's first slash cuts both the pattern and the path. */
  lemma AgreesUpToSlash(pattern: seq<byte>, value: seq<byte>)
    requires Comparable(pattern, value) && SLASH in pattern
    ensures var k := FirstSlash(pattern);
            && PlainSlashes(pattern[k + 1..], 0)
            && (Matches(Sdk, Tokens(pattern, 0), value) <==>
                && SLASH in value
                && Matches(File, Tokens(pattern[..k], 0), value[..FirstSlash(value)])
                && Matches(Sdk, Tokens(pattern[k + 1..], 0), value[FirstSlash(value) + 1..]))
  {
    hide NextToken, Matches, AllNeutral, NoSlashToken;
    var k := FirstSlash(pattern);
    var p1, p2 := pattern[..k], pattern[k + 1..];
    TokensAround(pattern);
    NoSlashTokens(p1, 0);
    NeutralTokens(p1, 0);
    SlashSplits(Tokens(p1, 0), Tokens(p2, 0), value);
    if SLASH in value {
      AgreesOnComponent(p1, value[..FirstSlash(value)]);
    }
  }

  lemma TokensAround(pattern: seq<byte>)
    requires PlainSlashes(pattern, 0) && SLASH in pattern
    ensures var k := FirstSlash(pattern);
            && Tokens(pattern, 0) == Tokens(pattern[..k], 0) + [Literal(SLASH)] + Tokens(pattern[k + 1..], 0)
            && PlainSlashes(pattern[k + 1..], 0)
  {
    hide NextToken, PlainSlashes, Tokens;
    var k := FirstSlash(pattern);
    var p1, p2 := pattern[..k], pattern[k + 1..];
    assert Window(pattern, p1, 0) && Window(pattern, p2, k + 1);
    assert NoSlashIn(pattern, 0, k) by { assert forall i :: 0 <= i < k ==> p1[i] == pattern[i]; }
    TokensBeforeSlash(pattern, p1, 0);
    SlashToken(pattern, k);
    TokensAfter(pattern, p2, k + 1, 0);
  }

  lemma SlashToken(pat: seq<byte>, k: nat)
    requires k < |pat| && pat[k] == SLASH && PlainSlashes(pat, k)
    ensures Tokens(pat, k) == [Literal(SLASH)] + Tokens(pat, k + 1) && PlainSlashes(pat, k + 1)
  {
    assert NextToken(pat, k) == (Literal(SLASH), k + 1);
  }

  /** On well-formed lower-case ASCII patterns whose slashes are all plain, and on paths without
      upper-case letters, the component-wise match is the SDK's meaning. */
  lemma {:induction false} AgreesWithSdk(pattern: seq<byte>, value: seq<byte>)
    requires Comparable(pattern, value)
    ensures AllMatch(Split(pattern), Split(value)) <==> Matches(Sdk, Tokens(pattern, 0), value)
    decreases |pattern|
  {
    hide Matches, PlainSlashes, Tokens, AllMatch;
    if SLASH !in pattern {
      AgreesOnComponent(pattern, value);
      AllMatchOne(pattern, Split(value));
    } else {
      var k := FirstSlash(pattern);
      AgreesUpToSlash(pattern, value);
      if SLASH in value {
        var j := FirstSlash(value);
        AgreesWithSdk(pattern[k + 1..], value[j + 1..]);
        AllMatchCons(pattern[..k], Split(pattern[k + 1..]), value[..j], Split(value[j + 1..]));
      } else {
        AllMatchOne(value, Split(pattern));
      }
    }
  }

  lemma AllMatchOne(x: seq<byte>, ys: seq<seq<byte>>)
    ensures AllMatch([x], ys) <==> |ys| == 1 && Matches(File, Tokens(x, 0), ys[0])
    ensures |ys| != 1 ==> !AllMatch(ys, [x])
  {
    if |ys| == 1 { assert [x][0] == x; }
  }

  lemma AllMatchCons(p: seq<byte>, ps: seq<seq<byte>>, v: seq<byte>, vs: seq<seq<byte>>)
    ensures AllMatch([p] + ps, [v] + vs) <==> Matches(File, Tokens(p, 0), v) && AllMatch(ps, vs)
  {
    hide Matches, Tokens;
    var pp, vv := [p] + ps, [v] + vs;
    if AllMatch(pp, vv) {
      assert pp[0] == p && vv[0] == v;
      forall i | 0 <= i < |ps| ensures Matches(File, Tokens(ps[i], 0), vs[i]) {
        assert pp[i + 1] == ps[i] && vv[i + 1] == vs[i];
      }
    }
  }

  /** Both programs therefore give the same answer. */
  method BothGlobs(pattern: seq<byte>, value: seq<byte>) returns (file: bool, sdk: bool)
    requires Comparable(pattern, value)
    ensures file == sdk
  {
    file := PathGlobMatch(pattern, value);
    sdk := SdkGlob.GlobFold(value, pattern);
    MatchesIffConsumes(Sdk, Tokens(pattern, 0), value);
    AgreesWithSdk(pattern, value);
  }
}
