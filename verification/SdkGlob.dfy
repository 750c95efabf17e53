/** The iterative glob of the C SDK (`sdk/zeroserve_caddy.h`). It walks the path once and, on a
    mismatch, only ever returns to the most recent `*`. The theorem is that nothing is lost:
    the loop answers yes exactly when some assignment of slash-free runs to the stars and of
    single bytes to the other tokens consumes the whole path. */
module SdkGlob {
  import opened Bytes
  import opened GlobTokens
  import GlobSyntax

  /** The class matcher; `pi0` is the index after the opening bracket. */
  method ClassMatchFold(pat: seq<byte>, pi0: nat, value: byte) returns (matched: bool, pi: nat)
    ensures match ParseClass(pat, pi0)
            case None => !matched && pi == pi0
            case Some((t, next)) => pi == next && matched == (InSpans(Sdk, t.spans, value) != t.negated)
  {
    hide ClassScan, InSpans, ParseTerms;
    var negated, hit, hasTerm := false, false, false;
    pi := pi0;
    if pi < |pat| && pat[pi] == CARET {
      negated := true;
      pi := pi + 1;
    }
    ghost var start0 := pi;
    ClassScanStart(Sdk, pat, pi, value);
    while pi < |pat|
      invariant ClassScan(Sdk, pat, start0, pi, hasTerm, hit, value)
      decreases |pat| - pi
    {
      if pat[pi] == CLOSE && hasTerm {
        ClassScanEnd(Sdk, pat, start0, pi, hasTerm, hit, value);
        return if negated then !hit else hit, pi + 1;
      }
      ClassScanStep(Sdk, pat, start0, pi, hasTerm, hit, value);
      if pat[pi] == DASH {
        return false, pi0;
      }
      var (start, p1) := ClassByte(pat, pi);
      pi := p1;
      hasTerm := true;
      if pi < |pat| && pat[pi] == DASH {
        if pi + 1 >= |pat| || pat[pi + 1] == CLOSE {
          return false, pi0;
        }
        var (end, p2) := ClassByte(pat, pi + 1);
        pi := p2;
        if Signed(Lower(start)) <= Signed(Lower(value)) && Signed(Lower(value)) <= Signed(Lower(end)) {
          hit := true;
        }
      } else if Lower(value) == Lower(start) {
        hit := true;
      }
    }
    ClassScanEnd(Sdk, pat, start0, pi, hasTerm, hit, value);
    return false, pi0;
  }

  /** What the token matcher reads at `pi`; called on its own it takes a `*` as a plain byte. */
  function TokenAt(pat: seq<byte>, pi: nat): (r: (Token, nat))
    requires pi < |pat|
  {
    if pat[pi] == ASTERISK then (Literal(ASTERISK), pi + 1) else NextToken(pat, pi)
  }

  /** Advances both cursors over one token, or neither. */
  method PathTokenMatchFold(a: seq<byte>, ai0: nat, pat: seq<byte>, pi0: nat)
    returns (ok: bool, ai: nat, pi: nat)
    ensures ok <==> ai0 < |a| && pi0 < |pat| && AcceptsByte(Sdk, TokenAt(pat, pi0).0, a[ai0])
    ensures if ok then ai == ai0 + 1 && pi == TokenAt(pat, pi0).1 else ai == ai0 && pi == pi0
  {
    ok, ai, pi := false, ai0, pi0;
    if ai >= |a| || pi >= |pat| {
      return;
    }
    if pat[pi] == QUESTION {
      if a[ai] == SLASH { return; }
      return true, ai + 1, pi + 1;
    }
    if pat[pi] == OPEN {
      var matched, next := ClassMatchFold(pat, pi + 1, a[ai]);
      if next == pi + 1 { return; }
      if !matched || a[ai] == SLASH { return; }
      return true, ai + 1, next;
    }
    if pat[pi] == ESCAPE {
      if pi + 1 >= |pat| { return; }
      if Lower(a[ai]) != Lower(pat[pi + 1]) { return; }
      return true, ai + 1, pi + 2;
    }
    if Lower(a[ai]) == Lower(pat[pi]) {
      return true, ai + 1, pi + 1;
    }
  }

  // ---------------------------------------------------------------- why the last star is enough

  predicate NoStar(ts: seq<Token>) {
    forall i :: 0 <= i < |ts| ==> !ts[i].Star?
  }

  /** Every byte of `a` is taken by the token above it. */
  predicate Aligned(ts: seq<Token>, a: seq<byte>) {
    |ts| <= |a| && forall i :: 0 <= i < |ts| ==> AcceptsByte(Sdk, ts[i], a[i])
  }

  /** A single-byte token takes either only slashes or no slash at all. */
  lemma SlashIsFixed(t: Token, u: byte, v: byte)
    requires AcceptsByte(Sdk, t, u) && AcceptsByte(Sdk, t, v)
    ensures u == SLASH <==> v == SLASH
  {
  }

  /** A star-free prefix of the pattern takes exactly as many bytes as it has tokens. */
  lemma {:induction false} FixedPrefix(seg: seq<Token>, rest: seq<Token>, a: seq<byte>)
    requires NoStar(seg) && Matches(Sdk, seg + rest, a)
    ensures Aligned(seg, a) && Matches(Sdk, rest, a[|seg|..])
    decreases |seg|
  {
    if seg == [] {
      assert seg + rest == rest && a[0..] == a;
    } else {
      assert (seg + rest)[1..] == seg[1..] + rest;
      FixedPrefix(seg[1..], rest, a[1..]);
      assert a[1..][|seg| - 1..] == a[|seg|..];
      forall i | 0 <= i < |seg| ensures AcceptsByte(Sdk, seg[i], a[i]) {
        if i > 0 { assert AcceptsByte(Sdk, seg[1..][i - 1], a[1..][i - 1]); }
      }
    }
  }

  /** The run a leading star takes. */
  lemma {:induction false} StarRun(ts: seq<Token>, a: seq<byte>) returns (k: nat)
    requires ts != [] && ts[0].Star? && Matches(Sdk, ts, a)
    ensures k <= |a| && SLASH !in a[..k] && Matches(Sdk, ts[1..], a[k..])
    decreases |a|
  {
    if Matches(Sdk, ts[1..], a) {
      assert a[0..] == a;
      return 0;
    }
    var j := StarRun(ts, a[1..]);
    k := j + 1;
    assert a[..k] == [a[0]] + a[1..][..j];
    assert a[1..][j..] == a[k..];
  }

  lemma {:induction false} StarAbsorbs(ts: seq<Token>, a: seq<byte>, k: nat)
    requires ts != [] && ts[0].Star? && k <= |a| && SLASH !in a[..k] && Matches(Sdk, ts, a[k..])
    ensures Matches(Sdk, ts, a)
    decreases k
  {
    if k == 0 {
      assert a[0..] == a;
    } else {
      assert a[1..][k - 1..] == a[k..];
      assert a[0] == a[..k][0] && a[1..][..k - 1] == a[..k][1..];
      StarAbsorbs(ts, a[1..], k - 1);
    }
  }

  /** If the same tokens lie over `a` and over `a` shifted by `k`, and the first `k` bytes hold no
      slash, then no byte up to the end of the shifted copy is a slash. */
  lemma {:induction false} NoSlashUpTo(seg: seq<Token>, a: seq<byte>, k: nat, j: nat)
    requires 0 < k <= |a| && SLASH !in a[..k]
    requires Aligned(seg, a) && Aligned(seg, a[k..])
    requires j < k + |seg|
    ensures a[j] != SLASH
    decreases j
  {
    if j < k {
      assert a[j] == a[..k][j];
    } else {
      NoSlashUpTo(seg, a, k, j - k);
      assert a[j] == a[k..][j - k];
      SlashIsFixed(seg[j - k], a[j - k], a[j]);
    }
  }

  /** The exchange argument: a match that gives the earlier star `k` more bytes can be turned into
      one that starts the later star where the greedy scan reached it. */
  lemma ShiftedMatchSuffices(seg: seq<Token>, rest: seq<Token>, a: seq<byte>, k: nat)
    requires NoStar(seg) && rest != [] && rest[0].Star?
    requires Aligned(seg, a) && 0 < k <= |a| && SLASH !in a[..k]
    requires Matches(Sdk, seg + rest, a[k..])
    ensures Matches(Sdk, rest, a[|seg|..])
  {
    var n := |seg|;
    FixedPrefix(seg, rest, a[k..]);
    assert a[k..][n..] == a[n..][k..];
    forall i | 0 <= i < k ensures a[n..][..k][i] != SLASH {
      NoSlashUpTo(seg, a, k, n + i);
    }
    StarAbsorbs(rest, a[n..], k);
  }

  lemma LaterStarSuffices(ts: seq<Token>, seg: seq<Token>, rest: seq<Token>, a: seq<byte>)
    requires ts != [] && ts[0].Star? && ts[1..] == seg + rest
    requires NoStar(seg) && rest != [] && rest[0].Star?
    requires Aligned(seg, a) && a != [] && a[0] != SLASH
    requires Matches(Sdk, ts, a[1..])
    ensures Matches(Sdk, rest, a[|seg|..])
  {
    var b := a[1..];
    var j := StarRun(ts, b);
    var k := j + 1;
    assert b[j..] == a[k..];
    assert SLASH !in a[..k] by { assert a[..k] == [a[0]] + b[..j]; }
    ShiftedMatchSuffices(seg, rest, a, k);
  }

  /** When the whole path is used up, giving the last star more leaves too few bytes. */
  lemma NoSlackAtEnd(ts: seq<Token>, seg: seq<Token>, rest: seq<Token>, a: seq<byte>)
    requires ts != [] && ts[0].Star? && ts[1..] == seg + rest
    requires NoStar(seg) && |a| == |seg| && a != []
    ensures !Matches(Sdk, ts, a[1..])
  {
    if Matches(Sdk, ts, a[1..]) {
      var j := StarRun(ts, a[1..]);
      FixedPrefix(seg, rest, a[1..][j..]);
    }
  }

  /** The loop's other hope: to give one more byte to the star at `star`. */
  predicate CanRetry(pat: seq<byte>, a: seq<byte>, star: nat, mark: nat) {
    star < |pat| && mark < |a| && a[mark] != SLASH && Matches(Sdk, Tokens(pat, star), a[mark + 1..])
  }

  /** Since the star at `star` the scan has laid the tokens `seg` over the bytes from `mark` on. */
  ghost predicate SinceStar(pat: seq<byte>, a: seq<byte>, star: nat, mark: nat, pi: nat, ai: nat, seg: seq<Token>) {
    && star < pi <= |pat|
    && mark <= ai <= |a|
    && pat[star] == ASTERISK
    && NoStar(seg)
    && |seg| == ai - mark
    && Aligned(seg, a[mark..])
    && Tokens(pat, star + 1) == seg + Tokens(pat, pi)
  }

  lemma StarTokens(pat: seq<byte>, pi: nat)
    requires pi < |pat| && pat[pi] == ASTERISK
    ensures Tokens(pat, pi) != [] && Tokens(pat, pi)[0].Star? && Tokens(pat, pi)[1..] == Tokens(pat, pi + 1)
  {
  }

  lemma NextTokenNoStar(pat: seq<byte>, pi: nat)
    requires pi < |pat| && pat[pi] != ASTERISK
    ensures !NextToken(pat, pi).0.Star?
  {
  }

  lemma AlignedExtends(seg: seq<Token>, t: Token, a: seq<byte>)
    requires Aligned(seg, a) && |seg| < |a| && AcceptsByte(Sdk, t, a[|seg|])
    ensures Aligned(seg + [t], a)
  {
  }

  lemma SinceStarExtends(pat: seq<byte>, a: seq<byte>, star: nat, mark: nat, pi: nat, ai: nat, seg: seq<Token>)
    requires SinceStar(pat, a, star, mark, pi, ai, seg)
    requires pi < |pat| && ai < |a| && pat[pi] != ASTERISK
    requires AcceptsByte(Sdk, NextToken(pat, pi).0, a[ai])
    ensures SinceStar(pat, a, star, mark, NextToken(pat, pi).1, ai + 1, seg + [NextToken(pat, pi).0])
  {
    hide NextToken, AcceptsByte, Aligned;
    var t := NextToken(pat, pi).0;
    var rest := Tokens(pat, NextToken(pat, pi).1);
    NextTokenNoStar(pat, pi);
    assert Tokens(pat, pi) == [t] + rest;
    assert seg + ([t] + rest) == (seg + [t]) + rest;
    AlignedExtends(seg, t, a[mark..]);
  }

  /** Reaching a new star, the scan may forget the old one. */
  lemma OldStarForgotten(pat: seq<byte>, a: seq<byte>, star: nat, mark: nat, pi: nat, ai: nat, seg: seq<Token>)
    requires SinceStar(pat, a, star, mark, pi, ai, seg)
    requires pi < |pat| && pat[pi] == ASTERISK
    requires CanRetry(pat, a, star, mark)
    ensures Matches(Sdk, Tokens(pat, pi), a[ai..])
  {
    hide NextToken, Matches;
    StarTokens(pat, star);
    StarTokens(pat, pi);
    assert a[mark + 1..] == a[mark..][1..];
    LaterStarSuffices(Tokens(pat, star), seg, Tokens(pat, pi), a[mark..]);
    assert a[mark..][|seg|..] == a[ai..];
  }

  lemma NoRetryAtEnd(pat: seq<byte>, a: seq<byte>, star: nat, mark: nat, pi: nat, seg: seq<Token>)
    requires SinceStar(pat, a, star, mark, pi, |a|, seg)
    ensures !CanRetry(pat, a, star, mark)
  {
    if mark < |a| {
      assert a[mark + 1..] == a[mark..][1..];
      StarTokens(pat, star);
      NoSlackAtEnd(Tokens(pat, star), seg, Tokens(pat, pi), a[mark..]);
    }
  }

  lemma UnfoldStar(pat: seq<byte>, a: seq<byte>, star: nat, mark: nat)
    requires star < |pat| && pat[star] == ASTERISK && mark <= |a|
    ensures Matches(Sdk, Tokens(pat, star), a[mark..])
       <==> Matches(Sdk, Tokens(pat, star + 1), a[mark..]) || CanRetry(pat, a, star, mark)
    ensures SinceStar(pat, a, star, mark, star + 1, mark, [])
  {
    StarTokens(pat, star);
    if mark < |a| { assert a[mark..][1..] == a[mark + 1..]; }
  }

  lemma UnfoldToken(pat: seq<byte>, a: seq<byte>, pi: nat, ai: nat)
    requires pi <= |pat| && (pi < |pat| ==> pat[pi] != ASTERISK) && ai < |a|
    ensures Matches(Sdk, Tokens(pat, pi), a[ai..])
       <==> && pi < |pat| && AcceptsByte(Sdk, NextToken(pat, pi).0, a[ai])
            && Matches(Sdk, Tokens(pat, NextToken(pat, pi).1), a[ai + 1..])
  {
    assert a[ai..][1..] == a[ai + 1..];
    if pi < |pat| {
      NextTokenNoStar(pat, pi);
      assert Tokens(pat, pi)[1..] == Tokens(pat, NextToken(pat, pi).1);
    }
  }

  /** Only stars match the empty path. */
  lemma UnfoldAtEnd(pat: seq<byte>, pi: nat)
    requires pi < |pat|
    ensures Matches(Sdk, Tokens(pat, pi), []) <==> pat[pi] == ASTERISK && Matches(Sdk, Tokens(pat, pi + 1), [])
  {
    assert Tokens(pat, pi)[1..] == Tokens(pat, NextToken(pat, pi).1);
    if pat[pi] != ASTERISK { NextTokenNoStar(pat, pi); }
  }

  /** What the loop keeps: the path matches iff the rest of the pattern matches the rest of the path
      or the last star can take one more byte. */
  ghost predicate ScanInv(pat: seq<byte>, a: seq<byte>, star: nat, mark: nat, pi: nat, ai: nat, seg: seq<Token>) {
    && ai <= |a|
    && pi <= |pat|
    && (star < |pat| ==> SinceStar(pat, a, star, mark, pi, ai, seg))
    && (Matches(Sdk, Tokens(pat, 0), a) <==>
        Matches(Sdk, Tokens(pat, pi), a[ai..]) || CanRetry(pat, a, star, mark))
  }

  lemma ScanStarts(pat: seq<byte>, a: seq<byte>)
    ensures ScanInv(pat, a, |pat|, 0, 0, 0, [])
  {
    assert a[0..] == a;
  }

  lemma ScanMeetsStar(pat: seq<byte>, a: seq<byte>, star: nat, mark: nat, pi: nat, ai: nat, seg: seq<Token>)
    requires ScanInv(pat, a, star, mark, pi, ai, seg) && pi < |pat| && pat[pi] == ASTERISK
    ensures ScanInv(pat, a, pi, ai, pi + 1, ai, [])
  {
    hide NextToken, Matches;
    if CanRetry(pat, a, star, mark) {
      OldStarForgotten(pat, a, star, mark, pi, ai, seg);
    }
    UnfoldStar(pat, a, pi, ai);
  }

  lemma ScanTakesToken(pat: seq<byte>, a: seq<byte>, star: nat, mark: nat, pi: nat, ai: nat, seg: seq<Token>)
    requires ScanInv(pat, a, star, mark, pi, ai, seg) && pi < |pat| && pat[pi] != ASTERISK && ai < |a|
    requires AcceptsByte(Sdk, NextToken(pat, pi).0, a[ai])
    ensures ScanInv(pat, a, star, mark, NextToken(pat, pi).1, ai + 1, seg + [NextToken(pat, pi).0])
  {
    hide NextToken, AcceptsByte, Matches;
    UnfoldToken(pat, a, pi, ai);
    if star < |pat| {
      SinceStarExtends(pat, a, star, mark, pi, ai, seg);
    }
  }

  lemma ScanGoesBack(pat: seq<byte>, a: seq<byte>, star: nat, mark: nat, pi: nat, ai: nat, seg: seq<Token>)
    requires ScanInv(pat, a, star, mark, pi, ai, seg) && (pi < |pat| ==> pat[pi] != ASTERISK) && ai < |a|
    requires pi < |pat| ==> !AcceptsByte(Sdk, NextToken(pat, pi).0, a[ai])
    ensures if star < |pat| && mark < |a| && a[mark] != SLASH
            then ScanInv(pat, a, star, mark + 1, star + 1, mark + 1, [])
            else !Matches(Sdk, Tokens(pat, 0), a)
  {
    hide NextToken, AcceptsByte, Matches;
    UnfoldToken(pat, a, pi, ai);
    if star < |pat| && mark < |a| && a[mark] != SLASH {
      UnfoldStar(pat, a, star, mark + 1);
    }
  }

  lemma ScanEnds(pat: seq<byte>, a: seq<byte>, star: nat, mark: nat, pi: nat, seg: seq<Token>)
    requires ScanInv(pat, a, star, mark, pi, |a|, seg)
    ensures Matches(Sdk, Tokens(pat, 0), a) <==> Matches(Sdk, Tokens(pat, pi), [])
  {
    if star < |pat| {
      NoRetryAtEnd(pat, a, star, mark, pi, seg);
    }
    assert a[|a|..] == [];
  }

  /** The matching loop of the SDK glob. */
  method GlobFold(a: seq<byte>, pat: seq<byte>) returns (r: bool)
    ensures r <==> Consumes(Sdk, Tokens(pat, 0), a)
    ensures r <==> GlobSyntax.Means(Sdk, pat, a)
  {
    hide Matches, Consumes, ScanInv, AcceptsByte, NextToken, GlobSyntax.Means;
    GlobSyntax.TokensMean(Sdk, pat, a);
    MatchesIffConsumes(Sdk, Tokens(pat, 0), a);
    var ai: nat, pi: nat, star: nat, mark: nat := 0, 0, |pat|, 0;
    ghost var seg: seq<Token> := [];
    ScanStarts(pat, a);

    while ai < |a|
      invariant ai <= |a| && pi <= |pat| && star <= |pat| && mark <= ai && (star < |pat| ==> star < pi)
      invariant ScanInv(pat, a, star, mark, pi, ai, seg)
      decreases if star == |pat| then |pat| + 1 else |pat| - star, |a| - mark, |a| - ai
    {
      if pi < |pat| && pat[pi] == ASTERISK {
        ScanMeetsStar(pat, a, star, mark, pi, ai, seg);
        star, pi, mark, seg := pi, pi + 1, ai, [];
      } else {
        var ok, ai', pi' := PathTokenMatchFold(a, ai, pat, pi);
        if ok {
          ScanTakesToken(pat, a, star, mark, pi, ai, seg);
          seg := seg + [NextToken(pat, pi).0];
          ai, pi := ai', pi';
        } else {
          ScanGoesBack(pat, a, star, mark, pi, ai, seg);
          if star != |pat| && mark < |a| && a[mark] != SLASH {
            pi, mark := star + 1, mark + 1;
            ai, seg := mark, [];
          } else {
            return false;
          }
        }
      }
    }

    ScanEnds(pat, a, star, mark, pi, seg);
    while pi < |pat| && pat[pi] == ASTERISK
      invariant pi <= |pat|
      invariant Matches(Sdk, Tokens(pat, 0), a) <==> Matches(Sdk, Tokens(pat, pi), [])
    {
      UnfoldAtEnd(pat, pi);
      pi := pi + 1;
    }
    if pi < |pat| {
      UnfoldAtEnd(pat, pi);
    } else {
      EmptyMatchesEmpty(pat);
    }
    return pi == |pat|;
  }

  lemma EmptyMatchesEmpty(pat: seq<byte>)
    ensures Matches(Sdk, Tokens(pat, |pat|), [])
  {
  }
}
