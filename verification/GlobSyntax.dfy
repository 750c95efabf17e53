/** What patterns mean, spelled out in characters. A pattern is a row of pieces, each with a text and
    a set of strings it takes, given by character codes alone. The theorems: the tokenizer reads the
    text of any pieces back, it calls malformed exactly what no pieces spell, and the meaning of the
    tokens is the meaning of the pieces. */
module GlobSyntax {
  import opened Bytes
  import opened GlobTokens

  /** A byte in a class, written as it is or behind a backslash. */
  datatype Member = Member(b: byte, escaped: bool)

  datatype Term = Single(lo: Member) | Range(lo: Member, hi: Member)

  datatype Piece =
    | AnyRun
    | AnyOne
    | Bracket(negated: bool, terms: seq<Term>)
    | Bare(b: byte)
    | Escaped(b: byte)

  // ---------------------------------------------------------------- spelling

  function MemberText(m: Member): (s: seq<byte>) { if m.escaped then ['\\' as int, m.b] else [m.b] }

  function TermText(t: Term): (s: seq<byte>)
    ensures s != []
  {
    if t.Single? then MemberText(t.lo) else MemberText(t.lo) + ['-' as int] + MemberText(t.hi)
  }

  function TermsText(ts: seq<Term>): (s: seq<byte>) {
    if ts == [] then [] else TermText(ts[0]) + TermsText(ts[1..])
  }

  function OpenText(negated: bool): (s: seq<byte>) { if negated then ['[' as int, '^' as int] else ['[' as int] }

  function PieceText(p: Piece): (s: seq<byte>)
    ensures s != []
  {
    match p
    case AnyRun => ['*' as int]
    case AnyOne => ['?' as int]
    case Bracket(negated, terms) =>
      OpenText(negated) + TermsText(terms) + [']' as int]
    case Bare(b) => [b]
    case Escaped(b) => ['\\' as int, b]
  }

  function TextOf(ps: seq<Piece>): (s: seq<byte>) {
    if ps == [] then [] else PieceText(ps[0]) + TextOf(ps[1..])
  }

  /** A closing bracket stands for itself only in front; a dash never begins a term. */
  predicate TermOk(t: Term, first: bool) {
    && (!t.lo.escaped ==> t.lo.b != '\\' as int && t.lo.b != '-' as int && (t.lo.b == ']' as int ==> first))
    && (t.Range? && !t.hi.escaped ==> t.hi.b != '\\' as int && t.hi.b != ']' as int)
  }

  predicate TermsOk(ts: seq<Term>, first: bool) {
    ts == [] || (TermOk(ts[0], first) && TermsOk(ts[1..], false))
  }

  predicate PieceOk(p: Piece) {
    match p
    case AnyRun => true
    case AnyOne => true
    case Bracket(negated, terms) =>
      && terms != [] && TermsOk(terms, true)
      && (!negated && !terms[0].lo.escaped ==> terms[0].lo.b != '^' as int)
    case Bare(b) => b != '*' as int && b != '?' as int && b != '[' as int && b != '\\' as int
    case Escaped(_) => true
  }

  predicate PiecesOk(ps: seq<Piece>) { forall i :: 0 <= i < |ps| ==> PieceOk(ps[i]) }

  // ---------------------------------------------------------------- taking

  /** The small letter for a capital one, and any other byte itself. */
  function Small(b: byte): (r: byte) { if 65 <= b <= 90 then b + 32 else b }

  /** The order of bytes as signed characters: 128 to 255, then 0 to 127. */
  function Rank(b: byte): (r: int) { (b + 128) % 256 }

  predicate InTerm(d: Dialect, t: Term, v: byte) {
    var hi := if t.Single? then t.lo.b else t.hi.b;
    match d
    case Sdk => Rank(Small(t.lo.b)) <= Rank(Small(v)) <= Rank(Small(hi))
    case File => t.lo.b <= v <= hi
  }

  predicate InBracket(d: Dialect, terms: seq<Term>, v: byte) {
    exists i :: 0 <= i < |terms| && InTerm(d, terms[i], v)
  }

  /** The strings a piece takes. For the SDK only a slash in the pattern takes a slash. */
  predicate Takes(d: Dialect, p: Piece, part: seq<byte>) {
    match p
    case AnyRun => d.Sdk? ==> '/' as int !in part
    case AnyOne => |part| == 1 && (d.Sdk? ==> part[0] != '/' as int)
    case Bracket(negated, terms) =>
      |part| == 1 && InBracket(d, terms, part[0]) != negated && (d.Sdk? ==> part[0] != '/' as int)
    case Bare(b) => |part| == 1 && if d.Sdk? then Small(part[0]) == Small(b) else part[0] == b
    case Escaped(b) => |part| == 1 && if d.Sdk? then Small(part[0]) == Small(b) else part[0] == b
  }

  ghost predicate Shares(d: Dialect, ps: seq<Piece>, path: seq<byte>, parts: seq<seq<byte>>) {
    && |parts| == |ps|
    && Flatten(parts) == path
    && forall i :: 0 <= i < |ps| ==> Takes(d, ps[i], parts[i])
  }

  // ---------------------------------------------------------------- tokens of pieces

  function SpanOf(t: Term): (s: Span) { Span(t.lo.b, if t.Single? then t.lo.b else t.hi.b) }

  function SpansOf(ts: seq<Term>): (s: seq<Span>)
    ensures |s| == |ts|
  {
    seq(|ts|, i requires 0 <= i < |ts| => SpanOf(ts[i]))
  }

  function TokenOf(p: Piece): (t: Token) {
    match p
    case AnyRun => Star
    case AnyOne => AnyByte
    case Bracket(negated, terms) => Class(negated, SpansOf(terms))
    case Bare(b) => Literal(b)
    case Escaped(b) => Literal(b)
  }

  function TokensOf(ps: seq<Piece>): (ts: seq<Token>)
    ensures |ts| == |ps|
  {
    seq(|ps|, i requires 0 <= i < |ps| => TokenOf(ps[i]))
  }

  lemma SameLower(b: byte)
    ensures Lower(b) == Small(b)
  {
  }

  lemma SameOrder(a: byte, b: byte)
    ensures Signed(a) <= Signed(b) <==> Rank(a) <= Rank(b)
  {
  }

  lemma SameTerm(d: Dialect, t: Term, v: byte)
    ensures InSpan(d, SpanOf(t), v) <==> InTerm(d, t, v)
  {
    var s := SpanOf(t);
    SameLower(s.lo); SameLower(v); SameLower(s.hi);
    SameOrder(Small(s.lo), Small(v));
    SameOrder(Small(v), Small(s.hi));
    hide Lower, Small, Rank, Signed;
  }

  lemma SameBracket(d: Dialect, terms: seq<Term>, v: byte)
    ensures InSpans(d, SpansOf(terms), v) <==> InBracket(d, terms, v)
  {
    hide InSpan, InTerm;
    forall i | 0 <= i < |terms|
      ensures InSpan(d, SpansOf(terms)[i], v) <==> InTerm(d, terms[i], v)
    {
      SameTerm(d, terms[i], v);
    }
  }

  lemma SameAccepts(d: Dialect, p: Piece, part: seq<byte>)
    ensures Accepts(d, TokenOf(p), part) <==> Takes(d, p, part)
  {
    if |part| == 1 {
      SameLower(part[0]);
      if p.Bare? || p.Escaped? { SameLower(p.b); }
      if p.Bracket? { SameBracket(d, p.terms, part[0]); }
    }
    hide InSpans, InBracket, Lower, Small;
  }

  // ---------------------------------------------------------------- reading a text

  /** `text` stands in the pattern at `pi`. */
  predicate At(pat: seq<byte>, pi: nat, text: seq<byte>) { pi + |text| <= |pat| && pat[pi..pi + |text|] == text }

  lemma AtParts(pat: seq<byte>, pi: nat, a: seq<byte>, b: seq<byte>)
    requires At(pat, pi, a + b)
    ensures At(pat, pi, a) && At(pat, pi + |a|, b)
    ensures a != [] ==> pat[pi] == a[0]
  {
    var whole := pat[pi..pi + |a + b|];
    assert whole[..|a|] == a && whole[|a|..] == b;
    assert a != [] ==> whole[0] == a[0];
  }

  lemma AtJoins(pat: seq<byte>, pi: nat, a: seq<byte>, b: seq<byte>)
    requires At(pat, pi, a) && At(pat, pi + |a|, b)
    ensures At(pat, pi, a + b)
  {
    var mid, end := pi + |a|, pi + |a| + |b|;
    assert pat[pi..mid] + pat[mid..end] == pat[pi..end];
  }

  lemma AtFront(pat: seq<byte>, pi: nat, a: seq<byte>)
    requires At(pat, pi, a) && a != []
    ensures pi < |pat| && pat[pi] == a[0]
  {
    assert pat[pi..pi + |a|][0] == a[0];
  }

  lemma AtOne(pat: seq<byte>, pi: nat, b: byte)
    ensures At(pat, pi, [b]) <==> pi < |pat| && pat[pi] == b
  {
    if pi < |pat| { assert pat[pi..pi + 1] == [pat[pi]]; }
  }

  /** One round of reading terms. */
  lemma TermsRound(pat: seq<byte>, pi: nat, hasTerm: bool)
    requires pi < |pat|
    ensures ParseTerms(pat, pi, hasTerm) ==
            if pat[pi] == ']' as int && hasTerm then Some(([], pi + 1))
            else if ParseTerm(pat, pi).None? then None
            else
              var (span, p) := ParseTerm(pat, pi).value;
              var rest := ParseTerms(pat, p, true);
              if rest.None? then None else Some(([span] + rest.value.0, rest.value.1))
  {
    hide ParseTerm;
  }

  lemma MemberReads(pat: seq<byte>, pi: nat, m: Member)
    requires At(pat, pi, MemberText(m)) && (!m.escaped ==> m.b != '\\' as int)
    ensures ClassByte(pat, pi) == (m.b, pi + |MemberText(m)|)
  {
    assert pat[pi] == MemberText(m)[0];
    if m.escaped { assert pat[pi + 1] == MemberText(m)[1]; }
  }

  lemma MemberFront(m: Member)
    ensures MemberText(m) != [] && MemberText(m)[0] == if m.escaped then '\\' as int else m.b
  {
  }

  lemma RangeReads(pat: seq<byte>, pi: nat, lo: Member, hi: Member)
    requires At(pat, pi, MemberText(lo) + ['-' as int] + MemberText(hi)) && TermOk(Range(lo, hi), true)
    ensures ParseTerm(pat, pi) == Some((Span(lo.b, hi.b), pi + |MemberText(lo)| + 1 + |MemberText(hi)|))
    ensures At(pat, pi, MemberText(lo))
  {
    hide ClassByte, At, MemberText;
    var a, dash, b := MemberText(lo), ['-' as int], MemberText(hi);
    MemberFront(lo);
    MemberFront(hi);
    AtParts(pat, pi, a + dash, b);
    AtParts(pat, pi, a, dash);
    AtFront(pat, pi, a);
    AtFront(pat, pi + |a|, dash);
    AtFront(pat, pi + |a| + 1, b);
    MemberReads(pat, pi, lo);
    MemberReads(pat, pi + |a| + 1, hi);
  }

  lemma TermReads(pat: seq<byte>, pi: nat, t: Term, first: bool)
    requires At(pat, pi, TermText(t)) && TermOk(t, first)
    requires t.Single? && pi + |TermText(t)| < |pat| ==> pat[pi + |TermText(t)|] != '-' as int
    ensures ParseTerm(pat, pi) == Some((SpanOf(t), pi + |TermText(t)|))
    ensures pat[pi] == ']' as int ==> first
  {
    hide ClassByte, At, MemberText;
    MemberFront(t.lo);
    if t.Range? {
      hide ParseTerm;
      RangeReads(pat, pi, t.lo, t.hi);
      AtFront(pat, pi, MemberText(t.lo));
    } else {
      AtFront(pat, pi, MemberText(t.lo));
      MemberReads(pat, pi, t.lo);
    }
  }

  /** What may stand behind a row of terms begins no range. */
  lemma TermsFront(ts: seq<Term>, first: bool)
    requires TermsOk(ts, first)
    ensures (TermsText(ts) + [']' as int])[0] != '-' as int
  {
    if ts != [] {
      var lo := MemberText(ts[0].lo);
      assert TermText(ts[0])[0] == lo[0];
      assert (TermsText(ts) + [']' as int])[0] == TermText(ts[0])[0];
    }
  }

  lemma TermsNext(pat: seq<byte>, pi: nat, t: Term, first: bool, ts: seq<Term>)
    requires At(pat, pi, TermText(t) + (TermsText(ts) + [']' as int])) && TermOk(t, first) && TermsOk(ts, false)
    ensures At(pat, pi + |TermText(t)|, TermsText(ts) + [']' as int])
    ensures var rest := ParseTerms(pat, pi + |TermText(t)|, true);
            ParseTerms(pat, pi, !first) ==
            if rest.None? then None else Some(([SpanOf(t)] + rest.value.0, rest.value.1))
  {
    hide ParseTerm, ParseTerms, TermText, TermsText, SpanOf, TermOk, TermsOk, At;
    var text, rest := TermText(t), TermsText(ts) + [']' as int];
    AtParts(pat, pi, text, rest);
    TermsFront(ts, false);
    AtFront(pat, pi + |text|, rest);
    AtFront(pat, pi, text);
    TermReads(pat, pi, t, first);
    TermsRound(pat, pi, !first);
  }

  lemma {:induction false} TermsRead(pat: seq<byte>, pi: nat, ts: seq<Term>, first: bool)
    requires At(pat, pi, TermsText(ts) + [']' as int]) && TermsOk(ts, first) && (first ==> ts != [])
    ensures ParseTerms(pat, pi, !first) == Some((SpansOf(ts), pi + |TermsText(ts)| + 1))
    decreases |ts|
  {
    hide ParseTerm, ParseTerms, At, TermText, SpanOf, TermOk;
    var close := [']' as int];
    if ts == [] {
      assert TermsText(ts) + close == close;
      AtOne(pat, pi, ']' as int);
      TermsRound(pat, pi, !first);
    } else {
      var text := TermText(ts[0]);
      assert TermsText(ts) + close == text + (TermsText(ts[1..]) + close);
      TermsNext(pat, pi, ts[0], first, ts[1..]);
      TermsRead(pat, pi + |text|, ts[1..], false);
      assert SpansOf(ts) == [SpanOf(ts[0])] + SpansOf(ts[1..]);
    }
  }

  lemma TermsBegin(ts: seq<Term>)
    requires ts != []
    ensures (TermsText(ts) + [']' as int])[0] == MemberText(ts[0].lo)[0]
  {
    assert TermsText(ts)[0] == TermText(ts[0])[0] == MemberText(ts[0].lo)[0];
  }

  lemma BracketParts(p: Piece)
    requires p.Bracket? && PieceOk(p)
    ensures p.terms != [] && TermsOk(p.terms, true)
    ensures !p.negated ==> (TermsText(p.terms) + [']' as int])[0] != '^' as int
    ensures |PieceText(p)| == (if p.negated then 2 else 1) + |TermsText(p.terms)| + 1
  {
    hide TermsText, TermsOk;
    TermsBegin(p.terms);
  }

  lemma ClassFrom(pat: seq<byte>, pi: nat, negated: bool, spans: seq<Span>, next: nat)
    requires negated <==> pi < |pat| && pat[pi] == '^' as int
    requires ParseTerms(pat, if negated then pi + 1 else pi, false) == Some((spans, next))
    ensures ParseClass(pat, pi) == Some((Class(negated, spans), next))
  {
    hide ParseTerms;
  }

  lemma OpenReads(pat: seq<byte>, pi: nat, negated: bool, rest: seq<byte>)
    requires At(pat, pi, OpenText(negated) + rest) && rest != [] && (!negated ==> rest[0] != '^' as int)
    ensures pi + 1 < |pat| && pat[pi] == '[' as int && (negated <==> pat[pi + 1] == '^' as int)
    ensures At(pat, pi + |OpenText(negated)|, rest)
  {
    AtParts(pat, pi, OpenText(negated), rest);
    AtFront(pat, pi + |OpenText(negated)|, rest);
    assert negated ==> pat[pi + 1] == pat[pi..pi + 2][1];
  }

  lemma BracketText(p: Piece)
    requires p.Bracket?
    ensures PieceText(p) == OpenText(p.negated) + (TermsText(p.terms) + [']' as int])
    ensures TokenOf(p) == Class(p.negated, SpansOf(p.terms))
  {
  }

  lemma BracketReads(pat: seq<byte>, pi: nat, p: Piece)
    requires p.Bracket? && PieceOk(p) && At(pat, pi, PieceText(p))
    ensures NextToken(pat, pi) == (TokenOf(p), pi + |PieceText(p)|)
  {
    hide TermsText, SpansOf, TermsOk, ParseTerms, ParseClass, PieceText, PieceOk, TokenOf, At;
    BracketParts(p);
    BracketText(p);
    OpenReads(pat, pi, p.negated, TermsText(p.terms) + [']' as int]);
    var start := pi + |OpenText(p.negated)|;
    TermsRead(pat, start, p.terms, true);
    ClassFrom(pat, pi + 1, p.negated, SpansOf(p.terms), start + |TermsText(p.terms)| + 1);
  }

  lemma PieceReads(pat: seq<byte>, pi: nat, p: Piece)
    requires PieceOk(p) && At(pat, pi, PieceText(p))
    ensures NextToken(pat, pi) == (TokenOf(p), pi + |PieceText(p)|)
  {
    if p.Bracket? {
      BracketReads(pat, pi, p);
    } else {
      assert pat[pi] == PieceText(p)[0];
      if p.Escaped? { assert pat[pi + 1] == PieceText(p)[1]; }
    }
  }

  lemma TokensNext(pat: seq<byte>, pi: nat)
    requires pi < |pat|
    ensures Tokens(pat, pi) == [NextToken(pat, pi).0] + Tokens(pat, NextToken(pat, pi).1)
  {
    hide NextToken;
  }

  lemma AtThen(pat: seq<byte>, pi: nat, a: seq<byte>)
    requires At(pat, pi, a)
    ensures pi + |a| <= |pat| && pat[pi..] == a + pat[pi + |a|..]
  {
  }

  lemma NoTokens(pat: seq<byte>)
    ensures Tokens(pat, |pat|) == [] && TokensOf([]) == []
  {
  }

  lemma TokensOfCons(ps: seq<Piece>)
    requires ps != []
    ensures TokensOf(ps) == [TokenOf(ps[0])] + TokensOf(ps[1..])
  {
    hide TokenOf;
  }

  /** The tokens of a text spelled by pieces are the tokens of the pieces. */
  lemma {:induction false} PiecesRead(pat: seq<byte>, pi: nat, ps: seq<Piece>)
    requires PiecesOk(ps) && At(pat, pi, TextOf(ps)) && pi + |TextOf(ps)| == |pat|
    ensures Tokens(pat, pi) == TokensOf(ps)
    decreases |ps|
  {
    hide Tokens, NextToken, PieceOk, PieceText, TokenOf, At;
    if ps == [] {
      NoTokens(pat);
    } else {
      var text, rest := PieceText(ps[0]), TextOf(ps[1..]);
      assert TextOf(ps) == text + rest;
      hide TextOf;
      AtParts(pat, pi, text, rest);
      AtEnd(pat, pi, text);
      PieceReads(pat, pi, ps[0]);
      TokensNext(pat, pi);
      PiecesRead(pat, pi + |text|, ps[1..]);
      TokensOfCons(ps);
    }
  }

  // ---------------------------------------------------------------- nothing else is well formed

  lemma MemberSpelled(pat: seq<byte>, pi: nat) returns (m: Member)
    requires pi < |pat| && (pat[pi] == '\\' as int ==> pi + 1 < |pat|)
    ensures At(pat, pi, MemberText(m)) && ClassByte(pat, pi) == (m.b, pi + |MemberText(m)|)
    ensures !m.escaped ==> m.b == pat[pi] != '\\' as int
  {
    m := if pat[pi] == '\\' as int then Member(pat[pi + 1], true) else Member(pat[pi], false);
  }

  lemma TermSpelled(pat: seq<byte>, pi: nat, first: bool) returns (t: Term)
    requires pi < |pat| && (pat[pi] == ']' as int ==> first)
    requires ParseTerm(pat, pi).Some? && ParseTerm(pat, pi).value.1 < |pat|
    ensures TermOk(t, first) && At(pat, pi, TermText(t))
    ensures ParseTerm(pat, pi).value.1 == pi + |TermText(t)|
    ensures t.lo.escaped || t.lo.b == pat[pi]
  {
    hide ClassByte, At, MemberText;
    LoneEscape(pat, pi);
    var lo := MemberSpelled(pat, pi);
    var p1 := pi + |MemberText(lo)|;
    if pat[p1] == '-' as int {
      LoneEscape(pat, p1 + 1);
      var hi := MemberSpelled(pat, p1 + 1);
      t := Range(lo, hi);
      AtOne(pat, p1, '-' as int);
      AtJoins(pat, pi, MemberText(lo), ['-' as int]);
      AtJoins(pat, pi, MemberText(lo) + ['-' as int], MemberText(hi));
    } else {
      t := Single(lo);
    }
  }

  /** A member reaches past its first byte, and a backslash at the very end up to the end. */
  lemma LoneEscape(pat: seq<byte>, pi: nat)
    requires pi < |pat|
    ensures pi < ClassByte(pat, pi).1 <= |pat| && (pi + 1 == |pat| ==> ClassByte(pat, pi).1 == |pat|)
  {
  }

  lemma {:induction false} TermsSpelled(pat: seq<byte>, pi: nat, first: bool) returns (ts: seq<Term>)
    requires ParseTerms(pat, pi, !first).Some?
    ensures TermsOk(ts, first) && (first ==> ts != []) && At(pat, pi, TermsText(ts) + [']' as int])
    ensures ParseTerms(pat, pi, !first).value.1 == pi + |TermsText(ts)| + 1
    ensures first && !ts[0].lo.escaped ==> pi < |pat| && ts[0].lo.b == pat[pi]
    decreases |pat| - pi
  {
    hide ParseTerm, ParseTerms, At, TermText, TermOk;
    TermsRound(pat, pi, !first);
    var close := [']' as int];
    if pat[pi] == ']' as int && !first {
      ts := [];
      assert TermsText(ts) + close == close;
      AtOne(pat, pi, ']' as int);
    } else {
      var p := ParseTerm(pat, pi).value.1;
      var rest := TermsSpelled(pat, p, false);
      assert p < |pat| by { AtEnd(pat, p, TermsText(rest) + close); }
      var t := TermSpelled(pat, pi, first);
      ts := [t] + rest;
      assert ts[1..] == rest;
      var a, b := TermText(t), TermsText(rest) + close;
      assert TermsText(ts) + close == a + b;
      AtJoins(pat, pi, a, b);
    }
  }

  lemma AtEnd(pat: seq<byte>, pi: nat, a: seq<byte>)
    requires At(pat, pi, a) && a != []
    ensures pi < |pat|
  {
  }

  lemma BracketSpelled(pat: seq<byte>, pi: nat) returns (p: Piece)
    requires pi < |pat| && pat[pi] == '[' as int && !NextToken(pat, pi).0.Malformed?
    ensures PieceOk(p) && At(pat, pi, PieceText(p)) && NextToken(pat, pi).1 == pi + |PieceText(p)|
  {
    hide ParseTerms, At, TermsText, TermsOk;
    var negated := pi + 1 < |pat| && pat[pi + 1] == '^' as int;
    var start := if negated then pi + 2 else pi + 1;
    var ts := TermsSpelled(pat, start, true);
    p := Bracket(negated, ts);
    var rest := TermsText(ts) + [']' as int];
    AtOne(pat, pi, '[' as int);
    AtOne(pat, pi + 1, '^' as int);
    if negated { AtJoins(pat, pi, ['[' as int], ['^' as int]); }
    var open: seq<byte> := if negated then ['[' as int, '^' as int] else ['[' as int];
    assert negated ==> ['[' as int] + ['^' as int] == open;
    AtJoins(pat, pi, open, rest);
    assert PieceText(p) == open + rest;
  }

  lemma PieceSpelled(pat: seq<byte>, pi: nat) returns (p: Piece)
    requires pi < |pat| && !NextToken(pat, pi).0.Malformed?
    ensures PieceOk(p) && At(pat, pi, PieceText(p)) && NextToken(pat, pi).1 == pi + |PieceText(p)|
  {
    hide ParseClass;
    if pat[pi] == '*' as int {
      p := AnyRun;
    } else if pat[pi] == '?' as int {
      p := AnyOne;
    } else if pat[pi] == '[' as int {
      p := BracketSpelled(pat, pi);
    } else if pat[pi] == '\\' as int {
      p := Escaped(pat[pi + 1]);
    } else {
      p := Bare(pat[pi]);
    }
  }

  /** A pattern that is not malformed is the text of some pieces. */
  lemma {:induction false} PiecesSpelled(pat: seq<byte>, pi: nat) returns (ps: seq<Piece>)
    requires pi <= |pat| && Malformed !in Tokens(pat, pi)
    ensures PiecesOk(ps) && pat[pi..] == TextOf(ps)
    decreases |pat| - pi
  {
    if pi == |pat| {
      ps := [];
    } else {
      hide NextToken, PieceOk, PieceText, At;
      TokensNext(pat, pi);
      hide Tokens;
      var next := NextToken(pat, pi).1;
      var p := PieceSpelled(pat, pi);
      var rest := PiecesSpelled(pat, next);
      ps := [p] + rest;
      assert ps[1..] == rest;
      AtThen(pat, pi, PieceText(p));
    }
  }

  // ---------------------------------------------------------------- the meaning of a pattern

  /** A pattern is malformed exactly when no pieces spell it. */
  lemma MalformedIff(pat: seq<byte>)
    ensures Malformed !in Tokens(pat, 0) <==> exists ps :: PiecesOk(ps) && pat == TextOf(ps)
  {
    assert pat[0..] == pat && pat[0..|pat|] == pat;
    if Malformed !in Tokens(pat, 0) {
      var ps := PiecesSpelled(pat, 0);
      assert PiecesOk(ps) && pat == TextOf(ps);
    }
    if ps :| PiecesOk(ps) && pat == TextOf(ps) {
      PiecesRead(pat, 0, ps);
    }
  }

  /** The paths a pattern spelled by pieces accepts: those that can be shared out among the pieces. */
  lemma MeansPieces(d: Dialect, ps: seq<Piece>, path: seq<byte>)
    requires PiecesOk(ps)
    ensures Consumes(d, Tokens(TextOf(ps), 0), path) <==> exists parts :: Shares(d, ps, path, parts)
  {
    var pat := TextOf(ps);
    assert pat[0..|pat|] == pat;
    PiecesRead(pat, 0, ps);
    hide Tokens, TextOf, PieceOk, Takes, Accepts;
    forall parts
      ensures IsAssignment(d, TokensOf(ps), path, parts) <==> Shares(d, ps, path, parts)
    {
      if |parts| == |ps| {
        forall i | 0 <= i < |ps|
          ensures Accepts(d, TokensOf(ps)[i], parts[i]) <==> Takes(d, ps[i], parts[i])
        {
          SameAccepts(d, ps[i], parts[i]);
        }
      }
    }
  }

  /** A malformed pattern accepts nothing. */
  lemma MalformedAcceptsNothing(d: Dialect, pat: seq<byte>, path: seq<byte>)
    requires Malformed in Tokens(pat, 0)
    ensures !Consumes(d, Tokens(pat, 0), path)
  {
    var ts := Tokens(pat, 0);
    hide Tokens;
    var i :| 0 <= i < |ts| && ts[i] == Malformed;
    forall parts
      ensures !IsAssignment(d, ts, path, parts)
    {
      if |parts| == |ts| { assert !Accepts(d, ts[i], parts[i]); }
    }
  }

  /** What a pattern means, from its characters alone: it is the text of some pieces among which the
      path can be shared out. */
  ghost predicate Means(d: Dialect, pat: seq<byte>, path: seq<byte>) {
    exists ps, parts :: PiecesOk(ps) && pat == TextOf(ps) && Shares(d, ps, path, parts)
  }

  lemma TokensMean(d: Dialect, pat: seq<byte>, path: seq<byte>)
    ensures Consumes(d, Tokens(pat, 0), path) <==> Means(d, pat, path)
  {
    hide Tokens, TextOf, Shares, PiecesOk, Consumes;
    MalformedIff(pat);
    if Consumes(d, Tokens(pat, 0), path) {
      if Malformed in Tokens(pat, 0) { MalformedAcceptsNothing(d, pat, path); }
      var ps :| PiecesOk(ps) && pat == TextOf(ps);
      MeansPieces(d, ps, path);
    }
    if ps, parts :| PiecesOk(ps) && pat == TextOf(ps) && Shares(d, ps, path, parts) {
      MeansPieces(d, ps, path);
    }
  }

  // ---------------------------------------------------------------- letters

  /** The same byte, or the same letter in capital and small. */
  predicate SameLetter(a: byte, b: byte) {
    a == b || (65 <= a <= 90 && b == a + 32) || (65 <= b <= 90 && a == b + 32)
  }

  predicate SameButCase(a: seq<byte>, b: seq<byte>) {
    |a| == |b| && forall i :: 0 <= i < |a| ==> SameLetter(a[i], b[i])
  }

  lemma SameLetterSmall(a: byte, b: byte)
    ensures SameLetter(a, b) <==> Small(a) == Small(b)
    ensures SameLetter(a, b) ==> (a == '/' as int <==> b == '/' as int)
  {
  }

  lemma AcceptsSame(t: Token, a: byte, b: byte)
    requires SameLetter(a, b)
    ensures AcceptsByte(Sdk, t, a) == AcceptsByte(Sdk, t, b)
  {
    SameLetterSmall(a, b);
    SameLower(a);
    SameLower(b);
    hide Lower, Small, SameLetter;
    if t.Class? {
      assert forall i :: 0 <= i < |t.spans| ==> InSpan(Sdk, t.spans[i], a) == InSpan(Sdk, t.spans[i], b);
    }
  }

  /** The SDK glob gives the same answer whether the letters of the path are capital or small. */
  lemma {:induction false} CaseIsIrrelevant(ts: seq<Token>, a: seq<byte>, b: seq<byte>)
    requires SameButCase(a, b)
    ensures Consumes(Sdk, ts, a) <==> Consumes(Sdk, ts, b)
  {
    MatchesIffConsumes(Sdk, ts, a);
    MatchesIffConsumes(Sdk, ts, b);
    CaseMatches(ts, a, b);
    hide Consumes, Matches;
  }

  lemma {:induction false} CaseMatches(ts: seq<Token>, a: seq<byte>, b: seq<byte>)
    requires SameButCase(a, b)
    ensures Matches(Sdk, ts, a) <==> Matches(Sdk, ts, b)
    decreases |ts| + |a|
  {
    if ts != [] && a != [] {
      SameLetterSmall(a[0], b[0]);
      hide SameLetter;
      AcceptsSame(ts[0], a[0], b[0]);
      hide AcceptsByte;
      CaseMatches(ts[1..], a[1..], b[1..]);
      if ts[0].Star? {
        CaseMatches(ts[1..], a, b);
        CaseMatches(ts, a[1..], b[1..]);
      }
    } else if ts != [] && ts[0].Star? {
      CaseMatches(ts[1..], a, b);
    }
  }

  function Bares(s: seq<byte>): (ps: seq<Piece>)
    ensures |ps| == |s|
  {
    seq(|s|, i requires 0 <= i < |s| => Bare(s[i]))
  }

  lemma {:induction false} BaresText(s: seq<byte>)
    ensures TextOf(Bares(s)) == s
  {
    if s != [] {
      BaresText(s[1..]);
      assert Bares(s)[1..] == Bares(s[1..]);
      assert s == [s[0]] + s[1..];
    }
  }

  predicate NoSpecial(pat: seq<byte>) {
    forall i :: 0 <= i < |pat| ==>
      pat[i] != '*' as int && pat[i] != '?' as int && pat[i] != '[' as int && pat[i] != '\\' as int
  }

  /** A pattern without special characters accepts itself: byte for byte in the file server, and with
      any letter capital or small in the SDK. */
  lemma PlainAccepts(d: Dialect, pat: seq<byte>, path: seq<byte>)
    requires NoSpecial(pat)
    ensures Consumes(d, Tokens(pat, 0), path) <==> if d.Sdk? then SameButCase(path, pat) else path == pat
  {
    var ps := Bares(pat);
    BaresText(pat);
    assert pat[0..|pat|] == pat;
    PiecesRead(pat, 0, ps);
    MatchesIffConsumes(d, Tokens(pat, 0), path);
    hide Consumes, Tokens;
    PlainMatches(d, pat, path);
  }

  lemma {:induction false} PlainMatches(d: Dialect, pat: seq<byte>, path: seq<byte>)
    ensures Matches(d, TokensOf(Bares(pat)), path) <==> if d.Sdk? then SameButCase(path, pat) else path == pat
    decreases |pat|
  {
    if pat != [] && path != [] {
      PlainMatches(d, pat[1..], path[1..]);
      assert TokensOf(Bares(pat))[1..] == TokensOf(Bares(pat[1..]));
      SameLower(path[0]); SameLower(pat[0]);
      SameLetterSmall(path[0], pat[0]);
      hide SameLetter, Lower, Small;
      assert path == [path[0]] + path[1..] && pat == [pat[0]] + pat[1..];
      if SameLetter(path[0], pat[0]) && SameButCase(path[1..], pat[1..]) {
        forall i | 0 <= i < |path|
          ensures SameLetter(path[i], pat[i])
        {
          if i > 0 { assert path[i] == path[1..][i - 1] && pat[i] == pat[1..][i - 1]; }
        }
      }
    }
  }
}
