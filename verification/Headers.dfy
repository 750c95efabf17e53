/** Header edits by scripts (`src/script.rs`) and their replay on the request (`src/server.rs`).

    A script sees `headerValues`; what is forwarded is the original header map with the recorded
    change log replayed over it. The two are kept in step by nothing but the discipline of the edits. */
module Headers {
  import opened Bytes

  // ---------------------------------------------------------------- names, values and patterns

  function LowerChar(c: char): (r: char) { if 'A' <= c <= 'Z' then c - 'A' + 'a' else c }

  function Lower(s: string): (r: string)
    ensures |r| == |s| && forall i :: 0 <= i < |s| ==> r[i] == LowerChar(s[i])
  {
    seq(|s|, i requires 0 <= i < |s| => LowerChar(s[i]))
  }

  lemma LowerTwice(s: string)
    ensures Lower(Lower(s)) == Lower(s)
  {
  }

  /** Unicode white space, as `trim` takes it. */
  predicate Space(c: char) {
    || '\t' <= c <= '\r' || c == ' ' || c == '\U{0085}' || c == '\U{00A0}' || c == '\U{1680}'
    || '\U{2000}' <= c <= '\U{200A}' || c == '\U{2028}' || c == '\U{2029}' || c == '\U{202F}'
    || c == '\U{205F}' || c == '\U{3000}'
  }

  function Trim(s: string): (r: string) { TrimEnd(TrimStart(s)) }

  function TrimStart(s: string): (r: string) {
    if s != [] && Space(s[0]) then TrimStart(s[1..]) else s
  }

  function TrimEnd(s: string): (r: string) {
    if s != [] && Space(s[|s| - 1]) then TrimEnd(s[..|s| - 1]) else s
  }

  /** A token of section 5.6.2 of RFC 9110, of the length the header map takes. */
  predicate ValidName(s: string) {
    0 < |s| <= 65535 && forall i :: 0 <= i < |s| ==> TokenChar(s[i])
  }

  predicate TokenChar(c: char) {
    '0' <= c <= '9' || 'a' <= c <= 'z' || 'A' <= c <= 'Z' || c in "!#$%&'*+-.^_`|~"
  }

  /** The bytes of a header value; a script's text stands for its UTF-8 encoding. */
  type Value = seq<byte>

  /** What a header value may hold: anything but control characters, tab excepted. */
  predicate Accepted(v: Value) { forall i :: 0 <= i < |v| ==> (v[i] >= 32 && v[i] != 127) || v[i] == 9 }

  /** What reads as text: visible ASCII, space and tab. */
  predicate IsText(v: Value) { forall i :: 0 <= i < |v| ==> 32 <= v[i] < 127 || v[i] == 9 }

  predicate Contains(s: string, part: string) {
    exists i :: 0 <= i <= |s| - |part| && At(s, i, part)
  }

  predicate At(s: string, i: nat, part: string)
    requires i + |part| <= |s|
  {
    s[i..i + |part|] == part
  }

  predicate PatternMatches(name: string, pattern: string) { MatchesForm(Lower(name), Lower(pattern)) }

  predicate MatchesForm(n: string, p: string) {
    if |p| >= 2 && p[0] == '*' && p[|p| - 1] == '*' then Contains(n, p[1..|p| - 1])
    else if |p| >= 1 && p[0] == '*' then |p| - 1 <= |n| && n[|n| - (|p| - 1)..] == p[1..]
    else if |p| >= 1 && p[|p| - 1] == '*' then |p| - 1 <= |n| && n[..|p| - 1] == p[..|p| - 1]
    else n == p
  }

  /** The small alphabet for the capital one, letter by letter, and nothing else changes. */
  lemma LowerIs(c: char)
    ensures Lower("ABCDEFGHIJKLM") == "abcdefghijklm" && Lower("NOPQRSTUVWXYZ") == "nopqrstuvwxyz"
    ensures !(65 <= c as int <= 90) ==> LowerChar(c) == c
  {
    FirstLetters();
    LastLetters();
    hide Lower;
  }

  lemma FirstLetters()
    ensures Lower("ABCDEFGHIJKLM") == "abcdefghijklm"
  {
  }

  lemma LastLetters()
    ensures Lower("NOPQRSTUVWXYZ") == "nopqrstuvwxyz"
  {
  }

  /** Trimming takes white space off both ends and stops there. */
  lemma TrimIs(s: string) returns (front: string, back: string)
    ensures s == front + Trim(s) + back
    ensures forall i :: 0 <= i < |front| ==> Space(front[i])
    ensures forall i :: 0 <= i < |back| ==> Space(back[i])
    ensures Trim(s) != [] ==> !Space(Trim(s)[0]) && !Space(Trim(s)[|Trim(s)| - 1])
  {
    hide Space;
    front := TrimStartIs(s);
    back := TrimEndIs(TrimStart(s));
    assert s == front + (Trim(s) + back);
    assert Trim(s) != [] ==> Trim(s)[0] == TrimStart(s)[0];
  }

  lemma {:induction false} TrimStartIs(s: string) returns (front: string)
    ensures s == front + TrimStart(s) && forall i :: 0 <= i < |front| ==> Space(front[i])
    ensures TrimStart(s) != [] ==> !Space(TrimStart(s)[0])
  {
    hide Space;
    front := [];
    if s != [] && Space(s[0]) {
      var more := TrimStartIs(s[1..]);
      front := [s[0]] + more;
    }
  }

  lemma {:induction false} TrimEndIs(s: string) returns (back: string)
    ensures s == TrimEnd(s) + back && forall i :: 0 <= i < |back| ==> Space(back[i])
    ensures TrimEnd(s) != [] ==> !Space(TrimEnd(s)[|TrimEnd(s)| - 1])
  {
    hide Space;
    back := [];
    if s != [] && Space(s[|s| - 1]) {
      var more := TrimEndIs(s[..|s| - 1]);
      back := more + [s[|s| - 1]];
    }
  }

  /** What the forms of a pattern match, up to the case of letters: a name that contains the text between
      two stars, one that ends with the text behind a star, one that begins with the text before a star,
      or the text itself. */
  lemma PatternIff(name: string, text: string)
    ensures PatternMatches(name, "*" + text + "*") <==> exists a, b :: Lower(name) == a + Lower(text) + b
    ensures (text != [] && text[|text| - 1] != '*') || text == [] ==>
              (PatternMatches(name, "*" + text) <==> exists a :: Lower(name) == a + Lower(text))
    ensures text != [] && text[0] != '*' ==>
              (PatternMatches(name, text + "*") <==> exists b :: Lower(name) == Lower(text) + b)
    ensures text != [] && text[0] != '*' && text[|text| - 1] != '*' ==>
              (PatternMatches(name, text) <==> Lower(name) == Lower(text))
  {
    hide PatternMatches, Lower;
    InsideIff(name, text);
    SuffixIff(name, text);
    PrefixIff(name, text);
    PlainIff(name, text);
  }

  lemma LowerJoin(a: string, b: string)
    ensures Lower(a + b) == Lower(a) + Lower(b) && Lower("*") == "*"
  {
  }

  /** Lower case makes no star and unmakes none. */
  lemma LowerEnds(s: string)
    requires s != []
    ensures Lower(s) != [] && (Lower(s)[0] == '*' <==> s[0] == '*')
    ensures Lower(s)[|s| - 1] == '*' <==> s[|s| - 1] == '*'
  {
  }

  lemma PlainIff(name: string, text: string)
    ensures text != [] && text[0] != '*' && text[|text| - 1] != '*' ==>
              (PatternMatches(name, text) <==> Lower(name) == Lower(text))
  {
    hide Contains, Lower;
    if text != [] { LowerEnds(text); }
  }

  lemma InsideIff(name: string, text: string)
    ensures PatternMatches(name, "*" + text + "*") <==> exists a, b :: Lower(name) == a + Lower(text) + b
  {
    hide Lower, MatchesForm;
    LowerJoin("*", text);
    LowerJoin("*" + text, "*");
    InsideForm(Lower(name), Lower(text));
  }

  lemma InsideForm(n: string, t: string)
    ensures MatchesForm(n, "*" + t + "*") <==> exists a, b :: n == a + t + b
  {
    var p := "*" + t + "*";
    assert p[1..|p| - 1] == t;
    if Contains(n, t) {
      var i :| 0 <= i <= |n| - |t| && At(n, i, t);
      assert n == n[..i] + t + n[i + |t|..];
    }
    if a, b :| n == a + t + b {
      assert At(n, |a|, t);
    }
  }

  lemma SuffixIff(name: string, text: string)
    ensures (text != [] && text[|text| - 1] != '*') || text == [] ==>
              (PatternMatches(name, "*" + text) <==> exists a :: Lower(name) == a + Lower(text))
  {
    hide Lower, MatchesForm;
    LowerJoin("*", text);
    if text != [] { LowerEnds(text); }
    SuffixForm(Lower(name), Lower(text));
  }

  lemma SuffixForm(n: string, t: string)
    ensures t == [] || t[|t| - 1] != '*' ==> (MatchesForm(n, "*" + t) <==> exists a :: n == a + t)
  {
    hide Contains;
    assert ("*" + t)[1..] == t;
    if |t| <= |n| && n[|n| - |t|..] == t {
      assert n == n[..|n| - |t|] + t;
    }
    if a :| n == a + t {
      assert n[|n| - |t|..] == t;
    }
  }

  lemma PrefixIff(name: string, text: string)
    ensures text != [] && text[0] != '*' ==>
              (PatternMatches(name, text + "*") <==> exists b :: Lower(name) == Lower(text) + b)
  {
    hide Lower, MatchesForm;
    LowerJoin(text, "*");
    if text != [] { LowerEnds(text); }
    PrefixForm(Lower(name), Lower(text));
  }

  lemma PrefixForm(n: string, t: string)
    ensures t != [] && t[0] != '*' ==> (MatchesForm(n, t + "*") <==> exists b :: n == t + b)
  {
    hide Contains;
    var p := t + "*";
    assert p[..|p| - 1] == t;
    if |t| <= |n| && n[..|t|] == t {
      assert n == t + n[|t|..];
    }
    if b :| n == t + b {
      assert n[..|t|] == t;
    }
  }

  // ---------------------------------------------------------------- the header map and the replay

  type HeaderMap = map<string, seq<Value>>

  datatype Change =
    | Set(name: string, value: Value)
    | Append(name: string, value: Value)
    | Remove(name: string)
    | RemovePattern(pattern: string)
    | Clear

  /** The values of a name, in order. */
  function Get(m: HeaderMap, n: string): (vs: seq<Value>) { if n in m then m[n] else [] }

  function Replayed(m: HeaderMap, c: Change): (r: HeaderMap) {
    match c
    case Set(name, value) => if ValidName(name) && Accepted(value) then m[Lower(name) := [value]] else m
    case Append(name, value) =>
      if ValidName(name) && Accepted(value) then m[Lower(name) := Get(m, Lower(name)) + [value]] else m
    case Remove(name) => if ValidName(name) then m - {Lower(name)} else m
    case RemovePattern(pattern) => map n | n in m && !PatternMatches(n, pattern) :: m[n]
    case Clear => map[]
  }

  function Replay(m: HeaderMap, log: seq<Change>): (r: HeaderMap) {
    if log == [] then m else Replayed(Replay(m, log[..|log| - 1]), log[|log| - 1])
  }

  lemma ReplaySnoc(m: HeaderMap, log: seq<Change>, c: Change)
    ensures Replay(m, log + [c]) == Replayed(Replay(m, log), c)
  {
    assert (log + [c])[..|log|] == log;
  }

  /** Applies the change log to the request head. */
  method ApplyScriptRequest(head: HeaderMap, changes: seq<Change>) returns (r: HeaderMap)
    ensures r == Replay(head, changes)
  {
    r := head;
    for i := 0 to |changes|
      invariant r == Replay(head, changes[..i])
    {
      var c := changes[i];
      assert changes[..i + 1] == changes[..i] + [c];
      ReplaySnoc(head, changes[..i], c);
      match c {
        case Set(name, value) =>
          if ValidName(name) && Accepted(value) { r := r[Lower(name) := [value]]; }
        case Append(name, value) =>
          if ValidName(name) && Accepted(value) { r := r[Lower(name) := Get(r, Lower(name)) + [value]]; }
        case Remove(name) =>
          if ValidName(name) { r := r - {Lower(name)}; }
        case RemovePattern(pattern) =>
          r := RemoveMatching(r, pattern);
        case Clear =>
          r := map[];
      }
    }
    assert changes[..|changes|] == changes;
  }

  method RemoveMatching(m: HeaderMap, pattern: string) returns (r: HeaderMap)
    ensures r == Replayed(m, RemovePattern(pattern))
  {
    r := m;
    var names := set n | n in m && PatternMatches(n, pattern);
    while names != {}
      invariant names == set n | n in r && PatternMatches(n, pattern)
      invariant Replayed(r, RemovePattern(pattern)) == Replayed(m, RemovePattern(pattern))
      decreases names
    {
      var name :| name in names;
      r := r - {name};
      names := names - {name};
    }
    assert forall n :: n in r && PatternMatches(n, pattern) ==> n in names;
  }

  // ---------------------------------------------------------------- readable values

  /** The values that are readable text, in order. */
  function Readable(vs: seq<Value>): (r: seq<Value>) {
    if vs == [] then []
    else Readable(vs[..|vs| - 1]) + if IsText(vs[|vs| - 1]) then [vs[|vs| - 1]] else []
  }

  predicate AllReadable(vs: seq<Value>) { forall i :: 0 <= i < |vs| ==> IsText(vs[i]) }

  lemma ReadableSnoc(vs: seq<Value>, v: Value)
    ensures Readable(vs + [v]) == Readable(vs) + if IsText(v) then [v] else []
  {
    assert (vs + [v])[..|vs|] == vs;
  }

  lemma {:induction false} ReadableIff(vs: seq<Value>)
    ensures Readable(vs) == vs <==> AllReadable(vs)
    ensures |Readable(vs)| <= |vs| && AllReadable(Readable(vs))
  {
    if vs != [] {
      ReadableIff(vs[..|vs| - 1]);
      var front := vs[..|vs| - 1];
      assert vs == front + [vs[|vs| - 1]];
      if Readable(vs) == vs {
        assert |Readable(front)| == |front| && Readable(vs)[..|front|] == front;
      }
    }
  }

  /** The header map as a script can read it. */
  function Visible(m: HeaderMap): (r: HeaderMap) {
    map n | n in m && Readable(m[n]) != [] :: Readable(m[n])
  }

  lemma VisibleGet(m: HeaderMap, n: string)
    ensures Get(Visible(m), n) == Readable(Get(m, n))
  {
  }

  predicate AllAccepted(vs: seq<Value>) { forall i :: 0 <= i < |vs| ==> Accepted(vs[i]) }

  // ---------------------------------------------------------------- edits that drop values

  /** A change that drops all values a name had. */
  predicate Drops(c: Change, n: string) {
    match c
    case Set(name, value) => ValidName(name) && Accepted(value) && n == Lower(name)
    case Append(_, _) => false
    case Remove(name) => ValidName(name) && n == Lower(name)
    case RemovePattern(pattern) => PatternMatches(n, pattern)
    case Clear => true
  }

  predicate Dropped(log: seq<Change>, n: string) { exists k :: 0 <= k < |log| && Drops(log[k], n) }

  lemma DroppedSnoc(log: seq<Change>, n: string)
    requires log != []
    ensures Dropped(log, n) <==> Dropped(log[..|log| - 1], n) || Drops(log[|log| - 1], n)
  {
    hide Drops;
    var front := log[..|log| - 1];
    assert forall k :: 0 <= k < |front| ==> front[k] == log[k];
  }

  // ---------------------------------------------------------------- what the script sees and what is replayed

  const HOST := "host"

  /** For every name but `host`: the replay over what was visible gives what the script sees. */
  ghost predicate Agree(base: HeaderMap, log: seq<Change>, seen: HeaderMap) {
    forall n :: n != HOST ==> Get(Replay(base, log), n) == Get(seen, n)
  }

  /** For `host`: it gives what the script sees, or, once an edit has dropped the values there were, the
      last of it. */
  predicate HostAgrees(base: HeaderMap, log: seq<Change>, seen: HeaderMap) {
    Get(Replay(base, log), HOST) == ForHost(log, Get(seen, HOST))
  }

  function ForHost(log: seq<Change>, vs: seq<Value>): (r: seq<Value>) {
    if Dropped(log, HOST) && vs != [] then [vs[|vs| - 1]] else vs
  }

  /** What the script sees is not empty, under valid lower-case names, and both views have the same names. */
  predicate SeenOk(seen: HeaderMap, joined: map<string, Value>) {
    && joined.Keys == seen.Keys
    && forall n :: n in seen ==> NameOk(n) && seen[n] != []
  }

  predicate NameOk(n: string) { ValidName(n) && n == Lower(n) }

  /** The values of the name `n` after one change, from the values before. */
  function After(vs: seq<Value>, c: Change, n: string): (r: seq<Value>) {
    match c
    case Set(name, value) => if ValidName(name) && Accepted(value) && n == Lower(name) then [value] else vs
    case Append(name, value) => if ValidName(name) && Accepted(value) && n == Lower(name) then vs + [value] else vs
    case Remove(name) => if ValidName(name) && n == Lower(name) then [] else vs
    case RemovePattern(pattern) => if PatternMatches(n, pattern) then [] else vs
    case Clear => []
  }

  lemma ReplayedGet(m: HeaderMap, c: Change, n: string)
    ensures Get(Replayed(m, c), n) == After(Get(m, n), c, n)
  {
  }

  /** One more change in the log: what the script sees must change as the log says. */
  lemma AgreeChange(base: HeaderMap, log: seq<Change>, seen: HeaderMap, c: Change, seen': HeaderMap)
    requires Agree(base, log, seen)
    requires forall n :: n != HOST ==> Get(seen', n) == After(Get(seen, n), c, n)
    ensures Agree(base, log + [c], seen')
  {
    ReplaySnoc(base, log, c);
    hide Replay, Replayed, After, Get;
    forall n | n != HOST
      ensures Get(Replay(base, log + [c]), n) == Get(seen', n)
    {
      ReplayedGet(Replay(base, log), c, n);
    }
  }

  /** The same for `host`, which is never appended to in the log. */
  lemma HostChange(base: HeaderMap, log: seq<Change>, seen: HeaderMap, c: Change, seen': HeaderMap)
    requires HostAgrees(base, log, seen)
    requires || (!(c.Append? && Lower(c.name) == HOST) && Get(seen', HOST) == After(Get(seen, HOST), c, HOST))
             || (&& c.Set? && ValidName(c.name) && Lower(c.name) == HOST && Accepted(c.value)
                 && Get(seen', HOST) != [] && Get(seen', HOST)[|Get(seen', HOST)| - 1] == c.value)
    ensures HostAgrees(base, log + [c], seen')
  {
    ReplaySnoc(base, log, c);
    DroppedSnoc(log + [c], HOST);
    assert (log + [c])[..|log|] == log;
    hide Replay, Replayed, Get, PatternMatches, ValidName, Accepted, Dropped;
    ReplayedGet(Replay(base, log), c, HOST);
  }

  // ---------------------------------------------------------------- what each edit keeps

  /** What the script sees is what the replay of the log gives. */
  ghost predicate Kept(base: HeaderMap, log: seq<Change>, seen: HeaderMap, joined: map<string, Value>) {
    SeenOk(seen, joined) && Agree(base, log, seen) && HostAgrees(base, log, seen)
  }

  lemma SetKeeps(base: HeaderMap, log: seq<Change>, seen: HeaderMap, joined: map<string, Value>, name: string, v: Value)
    requires Kept(base, log, seen, joined) && NameOk(name) && Accepted(v)
    ensures Kept(base, log + [Set(name, v)], seen[name := [v]], joined[name := v])
  {
    hide Agree, HostAgrees, Lower, ValidName, Accepted, Replay;
    var c, seen' := Set(name, v), seen[name := [v]];
    assert AllAccepted([v]);
    AgreeChange(base, log, seen, c, seen');
    HostChange(base, log, seen, c, seen');
  }

  lemma RemoveKeeps(base: HeaderMap, log: seq<Change>, seen: HeaderMap, joined: map<string, Value>, name: string)
    requires Kept(base, log, seen, joined) && NameOk(name)
    ensures Kept(base, log + [Remove(name)], seen - {name}, joined - {name})
  {
    hide Agree, HostAgrees, Lower, ValidName, Accepted, Replay;
    var c, seen' := Remove(name), seen - {name};
    AgreeChange(base, log, seen, c, seen');
    HostChange(base, log, seen, c, seen');
  }

  /** Appending: the log has an `Append`, or for `host` a `Set`. */
  lemma AppendKeeps(base: HeaderMap, log: seq<Change>, seen: HeaderMap, joined: map<string, Value>,
                    name: string, v: Value, j: Value)
    requires Kept(base, log, seen, joined) && NameOk(name) && Accepted(v)
    ensures Kept(base, log + [if name == HOST then Set(name, v) else Append(name, v)],
                 seen[name := Get(seen, name) + [v]], joined[name := j])
  {
    hide Agree, HostAgrees, Lower, ValidName, Accepted, Replay;
    var c := if name == HOST then Set(name, v) else Append(name, v);
    var seen' := seen[name := Get(seen, name) + [v]];
    AgreeChange(base, log, seen, c, seen');
    HostChange(base, log, seen, c, seen');
  }

  lemma PatternKeeps(base: HeaderMap, log: seq<Change>, seen: HeaderMap, joined: map<string, Value>, pattern: string)
    requires Kept(base, log, seen, joined)
    ensures Kept(base, log + [RemovePattern(pattern)], Unmatched(seen, pattern), Unmatched(joined, pattern))
  {
    hide Agree, HostAgrees, Lower, ValidName, Accepted, Replay, PatternMatches;
    var c, seen' := RemovePattern(pattern), Unmatched(seen, pattern);
    AgreeChange(base, log, seen, c, seen');
    HostChange(base, log, seen, c, seen');
  }

  lemma ClearKeeps(base: HeaderMap, log: seq<Change>, seen: HeaderMap, joined: map<string, Value>)
    requires Kept(base, log, seen, joined)
    ensures Kept(base, log + [Clear], map[], map[])
  {
    AgreeChange(base, log, seen, Clear, map[]);
    HostChange(base, log, seen, Clear, map[]);
  }

  /** Replacing the values of a name: the log removes it and appends the new values one by one. */
  function Appends(name: string, vs: seq<Value>): (log: seq<Change>) {
    if vs == [] then [] else Appends(name, vs[..|vs| - 1]) + [Append(name, vs[|vs| - 1])]
  }

  lemma {:induction false} AppendsAgree(base: HeaderMap, log: seq<Change>, seen: HeaderMap,
                                        name: string, vs: seq<Value>)
    requires Agree(base, log, seen) && HostAgrees(base, log, seen)
    requires NameOk(name) && name != HOST && AllAccepted(vs)
    ensures Agree(base, log + [Remove(name)] + Appends(name, vs), seen[name := vs])
    ensures HostAgrees(base, log + [Remove(name)] + Appends(name, vs), seen[name := vs])
  {
    hide Agree, HostAgrees, Lower, ValidName, Accepted, Replay;
    var start := log + [Remove(name)];
    if vs == [] {
      assert start + Appends(name, vs) == start;
      AgreeChange(base, log, seen, Remove(name), seen[name := vs]);
      HostChange(base, log, seen, Remove(name), seen[name := vs]);
    } else {
      var front, v := vs[..|vs| - 1], vs[|vs| - 1];
      AppendsAgree(base, log, seen, name, front);
      var before := start + Appends(name, front);
      assert start + Appends(name, vs) == before + [Append(name, v)];
      assert vs == front + [v];
      AgreeChange(base, before, seen[name := front], Append(name, v), seen[name := vs]);
      HostChange(base, before, seen[name := front], Append(name, v), seen[name := vs]);
    }
  }

  lemma ReplaceKeeps(base: HeaderMap, log: seq<Change>, seen: HeaderMap, joined: map<string, Value>,
                     name: string, vs: seq<Value>, j: Value)
    requires Kept(base, log, seen, joined) && NameOk(name) && AllAccepted(vs) && vs != []
    ensures Kept(base,
                 log + if name == HOST then [Set(name, vs[|vs| - 1])] else [Remove(name)] + Appends(name, vs),
                 seen[name := vs], joined[name := j])
  {
    hide Agree, HostAgrees, SeenOk, Lower, ValidName, Accepted, Replay;
    SeenPut(seen, joined, name, vs, j);
    if name == HOST {
      HostPut(base, log, seen, vs);
    } else {
      AppendsAgree(base, log, seen, name, vs);
      assert log + ([Remove(name)] + Appends(name, vs)) == log + [Remove(name)] + Appends(name, vs);
    }
  }

  lemma SeenPut(seen: HeaderMap, joined: map<string, Value>, name: string, vs: seq<Value>, j: Value)
    requires SeenOk(seen, joined) && NameOk(name) && AllAccepted(vs) && vs != []
    ensures SeenOk(seen[name := vs], joined[name := j])
  {
  }

  lemma HostPut(base: HeaderMap, log: seq<Change>, seen: HeaderMap, vs: seq<Value>)
    requires Agree(base, log, seen) && HostAgrees(base, log, seen) && NameOk(HOST) && AllAccepted(vs) && vs != []
    ensures Agree(base, log + [Set(HOST, vs[|vs| - 1])], seen[HOST := vs])
    ensures HostAgrees(base, log + [Set(HOST, vs[|vs| - 1])], seen[HOST := vs])
  {
    hide Agree, HostAgrees, Lower, ValidName, Replay;
    var c := Set(HOST, vs[|vs| - 1]);
    assert Accepted(vs[|vs| - 1]);
    AgreeChange(base, log, seen, c, seen[HOST := vs]);
    HostChange(base, log, seen, c, seen[HOST := vs]);
  }

  // ---------------------------------------------------------------- the request as scripts edit it

  function Unmatched<V>(m: map<string, V>, pattern: string): (r: map<string, V>) {
    map n | n in m && !PatternMatches(n, pattern) :: m[n]
  }

  /** The values of the entries with name `n`, in order. */
  function ValuesOf(entries: seq<(string, Value)>, n: string): (vs: seq<Value>) {
    if entries == [] then []
    else
      var last := entries[|entries| - 1];
      ValuesOf(entries[..|entries| - 1], n) + if Lower(last.0) == n then [last.1] else []
  }

  const COMMA: byte := ',' as int

  function Joined(vs: seq<Value>): (r: Value) {
    if vs == [] then [] else if |vs| == 1 then vs[0] else vs[0] + [COMMA] + Joined(vs[1..])
  }

  /** The values a replacement leaves: rewritten, without those a header value may not hold. */
  function Rewritten(vs: seq<Value>, subst: Value -> Value): (r: seq<Value>)
    ensures AllAccepted(r)
  {
    if vs == [] then []
    else Rewritten(vs[..|vs| - 1], subst) + var v := subst(vs[|vs| - 1]); if Accepted(v) then [v] else []
  }

  /** Each value is rewritten in its place, and dropped if a header value may not hold the result. */
  lemma {:induction false} RewrittenAt(a: seq<Value>, v: Value, b: seq<Value>, subst: Value -> Value)
    ensures Rewritten([], subst) == []
    ensures Rewritten(a + [v] + b, subst) ==
            Rewritten(a, subst) + (if Accepted(subst(v)) then [subst(v)] else []) + Rewritten(b, subst)
    decreases |b|
  {
    RewrittenNone(subst);
    hide Accepted, Rewritten;
    RewrittenSnoc(a, v, subst);
    var first := a + [v];
    if b == [] {
      assert first + b == first;
    } else {
      var front, w := b[..|b| - 1], b[|b| - 1];
      RewrittenAt(a, v, front, subst);
      assert first + b == first + front + [w] && b == front + [w];
      RewrittenSnoc(first + front, w, subst);
      RewrittenSnoc(front, w, subst);
    }
  }

  lemma RewrittenNone(subst: Value -> Value)
    ensures Rewritten([], subst) == []
  {
  }

  lemma RewrittenSnoc(vs: seq<Value>, v: Value, subst: Value -> Value)
    ensures Rewritten(vs + [v], subst) == Rewritten(vs, subst) + if Accepted(subst(v)) then [subst(v)] else []
  {
    hide Accepted;
    assert (vs + [v])[..|vs|] == vs;
  }

  // ---------------------------------------------------------------- the joined view

  function Last(vs: seq<Value>): (v: Value) { if vs == [] then [] else vs[|vs| - 1] }

  function From(vs: seq<Value>, k: nat): (r: seq<Value>) { if k <= |vs| then vs[k..] else [] }

  /** How many values of a name are missing in the joined view: of the original ones it has only the last. */
  function Skipped(base: HeaderMap, log: seq<Change>, n: string): (k: nat) {
    if Dropped(log, n) || Get(base, n) == [] then 0 else |Get(base, n)| - 1
  }

  /** The joined view of a name: the last value for `host`, and otherwise the values with commas between
      them, apart from the original ones before the last. */
  predicate JoinedOne(base: HeaderMap, log: seq<Change>, n: string, vs: seq<Value>, text: Value) {
    text == if n == HOST then Last(vs) else Joined(From(vs, Skipped(base, log, n)))
  }

  predicate JoinedOk(base: HeaderMap, log: seq<Change>, seen: HeaderMap, joined: map<string, Value>) {
    forall n :: n in seen && n in joined ==> JoinedOne(base, log, n, seen[n], joined[n])
  }

  lemma JoinedStarts(original: HeaderMap, seen: HeaderMap, joined: map<string, Value>)
    requires forall n :: Get(seen, n) == Readable(Get(original, n))
    requires forall n :: n in seen && n in joined ==> seen[n] != [] && joined[n] == Last(seen[n])
    ensures JoinedOk(Visible(original), [], seen, joined)
  {
    forall n | n in seen && n in joined
      ensures JoinedOne(Visible(original), [], n, seen[n], joined[n])
    {
      VisibleGet(original, n);
      assert Get(seen, n) == seen[n];
      assert From(seen[n], |seen[n]| - 1) == [Last(seen[n])];
    }
  }

  lemma {:induction false} JoinedSnoc(vs: seq<Value>, v: Value)
    ensures Joined(vs + [v]) == if vs == [] then v else Joined(vs) + [44] + v
  {
    if |vs| == 1 {
      assert (vs + [v])[1..] == [v];
    } else if |vs| > 1 {
      JoinedSnoc(vs[1..], v);
      assert (vs + [v])[1..] == vs[1..] + [v];
      assert vs[0] + [COMMA] + (Joined(vs[1..]) + [COMMA] + v) == vs[0] + [COMMA] + Joined(vs[1..]) + [COMMA] + v;
    }
  }

  /** There is always one value the joined view has. */
  lemma SkippedFits(base: HeaderMap, log: seq<Change>, seen: HeaderMap, n: string)
    requires Agree(base, log, seen) && n != HOST
    ensures Skipped(base, log, n) == 0 || Skipped(base, log, n) < |Get(seen, n)|
  {
    hide Replay, Dropped, Added;
    ReplayShape(base, log, n);
  }

  lemma SkippedNext(base: HeaderMap, log: seq<Change>, c: Change, n: string)
    ensures Skipped(base, log + [c], n) == if Drops(c, n) then 0 else Skipped(base, log, n)
  {
    DroppedSnoc(log + [c], n);
    assert (log + [c])[..|log|] == log;
    hide Dropped, Drops;
  }

  /** How one more change may affect the joined view of a name. */
  predicate JoinedNext(seen: HeaderMap, joined: map<string, Value>, c: Change,
                       n: string, vs: seq<Value>, text: Value)
  {
    if Drops(c, n) then text == if n == HOST then Last(vs) else Joined(vs)
    else
      || (n in seen && n in joined && vs == seen[n] && text == joined[n])
      || (&& n != HOST && c.Append? && vs == Get(seen, n) + [c.value] && (n in seen <==> n in joined)
          && text == if n in joined then joined[n] + [COMMA] + c.value else c.value)
  }

  lemma JoinedOneNext(base: HeaderMap, log: seq<Change>, seen: HeaderMap, joined: map<string, Value>, c: Change,
                      n: string, vs: seq<Value>, text: Value)
    requires Agree(base, log, seen) && JoinedOk(base, log, seen, joined) && (n in seen ==> seen[n] != [])
    requires JoinedNext(seen, joined, c, n, vs, text)
    ensures JoinedOne(base, log + [c], n, vs, text)
  {
    SkippedNext(base, log, c, n);
    var k := Skipped(base, log, n);
    if Drops(c, n) {
      assert From(vs, 0) == vs;
    } else if n in seen && n in joined && vs == seen[n] && text == joined[n] {
      assert JoinedOne(base, log, n, seen[n], joined[n]);
    } else {
      SkippedFits(base, log, seen, n);
      hide Agree, Drops, Skipped, Joined;
      var was := Get(seen, n);
      JoinedSnoc(From(was, k), c.value);
      if n in seen {
        assert JoinedOne(base, log, n, seen[n], joined[n]);
        assert k <= |was| ==> From(vs, k) == From(was, k) + [c.value];
        NotSkipped(base, log, n, was, k);
      } else {
        assert From(vs, 0) == From(was, 0) + [c.value];
      }
    }
  }

  lemma NotSkipped(base: HeaderMap, log: seq<Change>, n: string, was: seq<Value>, k: nat)
    requires k == Skipped(base, log, n) && (k == 0 || k < |was|)
    ensures k <= |was| && (From(was, k) == [] ==> was == [])
  {
    hide Skipped;
  }

  lemma JoinedStep(base: HeaderMap, log: seq<Change>, seen: HeaderMap, joined: map<string, Value>, c: Change,
                   seen': HeaderMap, joined': map<string, Value>)
    requires Agree(base, log, seen) && JoinedOk(base, log, seen, joined)
    requires forall n :: n in seen ==> seen[n] != []
    requires forall n :: n in seen' && n in joined' ==> JoinedNext(seen, joined, c, n, seen'[n], joined'[n])
    ensures JoinedOk(base, log + [c], seen', joined')
  {
    hide Agree, JoinedNext, JoinedOne;
    forall n | n in seen' && n in joined'
      ensures JoinedOne(base, log + [c], n, seen'[n], joined'[n])
    {
      JoinedOneNext(base, log, seen, joined, c, n, seen'[n], joined'[n]);
    }
  }

  /** A name set to the last of its values. */
  lemma JoinedSet(base: HeaderMap, log: seq<Change>, seen: HeaderMap, joined: map<string, Value>,
                  name: string, vs: seq<Value>, v: Value)
    requires Kept(base, log, seen, joined) && JoinedOk(base, log, seen, joined) && NameOk(name) && Accepted(v)
    requires v == Last(vs) && (name == HOST || vs == [v])
    ensures JoinedOk(base, log + [Set(name, v)], seen[name := vs], joined[name := v])
  {
    assert Joined([v]) == v;
    hide ValidName, Lower, Accepted, Joined, HostAgrees, Agree, JoinedOk;
    JoinedStep(base, log, seen, joined, Set(name, v), seen[name := vs], joined[name := v]);
  }

  lemma JoinedRemove(base: HeaderMap, log: seq<Change>, seen: HeaderMap, joined: map<string, Value>, name: string)
    requires Kept(base, log, seen, joined) && JoinedOk(base, log, seen, joined) && NameOk(name)
    ensures JoinedOk(base, log + [Remove(name)], seen - {name}, joined - {name})
  {
    hide ValidName, Lower, Accepted, Joined, HostAgrees, Agree, JoinedOk;
    JoinedStep(base, log, seen, joined, Remove(name), seen - {name}, joined - {name});
  }

  lemma JoinedAppend(base: HeaderMap, log: seq<Change>, seen: HeaderMap, joined: map<string, Value>,
                     name: string, v: Value)
    requires Kept(base, log, seen, joined) && JoinedOk(base, log, seen, joined) && NameOk(name) && Accepted(v)
    ensures var text := if name == HOST || name !in joined then v else joined[name] + [COMMA] + v;
            JoinedOk(base, log + [if name == HOST then Set(name, v) else Append(name, v)],
                     seen[name := Get(seen, name) + [v]], joined[name := text])
  {
    hide ValidName, Lower, Accepted, Joined, HostAgrees, Agree, JoinedOk;
    var text := if name == HOST || name !in joined then v else joined[name] + [COMMA] + v;
    JoinedStep(base, log, seen, joined, if name == HOST then Set(name, v) else Append(name, v),
               seen[name := Get(seen, name) + [v]], joined[name := text]);
  }

  lemma JoinedPattern(base: HeaderMap, log: seq<Change>, seen: HeaderMap, joined: map<string, Value>, pattern: string)
    requires Kept(base, log, seen, joined) && JoinedOk(base, log, seen, joined)
    ensures JoinedOk(base, log + [RemovePattern(pattern)], Unmatched(seen, pattern), Unmatched(joined, pattern))
  {
    hide PatternMatches, Joined, HostAgrees, Agree, JoinedOk;
    JoinedStep(base, log, seen, joined, RemovePattern(pattern), Unmatched(seen, pattern), Unmatched(joined, pattern));
  }

  /** The joined view has all values of a name exactly when there was at most one original value, or some
      edit dropped them. */
  lemma JoinedIff(base: HeaderMap, log: seq<Change>, seen: HeaderMap, joined: map<string, Value>, n: string)
    requires Kept(base, log, seen, joined) && JoinedOk(base, log, seen, joined) && n in seen && n in joined
    ensures n != HOST ==> (joined[n] == Joined(seen[n]) <==> |Get(base, n)| <= 1 || Dropped(log, n))
    ensures n == HOST ==> joined[n] == Last(seen[n])
  {
    var vs, k := seen[n], Skipped(base, log, n);
    assert JoinedOne(base, log, n, vs, joined[n]);
    if n != HOST {
      SkippedFits(base, log, seen, n);
      assert vs[0..] == vs;
      hide JoinedOk, Agree, HostAgrees, Dropped, Joined;
      JoinedShorter(vs, k);
    }
  }

  lemma {:induction false} JoinedShorter(vs: seq<Value>, k: nat)
    requires k == 0 || k < |vs|
    ensures k > 0 ==> |Joined(vs[k..])| < |Joined(vs)|
    decreases k
  {
    if k > 0 {
      assert vs[1..][k - 1..] == vs[k..];
      if k > 1 { JoinedShorter(vs[1..], k - 1); }
    }
  }

  /** Replacing drops the name and leaves every other one. */
  lemma {:induction false} DroppedByReplace(log: seq<Change>, name: string, vs: seq<Value>, n: string)
    requires NameOk(name)
    ensures Dropped(log + ([Remove(name)] + Appends(name, vs)), n) <==> n == name || Dropped(log, n)
  {
    var all := log + ([Remove(name)] + Appends(name, vs));
    DroppedSnoc(all, n);
    hide Dropped, ValidName, Lower;
    if vs == [] {
      assert all == log + [Remove(name)] && all[..|log|] == log;
    } else {
      var front := vs[..|vs| - 1];
      DroppedByReplace(log, name, front, n);
      var before := log + ([Remove(name)] + Appends(name, front));
      assert all == before + [Append(name, vs[|vs| - 1])] && all[..|all| - 1] == before;
    }
  }

  lemma JoinedReplace(base: HeaderMap, log: seq<Change>, seen: HeaderMap, joined: map<string, Value>,
                      name: string, vs: seq<Value>)
    requires JoinedOk(base, log, seen, joined) && NameOk(name) && name != HOST
    ensures JoinedOk(base, log + ([Remove(name)] + Appends(name, vs)), seen[name := vs], joined[name := Joined(vs)])
  {
    var log' := log + ([Remove(name)] + Appends(name, vs));
    hide Joined, Appends, Dropped, NameOk;
    var seen', joined' := seen[name := vs], joined[name := Joined(vs)];
    forall n | n in seen' && n in joined'
      ensures JoinedOne(base, log', n, seen'[n], joined'[n])
    {
      DroppedByReplace(log, name, vs, n);
      if n == name {
        assert From(vs, 0) == vs;
      } else {
        assert JoinedOne(base, log, n, seen[n], joined[n]);
      }
    }
  }

  /** A request with two values of a name: a script that asks for the header gets the second alone. */
  method JoinedExample() returns (text: Value, values: seq<Value>)
    ensures text == [66] && values == [[65], [66]]
  {
    var entries: seq<(string, Value)> := [("x", [65]), ("x", [66])];
    assert ValidName("x") && Lower("x") == "x";
    assert ValuesOf(entries, "x") == [[65], [66]] by {
      assert entries[..1] == [("x", [65])] && entries[..1][..0] == [];
      assert ValuesOf(entries[..1], "x") == [[65]];
    }
    assert Readable([[65], [66]]) == [[65], [66]] by { ReadableIff([[65], [66]]); }
    hide Readable, ValuesOf, ValidName, Lower;
    var joined, seen := ReadEntries(entries);
    assert Get(seen, "x") == [[65], [66]];
    text, values := joined["x"], seen["x"];
  }

  class ScriptRequest {
    const original: HeaderMap
    var headers: map<string, Value>
    var headerValues: HeaderMap
    var headerChanges: seq<Change>

    ghost predicate Valid()
      reads this
    {
      && Kept(Visible(original), headerChanges, headerValues, headers)
      && JoinedOk(Visible(original), headerChanges, headerValues, headers)
    }

    constructor (original: HeaderMap, entries: seq<(string, Value)>)
      requires forall n :: Get(original, n) == ValuesOf(entries, n)
      requires forall i :: 0 <= i < |entries| ==> ValidName(entries[i].0)
      ensures this.original == original && Valid() && headerChanges == []
      ensures forall n :: Get(headerValues, n) == Readable(Get(original, n))
    {
      this.original := original;
      headerChanges := [];
      var joined, values := ReadEntries(entries);
      headers, headerValues := joined, values;
      JoinedStarts(original, values, joined);
    }

    /** What a script gets when it asks for a header, in any case of letters: nothing exactly when there is
        no value; for `host` the last one; and otherwise all of them with commas between exactly when there
        was at most one original value or some edit dropped them. */
    method Header(name: string) returns (text: Option<Value>)
      requires Valid()
      ensures text.Some? <==> Get(headerValues, Lower(name)) != []
      ensures text.Some? ==>
                var n := Lower(name);
                var vs := Get(headerValues, n);
                && JoinedOne(Visible(original), headerChanges, n, vs, text.value)
                && (n == HOST ==> text.value == vs[|vs| - 1])
                && (n != HOST ==>
                      (text.value == Joined(vs) <==> |Readable(Get(original, n))| <= 1 || Dropped(headerChanges, n)))
    {
      var n := name;
      if exists i :: 0 <= i < |name| && 'A' <= name[i] <= 'Z' {
        n := Lower(name);
      } else {
        assert Lower(name) == name;
      }
      KeptKeys(Visible(original), headerChanges, headerValues, headers);
      if n !in headers { return None; }
      VisibleGet(original, n);
      JoinedIff(Visible(original), headerChanges, headerValues, headers, n);
      text := Some(headers[n]);
    }

    method SetHeader(rawName: string, value: Option<Value>) returns (ok: bool)
      requires Valid()
      modifies this
      ensures Valid()
      ensures ok <==> ValidName(Lower(Trim(rawName))) && (value.Some? ==> Accepted(value.value))
      ensures !ok ==> unchanged(this)
      ensures ok ==> headerValues == var n := Lower(Trim(rawName));
                                     if value.Some? then old(headerValues)[n := [value.value]]
                                     else old(headerValues) - {n}
    {
      hide Kept, JoinedOk, Accepted, Trim;
      var name := Trim(rawName);
      if name == [] { return false; }
      name := Lower(name);
      if !ValidName(name) { return false; }
      LowerTwice(Trim(rawName));
      hide ValidName, Lower;
      match value {
        case Some(v) =>
          if !Accepted(v) { return false; }
          SetKeeps(Visible(original), headerChanges, headerValues, headers, name, v);
          JoinedSet(Visible(original), headerChanges, headerValues, headers, name, [v], v);
          headers := headers[name := v];
          headerValues := headerValues[name := [v]];
          headerChanges := headerChanges + [Set(name, v)];
        case None =>
          RemoveKeeps(Visible(original), headerChanges, headerValues, headers, name);
          JoinedRemove(Visible(original), headerChanges, headerValues, headers, name);
          headers := headers - {name};
          headerValues := headerValues - {name};
          headerChanges := headerChanges + [Remove(name)];
      }
      ok := true;
    }

    method AppendHeader(rawName: string, value: Value) returns (ok: bool)
      requires Valid()
      modifies this
      ensures Valid()
      ensures ok <==> ValidName(Lower(Trim(rawName))) && Accepted(value)
      ensures !ok ==> unchanged(this)
      ensures ok ==> var n := Lower(Trim(rawName));
                     headerValues == old(headerValues)[n := Get(old(headerValues), n) + [value]]
    {
      hide Kept, JoinedOk, Accepted, Trim;
      var name := Trim(rawName);
      if name == [] { return false; }
      name := Lower(name);
      if !ValidName(name) || !Accepted(value) { return false; }
      LowerTwice(Trim(rawName));
      hide ValidName, Lower;
      var joined := if name == HOST || name !in headers then value else headers[name] + [COMMA] + value;
      AppendKeeps(Visible(original), headerChanges, headerValues, headers, name, value, joined);
      JoinedAppend(Visible(original), headerChanges, headerValues, headers, name, value);
      headers := headers[name := joined];
      headerValues := headerValues[name := Get(headerValues, name) + [value]];
      headerChanges := headerChanges + [if name == HOST then Set(name, value) else Append(name, value)];
      ok := true;
    }

    method DeleteHeaderPattern(rawPattern: string) returns (ok: bool)
      requires Valid()
      modifies this
      ensures Valid()
      ensures ok <==> Trim(rawPattern) != []
      ensures !ok ==> unchanged(this)
      ensures ok ==> headerValues == Unmatched(old(headerValues), Trim(rawPattern))
    {
      hide Kept, Trim, ValidName;
      var pattern := Lower(Trim(rawPattern));
      if pattern == [] { return false; }
      PatternLower(Trim(rawPattern));
      if pattern == "*" {
        StarMatches();
        ClearKeeps(Visible(original), headerChanges, headerValues, headers);
        headers, headerValues := map[], map[];
        assert JoinedOk(Visible(original), headerChanges + [Clear], map[], map[]);
        headerChanges := headerChanges + [Clear];
        return true;
      }
      hide PatternMatches, Lower;
      PatternKeeps(Visible(original), headerChanges, headerValues, headers, pattern);
      JoinedPattern(Visible(original), headerChanges, headerValues, headers, pattern);
      headers := Unmatched(headers, pattern);
      headerValues := Unmatched(headerValues, pattern);
      headerChanges := headerChanges + [RemovePattern(pattern)];
      ok := true;
    }

    /** Rewrites the values of one name, or with `*` of all; `subst` is the text or regular expression
        replacement. The names are visited in any order. */
    method ReplaceHeader(rawName: string, subst: Value -> Value) returns (ok: bool)
      requires Valid()
      modifies this
      ensures Valid()
      ensures ok <==> Trim(rawName) == "*" || ValidName(Lower(Trim(rawName)))
      ensures !ok ==> unchanged(this)
      ensures ok ==> headerValues.Keys == old(headerValues.Keys)
      ensures ok ==> forall n :: n in headerValues ==>
                var chosen := Trim(rawName) == "*" || n == Lower(Trim(rawName));
                headerValues[n] == AfterReplace(old(headerValues)[n], chosen, subst)
    {
      hide Kept, JoinedOk, Trim, ValidName, Lower, Accepted, Rewritten, Joined;
      var name := Trim(rawName);
      if name == [] { EmptyName(); return false; }
      var targets: set<string>;
      if name == "*" {
        targets := headers.Keys;
      } else {
        if !ValidName(Lower(name)) { return false; }
        targets := set n | n in headers && Lower(n) == Lower(Lower(name));
      }
      ok := true;
      ghost var seen := headerValues;
      KeptKeys(Visible(original), headerChanges, headerValues, headers);
      LowerTwice(name);
      ghost var all := targets;
      assert forall n :: n in seen ==> (n in all <==> name == "*" || n == Lower(name));
      while targets != {}
        invariant Valid() && targets <= all <= headers.Keys == headerValues.Keys == seen.Keys
        invariant forall n :: n in seen ==> headerValues[n] == AfterReplace(seen[n], n in all && n !in targets, subst)
        decreases targets
      {
        var target :| target in targets;
        targets := targets - {target};
        ReplaceOne(target, subst);
      }
    }

    method ReplaceOne(target: string, subst: Value -> Value)
      requires Valid() && target in headerValues && NameOk(target)
      modifies this
      ensures Valid() && headers.Keys == old(headers.Keys) && headerValues.Keys == old(headerValues.Keys)
      ensures forall n :: n in headerValues ==>
                headerValues[n] == AfterReplace(old(headerValues)[n], n == target, subst)
    {
      hide Kept, JoinedOk, ValidName, Lower, Accepted, Rewritten, Joined;
      KeptKeys(Visible(original), headerChanges, headerValues, headers);
      var values := Rewritten(headerValues[target], subst);
      if values == [] { return; }
      if target == HOST {
        var value := values[|values| - 1];
        ReplaceKeeps(Visible(original), headerChanges, headerValues, headers, target, values, value);
        JoinedSet(Visible(original), headerChanges, headerValues, headers, target, values, value);
        headers := headers[target := value];
        headerValues := headerValues[target := values];
        headerChanges := headerChanges + [Set(target, value)];
        return;
      }
      ReplaceKeeps(Visible(original), headerChanges, headerValues, headers, target, values, Joined(values));
      JoinedReplace(Visible(original), headerChanges, headerValues, headers, target, values);
      headers := headers[target := Joined(values)];
      headerValues := headerValues[target := values];
      ghost var log := headerChanges + [Remove(target)];
      headerChanges := headerChanges + [Remove(target)];
      for i := 0 to |values|
        invariant headerChanges == log + Appends(target, values[..i])
        invariant headers == old(headers)[target := Joined(values)]
        invariant headerValues == old(headerValues)[target := values]
      {
        assert values[..i + 1][..i] == values[..i];
        headerChanges := headerChanges + [Append(target, values[i])];
      }
      assert values[..|values|] == values;
      assert headerChanges == old(headerChanges) + ([Remove(target)] + Appends(target, values));
    }
  }

  function AfterReplace(vs: seq<Value>, chosen: bool, subst: Value -> Value): (r: seq<Value>) {
    if chosen && Rewritten(vs, subst) != [] then Rewritten(vs, subst) else vs
  }

  lemma KeptKeys(base: HeaderMap, log: seq<Change>, seen: HeaderMap, joined: map<string, Value>)
    requires Kept(base, log, seen, joined)
    ensures joined.Keys == seen.Keys && forall n :: n in seen ==> NameOk(n)
  {
  }

  lemma EmptyName()
    ensures !ValidName(Lower([]))
  {
  }

  lemma PatternLower(pattern: string)
    ensures forall n :: PatternMatches(n, Lower(pattern)) == PatternMatches(n, pattern)
    ensures Lower(pattern) == [] <==> pattern == []
  {
    LowerTwice(pattern);
  }

  lemma StarMatches()
    ensures forall n :: PatternMatches(n, "*")
  {
  }

  /** Reads the header map into the script's two views. */
  method ReadEntries(entries: seq<(string, Value)>) returns (joined: map<string, Value>, values: HeaderMap)
    requires forall i :: 0 <= i < |entries| ==> ValidName(entries[i].0)
    ensures SeenOk(values, joined)
    ensures forall n :: Get(values, n) == Readable(ValuesOf(entries, n))
    ensures forall n :: n in values && n in joined ==> values[n] != [] && joined[n] == Last(values[n])
  {
    hide ValidName, Lower, IsText, Readable, ValuesOf;
    joined, values := map[], map[];
    NoEntries();
    for i := 0 to |entries|
      invariant SeenOk(values, joined)
      invariant forall n :: n in values && n in joined ==> values[n] != [] && joined[n] == Last(values[n])
      invariant forall n :: Get(values, n) == Readable(ValuesOf(entries[..i], n))
    {
      var name, value := Lower(entries[i].0), entries[i].1;
      LowerTwice(entries[i].0);
      assert NameOk(name) by { LowerValid(entries[i].0); }
      ghost var seen := values;
      if IsText(value) {
        joined := joined[name := value];
        values := values[name := Get(values, name) + [value]];
      }
      forall n
        ensures Get(values, n) == Readable(ValuesOf(entries[..i + 1], n))
      {
        BuildStep(entries, i, n);
        assert Get(values, n) == Get(seen, n) + if n == name && IsText(value) then [value] else [];
      }
    }
    assert entries[..|entries|] == entries;
  }

  lemma NoEntries()
    ensures forall n :: Readable(ValuesOf([], n)) == []
  {
  }

  lemma LowerValid(name: string)
    requires ValidName(name)
    ensures ValidName(Lower(name))
  {
  }

  /** One entry of the header map read into the script's view. */
  lemma BuildStep(entries: seq<(string, Value)>, i: nat, n: string)
    requires i < |entries|
    ensures Readable(ValuesOf(entries[..i + 1], n)) ==
            Readable(ValuesOf(entries[..i], n)) +
            if n == Lower(entries[i].0) && IsText(entries[i].1) then [entries[i].1] else []
  {
    hide Lower, IsText;
    var front, vs := entries[..i], ValuesOf(entries[..i], n);
    assert entries[..i + 1][..i] == front && entries[..i + 1][i] == entries[i];
    ReadableSnoc(vs, entries[i].1);
    assert ValuesOf(entries[..i + 1], n) == if n == Lower(entries[i].0) then vs + [entries[i].1] else vs + [];
    assert vs + [] == vs;
    hide Readable, ValuesOf;
  }

  // ---------------------------------------------------------------- what is forwarded

  /** The values a log appends to a name. */
  function Added(log: seq<Change>, n: string): (vs: seq<Value>) {
    if log == [] then [] else After(Added(log[..|log| - 1], n), log[|log| - 1], n)
  }

  lemma AfterPrefix(a: seq<Value>, b: seq<Value>, c: Change, n: string)
    ensures After(a + b, c, n) == if Drops(c, n) then After([], c, n) else a + After(b, c, n)
    ensures Drops(c, n) ==> After(b, c, n) == After([], c, n)
  {
    hide ValidName, Accepted, Lower, PatternMatches;
    if c.Append? { assert a + b + [c.value] == a + (b + [c.value]); }
  }

  /** A log that drops the values of a name leaves what it adds; any other log adds to them. */
  lemma {:induction false} ReplayShape(m: HeaderMap, log: seq<Change>, n: string)
    ensures Get(Replay(m, log), n) == if Dropped(log, n) then Added(log, n) else Get(m, n) + Added(log, n)
  {
    if log == [] {
      assert Get(m, n) + [] == Get(m, n);
    } else {
      var front, c := log[..|log| - 1], log[|log| - 1];
      ReplayShape(m, front, n);
      DroppedSnoc(log, n);
      ReplayedGet(Replay(m, front), c, n);
      AfterPrefix(Get(m, n), Added(front, n), c, n);
      assert Added(log, n) == After(Added(front, n), c, n);
      hide Replayed, After, Drops, Dropped, Added;
    }
  }

  /** Exactly when the original values that a script cannot read make no difference: when there are
      none under that name, or some edit dropped them. */
  lemma ReplayVisibleIff(original: HeaderMap, log: seq<Change>, n: string)
    ensures Get(Replay(original, log), n) == Get(Replay(Visible(original), log), n) <==>
            AllReadable(Get(original, n)) || Dropped(log, n)
  {
    hide Replay, Dropped, Added, Readable, AllReadable;
    ReplayShape(original, log, n);
    ReplayShape(Visible(original), log, n);
    VisibleGet(original, n);
    ReadableIff(Get(original, n));
    var vs, ws, added := Get(original, n), Readable(Get(original, n)), Added(log, n);
    if !Dropped(log, n) && vs + added == ws + added {
      assert |vs| == |ws| && (vs + added)[..|vs|] == vs && (ws + added)[..|ws|] == ws;
    }
  }

  /** Exactly when what is forwarded under a name is what the script sees. */
  lemma ForwardedIff(original: HeaderMap, log: seq<Change>, seen: HeaderMap, n: string)
    requires Agree(Visible(original), log, seen) && n != HOST
    ensures Get(Replay(original, log), n) == Get(seen, n) <==> AllReadable(Get(original, n)) || Dropped(log, n)
  {
    hide Replay, Dropped, AllReadable, Visible;
    ReplayVisibleIff(original, log, n);
  }

  /** An original value of one byte, 255, which the script does not see, is forwarded in front of the
      value the script appended. */
  lemma UnreadableExample()
    ensures var original := map["x" := [[255]]];
            var log, seen := [Append("x", [65])], map["x" := [[65]]];
            && Agree(Visible(original), log, seen)
            && Get(Replay(original, log), "x") == [[255], [65]] && Get(seen, "x") == [[65]]
  {
    var original: HeaderMap := map["x" := [[255]]];
    var c, log := Append("x", [65]), [Append("x", [65])];
    assert log[..0] == [] && ValidName("x") && Lower("x") == "x" && Accepted([65]);
    assert Readable([[255]]) == [] by {
      var v: Value := [255];
      assert v[0] == 255 && !IsText(v);
      assert [v][..0] == [];
    }
    assert Visible(original) == map[];
    assert Replay(original, log) == Replayed(original, c) && Replay(map[], log) == Replayed(map[], c);
  }

  /** `host` is where the two views part: once an edit has dropped the values there were, only the last
      value is forwarded. So what is forwarded is what the script sees exactly when that is at most one
      value, or no edit dropped any. */
  lemma HostForwardedIff(original: HeaderMap, log: seq<Change>, seen: HeaderMap)
    requires HostAgrees(Visible(original), log, seen) && (AllReadable(Get(original, HOST)) || Dropped(log, HOST))
    ensures Get(Replay(original, log), HOST) == ForHost(log, Get(seen, HOST))
    ensures Get(Replay(original, log), HOST) == Get(seen, HOST) <==> |Get(seen, HOST)| <= 1 || !Dropped(log, HOST)
  {
    hide Replay, Dropped, AllReadable, Visible, Get;
    ReplayVisibleIff(original, log, HOST);
    var vs := Get(seen, HOST);
    assert |vs| == 1 ==> [vs[0]] == vs;
  }

  /** A request with two `host` values, both rewritten by the script: it sees two, and the last one is
      forwarded. */
  lemma HostExample()
    ensures var original := map["host" := [[65], [66]]];
            var log, seen := [Set("host", [68])], map["host" := [[67], [68]]];
            && HostAgrees(Visible(original), log, seen) && AllReadable(Get(original, "host"))
            && Get(Replay(original, log), "host") == [[68]] && Get(seen, "host") == [[67], [68]]
  {
    var original: HeaderMap := map[HOST := [[65], [66]]];
    var c, log := Set(HOST, [68]), [Set(HOST, [68])];
    assert log[..0] == [] && ValidName(HOST) && Lower(HOST) == HOST && Accepted([68]);
    assert Drops(log[0], HOST);
    assert Replay(original, log) == Replayed(original, c);
    assert Replay(Visible(original), log) == Replayed(Visible(original), c);
  }

  /** The header map that goes on, after any edits. For every name but `host` it is what the script sees
      exactly when the original values were readable or some edit dropped them. For `host` it is then
      what the script sees exactly when that is at most one value or no edit dropped any, and otherwise
      the last of it. */
  method Forward(request: ScriptRequest) returns (head: HeaderMap)
    requires request.Valid()
    ensures forall n :: n != HOST ==>
              (Get(head, n) == Get(request.headerValues, n) <==>
               AllReadable(Get(request.original, n)) || Dropped(request.headerChanges, n))
    ensures AllReadable(Get(request.original, HOST)) || Dropped(request.headerChanges, HOST) ==>
              var vs := Get(request.headerValues, HOST);
              && Get(head, HOST) == ForHost(request.headerChanges, vs)
              && (Get(head, HOST) == vs <==> |vs| <= 1 || !Dropped(request.headerChanges, HOST))
  {
    head := ApplyScriptRequest(request.original, request.headerChanges);
    hide Replay, Dropped, AllReadable, Visible, HostAgrees;
    forall n | n != HOST
      ensures Get(head, n) == Get(request.headerValues, n) <==>
              AllReadable(Get(request.original, n)) || Dropped(request.headerChanges, n)
    {
      ForwardedIff(request.original, request.headerChanges, request.headerValues, n);
    }
    if AllReadable(Get(request.original, HOST)) || Dropped(request.headerChanges, HOST) {
      HostForwardedIff(request.original, request.headerChanges, request.headerValues);
    }
  }
}
