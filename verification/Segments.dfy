/** Splitting byte strings on `/` and joining them again. */
module Segments {
  import opened Bytes

  const SEPARATOR: byte := '/' as int

  function FirstSlash(s: seq<byte>): (k: nat)
    requires SEPARATOR in s
    ensures k < |s| && s[k] == SEPARATOR && SEPARATOR !in s[..k]
  {
    if s[0] == SEPARATOR then 0
    else
      var k := 1 + FirstSlash(s[1..]);
      assert s[..k] == [s[0]] + s[1..][..k - 1];
      k
  }

  /** The pieces between slashes; a string without a slash is one piece. */
  function Split(s: seq<byte>): (parts: seq<seq<byte>>)
    ensures parts != []
    ensures forall i :: 0 <= i < |parts| ==> SEPARATOR !in parts[i]
    decreases |s|
  {
    if SEPARATOR !in s then [s]
    else
      var k := FirstSlash(s);
      [s[..k]] + Split(s[k + 1..])
  }

  function Join(parts: seq<seq<byte>>): (s: seq<byte>) {
    if parts == [] then []
    else if |parts| == 1 then parts[0]
    else parts[0] + [SEPARATOR] + Join(parts[1..])
  }

  lemma {:induction false} FirstSlashIs(s: seq<byte>, k: nat)
    requires k < |s| && s[k] == SEPARATOR && forall i :: 0 <= i < k ==> s[i] != SEPARATOR
    ensures FirstSlash(s) == k
  {
    if k > 0 {
      assert s[1..][k - 1] == SEPARATOR;
      FirstSlashIs(s[1..], k - 1);
    }
  }

  lemma SplitAtFirst(head: seq<byte>, tail: seq<byte>)
    requires SEPARATOR !in head
    ensures Split(head + [SEPARATOR] + tail) == [head] + Split(tail)
  {
    var s := head + [SEPARATOR] + tail;
    assert s[|head|] == SEPARATOR;
    FirstSlashIs(s, |head|);
    assert s[..|head|] == head && s[|head| + 1..] == tail;
  }

  lemma {:induction false} SplitOfJoin(parts: seq<seq<byte>>)
    requires parts != [] && forall i :: 0 <= i < |parts| ==> SEPARATOR !in parts[i]
    ensures Split(Join(parts)) == parts
  {
    if |parts| > 1 {
      SplitOfJoin(parts[1..]);
      SplitAtFirst(parts[0], Join(parts[1..]));
      assert parts == [parts[0]] + parts[1..];
    }
  }
}
