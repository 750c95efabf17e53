/** Bytes and little-endian fields, shared by the models that work on raw buffers. */
module Bytes {

  type byte = b: int | 0 <= b < 256

  datatype Option<+T> = None | Some(value: T)

  function Pow256(n: nat): (p: nat)
    ensures p >= 1
  {
    if n == 0 then 1 else 256 * Pow256(n - 1)
  }

  /** The `n` low bytes of `v`, least significant first. */
  function LE(n: nat, v: nat): (s: seq<byte>)
    ensures |s| == n
  {
    if n == 0 then [] else [v % 256] + LE(n - 1, v / 256)
  }

  function FromLE(s: seq<byte>): (v: nat)
    ensures v < Pow256(|s|)
  {
    if s == [] then 0 else s[0] + 256 * FromLE(s[1..])
  }

  lemma {:induction false} FromLEOfLE(n: nat, v: nat)
    requires v < Pow256(n)
    ensures FromLE(LE(n, v)) == v
  {
    if n > 0 {
      assert LE(n, v)[1..] == LE(n - 1, v / 256);
      FromLEOfLE(n - 1, v / 256);
    }
  }

  lemma {:induction false} LEOfFromLE(s: seq<byte>)
    ensures LE(|s|, FromLE(s)) == s
  {
    if s != [] {
      LEOfFromLE(s[1..]);
      assert FromLE(s) % 256 == s[0] && FromLE(s) / 256 == FromLE(s[1..]);
      assert s == [s[0]] + s[1..];
    }
  }

  /** The value of a field, byte by byte. */
  lemma FromLEIs(s: seq<byte>)
    ensures |s| == 2 ==> FromLE(s) == s[0] as int + 0x100 * (s[1] as int)
    ensures |s| == 4 ==>
              FromLE(s) == s[0] as int + 0x100 * (s[1] as int) + 0x1_0000 * (s[2] as int) + 0x100_0000 * (s[3] as int)
    ensures |s| == 8 ==> FromLE(s) == FromLE(s[..4]) + 0x1_0000_0000 * FromLE(s[4..])
  {
    if |s| >= 1 { FromLENext(s); }
    if |s| >= 2 { FromLENext(s[1..]); }
    if |s| >= 3 { FromLENext(s[1..][1..]); }
    if |s| >= 4 { FromLENext(s[1..][1..][1..]); }
    if |s| == 8 {
      var t := s[..4];
      assert s[4..] == s[1..][1..][1..][1..];
      FromLEIs(t);
    }
  }

  lemma FromLENext(s: seq<byte>)
    requires s != []
    ensures FromLE(s) == s[0] + 256 * FromLE(s[1..])
    ensures forall i :: 0 <= i < |s| - 1 ==> s[1..][i] == s[i + 1]
    ensures |s| == 1 ==> FromLE(s[1..]) == 0
  {
  }

  lemma SliceOfSlice<T>(s: seq<T>, lo: nat, hi: nat, a: nat, b: nat)
    requires lo <= a <= b <= hi <= |s|
    ensures s[lo..hi][a - lo..b - lo] == s[a..b]
  {
    var mid := s[lo..hi];
    forall i | 0 <= i < b - a ensures mid[a - lo..b - lo][i] == s[a..b][i] {
      assert mid[a - lo..b - lo][i] == mid[a - lo + i];
    }
  }

  lemma SameQuotient(d: int, q: int, r: int, q': int, r': int)
    requires d > 0 && q * d + r == q' * d + r' && 0 <= r < d && 0 <= r' < d
    ensures q == q' && r == r'
  {
    var k := q' - q;
    assert k * d == r - r';
    assert k >= 1 ==> (k - 1) * d >= 0;
    assert k <= -1 ==> (-k - 1) * d >= 0;
  }

  /** Quotient and remainder are unique. */
  lemma DivModUnique(x: int, d: int, q: int, r: int)
    requires d > 0 && x == q * d + r && 0 <= r < d
    ensures x / d == q && x % d == r
  {
    SameQuotient(d, q, r, x / d, x % d);
  }
}
