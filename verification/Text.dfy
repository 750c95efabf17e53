/** UTF-8 well-formedness (section 4 of RFC 3629) and NUL-terminated strings. */
module Text {
  import opened Bytes

  predicate Tail(b: byte) { 0x80 <= b <= 0xbf }

  /** The length of the UTF-8 character at the front of `s`, or 0 if there is none. */
  function CharLength(s: seq<byte>): (n: nat)
    ensures n <= |s|
  {
    if |s| >= 1 && s[0] <= 0x7f then 1
    else if |s| >= 2 && 0xc2 <= s[0] <= 0xdf && Tail(s[1]) then 2
    else if |s| >= 3 && s[0] == 0xe0 && 0xa0 <= s[1] <= 0xbf && Tail(s[2]) then 3
    else if |s| >= 3 && (0xe1 <= s[0] <= 0xec || 0xee <= s[0] <= 0xef) && Tail(s[1]) && Tail(s[2]) then 3
    else if |s| >= 3 && s[0] == 0xed && 0x80 <= s[1] <= 0x9f && Tail(s[2]) then 3
    else if |s| >= 4 && s[0] == 0xf0 && 0x90 <= s[1] <= 0xbf && Tail(s[2]) && Tail(s[3]) then 4
    else if |s| >= 4 && 0xf1 <= s[0] <= 0xf3 && Tail(s[1]) && Tail(s[2]) && Tail(s[3]) then 4
    else if |s| >= 4 && s[0] == 0xf4 && 0x80 <= s[1] <= 0x8f && Tail(s[2]) && Tail(s[3]) then 4
    else 0
  }

  predicate IsUtf8(s: seq<byte>)
    decreases |s|
  {
    s == [] || (CharLength(s) > 0 && IsUtf8(s[CharLength(s)..]))
  }

  lemma {:induction false} AsciiIsUtf8(s: seq<byte>)
    requires forall i :: 0 <= i < |s| ==> s[i] < 128
    ensures IsUtf8(s)
  {
    if s != [] {
      assert CharLength(s) == 1;
      AsciiIsUtf8(s[1..]);
    }
  }

  // ---------------------------------------------------------------- characters

  /** A Unicode scalar value: any code point that is no surrogate. */
  predicate IsScalar(c: nat) { c < 0xd800 || 0xe000 <= c < 0x11_0000 }

  /** Its UTF-8 form, six bits to a trailing byte. */
  function CharBytes(c: nat): (b: seq<byte>)
    requires IsScalar(c)
    ensures b != []
  {
    if c < 0x80 then [c]
    else if c < 0x800 then [0xc0 + c / 64, 0x80 + c % 64]
    else if c < 0x1_0000 then [0xe0 + c / 4096, 0x80 + c / 64 % 64, 0x80 + c % 64]
    else [0xf0 + c / 262144, 0x80 + c / 4096 % 64, 0x80 + c / 64 % 64, 0x80 + c % 64]
  }

  function TextBytes(cs: seq<nat>): (b: seq<byte>)
    requires forall i :: 0 <= i < |cs| ==> IsScalar(cs[i])
  {
    if cs == [] then [] else CharBytes(cs[0]) + TextBytes(cs[1..])
  }

  lemma CharIsRead(c: nat, rest: seq<byte>)
    requires IsScalar(c)
    ensures CharLength(CharBytes(c) + rest) == |CharBytes(c)|
  {
    var b := CharBytes(c);
    var s := b + rest;
    if |b| == 1 {
      assert s[0] == b[0];
    } else if |b| == 2 {
      assert s[0] == b[0] && s[1] == b[1];
    } else if |b| == 3 {
      assert s[0] == b[0] && s[1] == b[1] && s[2] == b[2];
      assert c / 4096 == 0 ==> c / 64 % 64 >= 32;
      assert c / 4096 == 13 ==> c / 64 % 64 < 32;
    } else {
      assert s[0] == b[0] && s[1] == b[1] && s[2] == b[2] && s[3] == b[3];
      assert c / 262144 == 0 ==> c / 4096 % 64 >= 16;
      assert c / 262144 == 4 ==> c / 4096 % 64 < 16;
    }
  }

  /** The character whose bytes are in front. */
  lemma CharInFront(s: seq<byte>) returns (c: nat)
    requires CharLength(s) > 0
    ensures IsScalar(c) && s[..CharLength(s)] == CharBytes(c)
  {
    var n := CharLength(s);
    if n == 1 {
      c := s[0];
    } else if n == 2 {
      c := TwoBytes(s[0], s[1]);
    } else if n == 3 {
      c := ThreeBytes(s[0], s[1], s[2]);
    } else {
      c := FourBytes(s[0], s[1], s[2], s[3]);
    }
  }

  lemma TwoBytes(a: byte, b: byte) returns (c: nat)
    requires 0xc2 <= a <= 0xdf && Tail(b)
    ensures IsScalar(c) && CharBytes(c) == [a, b]
  {
    c := 64 * (a - 0xc0) + (b - 0x80);
  }

  lemma ThreeBytes(a: byte, b: byte, d: byte) returns (c: nat)
    requires 0xe0 <= a <= 0xef && Tail(b) && Tail(d) && (a == 0xe0 ==> b >= 0xa0) && (a == 0xed ==> b <= 0x9f)
    ensures IsScalar(c) && CharBytes(c) == [a, b, d]
  {
    var m := 64 * (a - 0xe0) + (b - 0x80);
    c := 64 * m + (d - 0x80);
    assert c / 64 == m && c % 64 == d - 0x80 && m / 64 == a - 0xe0 && m % 64 == b - 0x80;
    assert c / 4096 == c / 64 / 64;
  }

  lemma FourBytes(a: byte, b: byte, d: byte, e: byte) returns (c: nat)
    requires 0xf0 <= a <= 0xf4 && Tail(b) && Tail(d) && Tail(e)
    requires (a == 0xf0 ==> b >= 0x90) && (a == 0xf4 ==> b <= 0x8f)
    ensures IsScalar(c) && CharBytes(c) == [a, b, d, e]
  {
    var k := 64 * (a - 0xf0) + (b - 0x80);
    var m := 64 * k + (d - 0x80);
    c := 64 * m + (e - 0x80);
    assert c / 64 == m && c % 64 == e - 0x80 && m / 64 == k && m % 64 == d - 0x80;
    assert k / 64 == a - 0xf0 && k % 64 == b - 0x80;
    assert c / 4096 == c / 64 / 64 && c / 262144 == c / 64 / 64 / 64;
  }

  /** Well-formed bytes are exactly the UTF-8 forms of texts. */
  lemma {:induction false} Utf8Iff(s: seq<byte>)
    ensures IsUtf8(s) <==> exists cs :: IsTextOf(cs, s)
    decreases |s|
  {
    if s == [] {
      assert IsTextOf([], s);
    } else {
      if IsUtf8(s) {
        var n := CharLength(s);
        var c := CharInFront(s);
        Utf8Iff(s[n..]);
        var rest :| IsTextOf(rest, s[n..]);
        Utf8Cons(c, rest, s);
      }
      if cs :| IsTextOf(cs, s) {
        var front, back := CharBytes(cs[0]), TextBytes(cs[1..]);
        CharIsRead(cs[0], back);
        assert s[|front|..] == back;
        assert IsTextOf(cs[1..], back);
        Utf8Iff(s[|front|..]);
      }
    }
  }

  lemma Utf8Cons(c: nat, rest: seq<nat>, s: seq<byte>)
    requires IsScalar(c) && CharBytes(c) <= s && IsTextOf(rest, s[|CharBytes(c)|..])
    ensures IsTextOf([c] + rest, s)
  {
    hide CharBytes;
    assert ([c] + rest)[1..] == rest;
    assert s == CharBytes(c) + s[|CharBytes(c)|..];
  }

  ghost predicate IsTextOf(cs: seq<nat>, s: seq<byte>) {
    (forall i :: 0 <= i < |cs| ==> IsScalar(cs[i])) && TextBytes(cs) == s
  }

  // ---------------------------------------------------------------- strings

  /** The bytes of an ASCII string literal. */
  function Ascii(s: string): (b: seq<byte>)
    requires forall i :: 0 <= i < |s| ==> s[i] < 128 as char
    ensures |b| == |s|
  {
    seq(|s|, i requires 0 <= i < |s| => s[i] as int)
  }

  /** The string before the first NUL at or after `offset`. */
  function CStr(data: seq<byte>, offset: nat): (r: Option<seq<byte>>) {
    if offset > |data| then None
    else
      match UntilNul(data[offset..])
      case None => None
      case Some(s) => if IsUtf8(s) then Some(s) else None
  }

  function UntilNul(s: seq<byte>): (r: Option<seq<byte>>) {
    if s == [] then None
    else if s[0] == 0 then Some([])
    else
      match UntilNul(s[1..])
      case None => None
      case Some(t) => Some([s[0]] + t)
  }

  /** The bytes of `name` stand at `offset`, and a NUL behind them. */
  predicate Spelled(data: seq<byte>, offset: nat, name: seq<byte>) {
    && offset + |name| < |data| && data[offset..offset + |name|] == name
    && data[offset + |name|] == 0 && 0 !in name
  }

  lemma {:induction false} UntilNulIff(s: seq<byte>, name: seq<byte>)
    ensures UntilNul(s) == Some(name) <==> Spelled(s, 0, name)
  {
    if s == [] || s[0] == 0 {
      assert 0 < |name| <= |s| ==> s[0..|name|][0] == s[0];
    } else if name != [] {
      UntilNulIff(s[1..], name[1..]);
      assert name == [name[0]] + name[1..];
      if |name| < |s| {
        assert s[0..|name|] == [s[0]] + s[1..][0..|name| - 1];
        assert s[1..][|name| - 1] == s[|name|];
        assert s[0] == name[0] ==> (0 in name <==> 0 in name[1..]);
      }
    } else {
      assert UntilNul(s) != Some([]);
    }
  }

  /** A string is read exactly when it stands there, ended by a NUL, and is UTF-8. */
  lemma CStrIff(data: seq<byte>, offset: nat, name: seq<byte>)
    ensures CStr(data, offset) == Some(name) <==> Spelled(data, offset, name) && IsUtf8(name)
  {
    hide UntilNul, IsUtf8;
    if offset <= |data| {
      UntilNulIff(data[offset..], name);
      if offset + |name| < |data| {
        assert data[offset..][0..|name|] == data[offset..offset + |name|];
        assert data[offset..][|name|] == data[offset + |name|];
      }
    }
  }
}
