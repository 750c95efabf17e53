/** What a fingerprint says, spelled out: every part of it from the lists in the message, character by
    character, and the texts that are hashed. */
module Ja4Text {
  import opened Bytes
  import opened ClientHello
  import opened Ja4

  // ---------------------------------------------------------------- numbers as text

  predicate IsDigit(c: char) { '0' <= c <= '9' || 'a' <= c <= 'f' }

  function DigitValue(c: char): (v: int) { if c <= '9' then c as int - '0' as int else c as int - 'a' as int + 10 }

  /** Four small hexadecimal digits with this value. */
  predicate SpellsNumber(s: string, v: nat) {
    && |s| == 4 && IsDigit(s[0]) && IsDigit(s[1]) && IsDigit(s[2]) && IsDigit(s[3])
    && 4096 * DigitValue(s[0]) + 256 * DigitValue(s[1]) + 16 * DigitValue(s[2]) + DigitValue(s[3]) == v
  }

  /** Numbers with commas between them. */
  predicate SpellsList(s: string, vs: seq<nat>) {
    if vs == [] then s == ""
    else if |vs| == 1 then SpellsNumber(s, vs[0])
    else |s| > 4 && SpellsNumber(s[..4], vs[0]) && s[4] == ',' && SpellsList(s[5..], vs[1..])
  }

  lemma HexDigit(v: nat)
    requires v < 16
    ensures IsDigit(HEX[v]) && DigitValue(HEX[v]) == v
  {
    assert HEX == "0123456789abcdef";
  }

  lemma Hex4Spells(v: nat)
    requires ClientHello.U16(v)
    ensures SpellsNumber(Hex4(v), v)
  {
    hide IsDigit, DigitValue;
    var a, b, c, d := v / 4096, v / 256 % 16, v / 16 % 16, v % 16;
    FourDigits(v);
    HexDigit(a);
    HexDigit(b);
    HexDigit(c);
    HexDigit(d);
    assert Hex4(v) == [HEX[a], HEX[b], HEX[c], HEX[d]];
  }

  lemma FourDigits(v: nat)
    requires v < 65536
    ensures v / 4096 < 16 && 4096 * (v / 4096) + 256 * (v / 256 % 16) + 16 * (v / 16 % 16) + v % 16 == v
  {
    var w, x := v / 16, v / 256;
    assert x == w / 16 && v / 4096 == x / 16;
    assert v == 16 * w + v % 16 && w == 16 * x + w % 16 && x == 16 * (x / 16) + x % 16;
  }

  lemma {:induction false} ListSpells(vs: seq<nat>)
    requires AllU16(vs)
    ensures SpellsList(HexList(vs), vs)
  {
    hide SpellsNumber, Hex4;
    if vs != [] {
      Hex4Spells(vs[0]);
      if |vs| > 1 {
        ListSpells(vs[1..]);
        var s := HexList(vs);
        assert s[..4] == Hex4(vs[0]) && s[4] == ',' && s[5..] == HexList(vs[1..]);
      }
    }
  }

  // ---------------------------------------------------------------- reserved values

  /** The sixteen values are 0x0a0a, 0x1a1a and so on to 0xfafa. */
  lemma GreaseIff(v: nat)
    requires ClientHello.U16(v)
    ensures IsGrease(v) <==> exists k: nat :: k < 16 && v == 0x0a0a + 0x1010 * k
  {
    if IsGrease(v) {
      var k := v % 256 / 16;
      assert v == 257 * (v % 256) && v % 256 == 16 * k + 10;
      assert k < 16 && v == 0x0a0a + 0x1010 * k;
    }
    if k: nat :| k < 16 && v == 0x0a0a + 0x1010 * k {
      assert v == 256 * (16 * k + 10) + (16 * k + 10);
      assert v / 256 == 16 * k + 10 && v % 256 == 16 * k + 10;
    }
  }

  /** Filtering keeps the order, drops the reserved values and nothing else. */
  lemma {:induction false} RealSplits(a: seq<nat>, v: nat, b: seq<nat>)
    ensures Real(a + [v] + b) == Real(a) + (if IsGrease(v) then [] else [v]) + Real(b)
    ensures Real([]) == []
  {
    hide IsGrease;
    var all := a + [v] + b;
    if a == [] {
      assert all[0] == v && all[1..] == b;
    } else {
      RealSplits(a[1..], v, b);
      assert all[0] == a[0] && all[1..] == a[1..] + [v] + b;
      var first, mid := if IsGrease(a[0]) then [] else [a[0]], if IsGrease(v) then [] else [v];
      assert first + (Real(a[1..]) + mid + Real(b)) == first + Real(a[1..]) + mid + Real(b);
    }
  }

  lemma {:induction false} RealExtensionsSplit(a: seq<Extension>, x: Extension, b: seq<Extension>)
    ensures RealExtensions(a + [x] + b) == RealExtensions(a) + (if IsGrease(x.ty) then [] else [x]) + RealExtensions(b)
    ensures RealExtensions([]) == []
  {
    hide IsGrease;
    var all := a + [x] + b;
    if a == [] {
      assert all[0] == x && all[1..] == b;
    } else {
      RealExtensionsSplit(a[1..], x, b);
      assert all[0] == a[0] && all[1..] == a[1..] + [x] + b;
      var first, mid := if IsGrease(a[0].ty) then [] else [a[0]], if IsGrease(x.ty) then [] else [x];
      assert first + (RealExtensions(a[1..]) + mid + RealExtensions(b)) ==
             first + RealExtensions(a[1..]) + mid + RealExtensions(b);
    }
  }

  // ---------------------------------------------------------------- the first extension of a type

  predicate FirstOf(xs: seq<Extension>, ty: nat, i: nat) {
    i < |xs| && xs[i].ty == ty && forall j :: 0 <= j < i ==> xs[j].ty != ty
  }

  lemma {:induction false} FindFirst(xs: seq<Extension>, ty: nat)
    ensures match Find(xs, ty)
            case Some(x) => exists i: nat :: FirstOf(xs, ty, i) && xs[i] == x
            case None => forall i :: 0 <= i < |xs| ==> xs[i].ty != ty
  {
    if xs != [] {
      if xs[0].ty == ty {
        assert FirstOf(xs, ty, 0);
      } else {
        FindFirst(xs[1..], ty);
        if Find(xs[1..], ty).Some? {
          var i: nat :| FirstOf(xs[1..], ty, i) && xs[1..][i] == Find(xs[1..], ty).value;
          forall j | 0 <= j < i + 1
            ensures xs[j].ty != ty
          {
            if j > 0 { assert xs[j] == xs[1..][j - 1]; }
          }
          assert FirstOf(xs, ty, i + 1) && xs[i + 1] == xs[1..][i];
        } else {
          forall j | 0 <= j < |xs|
            ensures xs[j].ty != ty
          {
            if j > 0 { assert xs[j] == xs[1..][j - 1]; }
          }
        }
      }
    }
  }

  /** The extension at `i` is what is found under its type when it is the first of it. */
  lemma FindIff(xs: seq<Extension>, ty: nat, i: nat)
    requires FirstOf(xs, ty, i)
    ensures Find(xs, ty) == Some(xs[i])
  {
    FindFirst(xs, ty);
  }

  // ---------------------------------------------------------------- extension bodies

  /** The signature algorithms of a list, as the message has them. */
  lemma SignaturesOf(vs: seq<nat>)
    requires AllU16(vs) && 2 * |vs| < 65536
    ensures SignatureAlgorithms([2 * |vs| / 256, 2 * |vs| % 256] + EncodeList(vs)) == Real(vs)
  {
    ReadOfEncodeList(vs);
    hide EncodeList, ReadList, Real, SignatureAlgorithms;
    SignaturesIn(EncodeList(vs));
  }

  lemma SignaturesIn(list: seq<byte>)
    requires |list| < 65536 && |list| % 2 == 0
    ensures SignatureAlgorithms([|list| / 256, |list| % 256] + list) == Real(ReadList(list))
  {
    hide ReadList, Real, SignatureAlgorithms;
    SignaturesBehind(|list| / 256, |list| % 256, list);
  }

  lemma SignaturesBehind(hi: byte, lo: byte, list: seq<byte>)
    requires 256 * (hi as int) + lo == |list| && |list| % 2 == 0
    ensures SignatureAlgorithms([hi, lo] + list) == Real(ReadList(list))
  {
    hide ReadList, Real;
    var body := [hi, lo] + list;
    assert body[..2] == [hi, lo] && body[2..2 + |list|] == list;
  }

  predicate IsLargest(vs: seq<nat>, m: nat) { m in vs && forall i :: 0 <= i < |vs| ==> vs[i] <= m }

  lemma {:induction false} MaxIs(vs: seq<nat>)
    ensures match Max(vs) case None => vs == [] case Some(m) => IsLargest(vs, m)
  {
    if vs != [] {
      MaxIs(vs[1..]);
      assert vs == [vs[0]] + vs[1..];
    }
  }

  /** The version of a list of supported ones: the largest that is not reserved. */
  lemma VersionsOf(vs: seq<nat>)
    requires AllU16(vs) && 2 * |vs| < 256
    ensures var r := SupportedVersionsMax([2 * |vs|] + EncodeList(vs));
            if Real(vs) == [] then r == None else r.Some? && IsLargest(Real(vs), r.value)
  {
    ReadOfEncodeList(vs);
    MaxIs(Real(vs));
    hide EncodeList, ReadList, Real, Max, IsLargest, SupportedVersionsMax;
    VersionsIn(EncodeList(vs));
  }

  lemma VersionsIn(list: seq<byte>)
    requires |list| < 256 && |list| % 2 == 0
    ensures SupportedVersionsMax([|list|] + list) == Max(Real(ReadList(list)))
  {
    hide ReadList, Real, Max;
    var body: seq<byte> := [|list|] + list;
    assert body[0] == |list| && body[1..1 + |list|] == list;
  }

  predicate IsAlnum(b: byte) { 48 <= b <= 57 || 65 <= b <= 90 || 97 <= b <= 122 }

  /** The marker of a list of protocols whose first is `name`: its first and last character, or, if one of
      them is neither letter nor digit, the high digit of the first and the low digit of the last. */
  lemma AlpnOf(name: seq<byte>, others: seq<byte>)
    requires 0 < |name| < 256 && 1 + |name| + |others| < 65536
    ensures var n := 1 + |name| + |others|;
            var r := AlpnMarker([n / 256, n % 256, |name|] + name + others);
            var a, z := name[0], name[|name| - 1];
            && r.Some? && |r.value| == 2
            && if IsAlnum(a) && IsAlnum(z) then r.value[0] as int == a && r.value[1] as int == z
               else
                 && IsDigit(r.value[0]) && DigitValue(r.value[0]) == a / 16
                 && IsDigit(r.value[1]) && DigitValue(r.value[1]) == z % 16
  {
    var n := 1 + |name| + |others|;
    var a, z := name[0], name[|name| - 1];
    var body: seq<byte> := [n / 256, n % 256, |name|] + name + others;
    assert body[..2] == [n / 256, n % 256] && FromBe16(body[..2]) == n;
    assert body[2] == |name| && body[3] == a && body[2 + |name|] == z;
    HexDigit(a / 16);
    HexDigit(z % 16);
    hide IsDigit, DigitValue;
  }

  // ---------------------------------------------------------------- the whole

  /** How many extensions have the type `v`. */
  function Count(xs: seq<Extension>, v: nat): (n: nat) {
    if xs == [] then 0 else (if xs[0].ty == v then 1 else 0) + Count(xs[1..], v)
  }

  lemma {:induction false} HashedCounts(xs: seq<Extension>, v: nat)
    ensures multiset(Hashed(xs))[v] == if IsGrease(v) || v == 0 || v == 16 then 0 else Count(xs, v)
  {
    TimesIs(xs, v);
    if xs != [] {
      HashedCounts(xs[1..], v);
      TimesIs(xs[1..], v);
      hide Hashed;
    }
  }

  function ZeroOr(text: string, digest: string -> string): (s: string) {
    if text == "" then "000000000000" else digest(text)
  }

  /** The second part of a fingerprint: hashes of the sorted cipher suites, and of the sorted extension
      types, without server name and protocol, followed by the signature algorithms in their order. */
  lemma BackSpelled(p: Parsed, digest: string -> string)
    returns (ciphers: seq<nat>, types: seq<nat>, cipherText: string, typeText: string, signatureText: string)
    requires Numbers(p)
    ensures BackOf(p, digest) ==
            ZeroOr(cipherText, digest) + "_" +
            (if typeText == "" then "000000000000"
             else digest(if signatureText == "" then typeText else typeText + "_" + signatureText))
    ensures SpellsList(cipherText, ciphers) && Sorted(ciphers) && multiset(ciphers) == multiset(Real(p.ciphers))
    ensures SpellsList(typeText, types) && Sorted(types)
    ensures forall v: nat ::
              multiset(types)[v] == if IsGrease(v) || v == 0 || v == 16 then 0 else Count(p.extensions, v)
    ensures match Find(p.extensions, 13)
            case None => signatureText == ""
            case Some(x) => SpellsList(signatureText, SignatureAlgorithms(x.body))
  {
    ciphers, types := Sort(Real(p.ciphers)), Sort(Hashed(p.extensions));
    cipherText, typeText, signatureText := CipherText(p), ExtensionText(p), SignatureText(p.extensions);
    ListsU16(p);
    ListSpells(ciphers);
    ListSpells(types);
    SortIsSorted(Real(p.ciphers));
    SortIsSorted(Hashed(p.extensions));
    hide Sort, HexList, SpellsList, Real, Hashed, Sorted;
    forall v: nat
      ensures multiset(types)[v] == if IsGrease(v) || v == 0 || v == 16 then 0 else Count(p.extensions, v)
    {
      HashedCounts(p.extensions, v);
    }
    if Find(p.extensions, 13).Some? {
      var body := Find(p.extensions, 13).value.body;
      SignaturesU16(body);
      ListSpells(SignatureAlgorithms(body));
    }
  }

  /** The names of the versions. */
  lemma VersionNames(v: nat)
    ensures 0x0301 <= v <= 0x0304 ==>
              |VersionName(v)| == 2 && VersionName(v)[0] == '1' && VersionName(v)[1] as int == '0' as int + (v - 0x0301)
    ensures VersionName(0x0300) == "s3" && VersionName(2) == "s2"
    ensures VersionName(0xfeff) == "d1" && VersionName(0xfefd) == "d2" && VersionName(0xfefc) == "d3"
    ensures v !in {2, 0x0300, 0x0301, 0x0302, 0x0303, 0x0304, 0xfefc, 0xfefd, 0xfeff} ==> VersionName(v) == "00"
  {
  }

  /** The version that is named: the largest supported one if the message lists any, and otherwise the
      one in front. */
  lemma VersionIs(p: Parsed)
    ensures match Find(p.extensions, 43)
            case None => Version(p) == p.legacyVersion
            case Some(x) =>
              var largest := SupportedVersionsMax(x.body);
              Version(p) == if largest.Some? then largest.value else p.legacyVersion
  {
    hide Find, SupportedVersionsMax;
  }

  /** The wire form of a message, from end to end: its fingerprint is the two parts above. */
  lemma FingerprintOfWire(h: Hello, digest: string -> string)
    requires Valid(h) && h.version / 256 == 3
    ensures Numbers(Summary(h))
    ensures Fingerprint(Encode(h), digest) == Some(Ja4.FrontOf(Summary(h)) + ("_" + BackOf(Summary(h), digest)))
  {
    hide Encode, Parse, Valid, Numbers, Ja4.FrontOf, BackOf;
    StripMisfiresIff(h);
    ParseOfEncode(h);
    NumbersOf(Encode(h));
  }

  /** The first part: a letter, the version, whether there is a server name, the two counts, the protocol. */
  lemma FrontSpelled(p: Parsed)
    ensures var s := Ja4.FrontOf(p);
            && |s| == 10 && s[0] == 't' && s[1..3] == VersionName(Version(p))
            && s[3] == (if exists i :: 0 <= i < |p.extensions| && p.extensions[i].ty == 0 then 'd' else 'i')
            && Spelled(s[4..6]) == (if |Real(p.ciphers)| < 99 then |Real(p.ciphers)| else 99)
            && Spelled(s[6..8]) == (if |RealExtensions(p.extensions)| < 99 then |RealExtensions(p.extensions)| else 99)
            && s[8..10] == match Find(p.extensions, 16)
                           case None => "00"
                           case Some(x) => (match AlpnMarker(x.body) case None => "00" case Some(m) => m)
  {
    FindFirst(p.extensions, 0);
    FrontReads(p, Ja4.FrontOf(p));
    FrontLength(p);
    hide Ja4.FrontOf, VersionName, Version, Real, RealExtensions, Spelled, Find, AlpnMarker;
  }

  /** A message with signature algorithms `signatures`: what is hashed, and in which order. */
  lemma HashedTexts(h: Hello, i: nat, signatures: seq<nat>, digest: string -> string)
    returns (ciphers: seq<nat>, types: seq<nat>, cipherText: string, typeText: string, signatureText: string)
    requires Valid(h) && h.version / 256 == 3 && AllU16(signatures) && 2 * |signatures| < 65536
    requires var xs := Summary(h).extensions;
             && FirstOf(xs, 13, i)
             && xs[i].body == [2 * |signatures| / 256, 2 * |signatures| % 256] + EncodeList(signatures)
    ensures Fingerprint(Encode(h), digest) ==
            Some(Ja4.FrontOf(Summary(h)) +
                 ("_" + (ZeroOr(cipherText, digest) + "_" +
                         digest(if signatureText == "" then typeText else typeText + "_" + signatureText))))
    ensures SpellsList(cipherText, ciphers) && Sorted(ciphers) && multiset(ciphers) == multiset(Real(h.ciphers))
    ensures SpellsList(typeText, types) && Sorted(types)
    ensures forall v: nat ::
              multiset(types)[v] == if IsGrease(v) || v == 0 || v == 16 then 0 else Count(Summary(h).extensions, v)
    ensures SpellsList(signatureText, Real(signatures))
  {
    hide Fingerprint, Encode, Ja4.FrontOf, BackOf, Find, SignatureAlgorithms, EncodeList, Real, Sorted, Count, Valid;
    hide SpellsList, ZeroOr, FirstOf, Numbers;
    var p := Summary(h);
    FingerprintOfWire(h, digest);
    ciphers, types, cipherText, typeText, signatureText := BackSpelled(p, digest);
    FindIff(p.extensions, 13, i);
    SignaturesOf(signatures);
    CountFirst(p.extensions, 13, i);
    assert 13 in multiset(types);
    assert typeText != "" by { NotEmpty(typeText, types); }
  }

  lemma NotEmpty(s: string, vs: seq<nat>)
    requires SpellsList(s, vs) && vs != []
    ensures s != ""
  {
  }

  lemma {:induction false} CountFirst(xs: seq<Extension>, ty: nat, i: nat)
    requires FirstOf(xs, ty, i)
    ensures Count(xs, ty) > 0
  {
    if i > 0 {
      assert FirstOf(xs[1..], ty, i - 1) by {
        assert forall j :: 0 <= j < i - 1 ==> xs[1..][j] == xs[j + 1];
      }
      CountFirst(xs[1..], ty, i - 1);
    }
  }

  /** The bytes of a message in order, large numbers with their high byte first. */
  lemma WireForm(h: Hello)
    requires Valid(h)
    ensures var n := 2 * |h.ciphers|;
            Encode(h) ==
            [h.version / 256, h.version % 256] + h.random + [|h.session|] + h.session
            + ([n / 256, n % 256] + EncodeList(h.ciphers)
               + ([|h.compression|] + h.compression + EncodeTail(h.extensions)))
  {
    hide EncodeTail, EncodeList, EncodeExtensions;
  }

  /** An extension block is missing, or stands behind its length. */
  lemma TailForm(xs: seq<Extension>)
    requires ValidExtensions(xs) && U16(|EncodeExtensions(xs)|)
    ensures EncodeTail(None) == []
    ensures var n := |EncodeExtensions(xs)|; EncodeTail(Some(xs)) == [n / 256, n % 256] + EncodeExtensions(xs)
  {
    hide EncodeExtensions;
  }

  /** A list of numbers, byte by byte. */
  lemma {:induction false} ListBytes(vs: seq<nat>, i: nat)
    requires AllU16(vs) && i < |vs|
    ensures EncodeList(vs)[2 * i] == vs[i] / 256 && EncodeList(vs)[2 * i + 1] == vs[i] % 256
  {
    if i > 0 {
      ListBytes(vs[1..], i - 1);
      var rest := EncodeList(vs[1..]);
      assert EncodeList(vs)[2 * i] == rest[2 * i - 2] && EncodeList(vs)[2 * i + 1] == rest[2 * i - 1];
    }
  }

  /** An extension block: for each extension its type, its length and its body. */
  lemma ExtensionBytes(x: Extension, rest: seq<Extension>)
    requires ValidExtensions([x] + rest)
    ensures ValidExtensions(rest)
    ensures EncodeExtensions([x] + rest) ==
            [x.ty / 256, x.ty % 256, |x.body| / 256, |x.body| % 256] + x.body + EncodeExtensions(rest)
  {
    var xs := [x] + rest;
    assert xs[0] == x && xs[1..] == rest;
    assert forall i :: 0 <= i < |rest| ==> rest[i] == xs[i + 1];
  }
}
