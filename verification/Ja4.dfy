/** The JA4 client fingerprint (`src/ja4.rs`) and what it does not depend on. `digest` stands for the
    truncated SHA-256 of a text. */
module Ja4 {
  import opened Bytes
  import opened ClientHello

  const SNI: nat := 0x0000
  const ALPN: nat := 0x0010
  const SIGNATURE_ALGORITHMS: nat := 0x000d
  const SUPPORTED_VERSIONS: nat := 0x002b

  /** The reserved values of section 2 of RFC 8701. */
  predicate IsGrease(v: nat) { v / 256 == v % 256 && v % 16 == 10 }

  function Real(vs: seq<nat>): (r: seq<nat>) {
    if vs == [] then [] else (if IsGrease(vs[0]) then [] else [vs[0]]) + Real(vs[1..])
  }

  function RealExtensions(xs: seq<Extension>): (r: seq<Extension>) {
    if xs == [] then [] else (if IsGrease(xs[0].ty) then [] else [xs[0]]) + RealExtensions(xs[1..])
  }

  // ---------------------------------------------------------------- the parts of a fingerprint

  function Find(xs: seq<Extension>, ty: nat): (r: Option<Extension>) {
    if xs == [] then None else if xs[0].ty == ty then Some(xs[0]) else Find(xs[1..], ty)
  }

  function Max(vs: seq<nat>): (r: Option<nat>) {
    if vs == [] then None
    else
      match Max(vs[1..])
      case None => Some(vs[0])
      case Some(m) => Some(if vs[0] > m then vs[0] else m)
  }

  function SupportedVersionsMax(body: seq<byte>): (r: Option<nat>) {
    if body == [] || |body| - 1 < body[0] || body[0] % 2 != 0 then None
    else Max(Real(ReadList(body[1..1 + body[0]])))
  }

  function SignatureAlgorithms(body: seq<byte>): (vs: seq<nat>) {
    if |body| < 2 then []
    else
      var len := FromBe16(body[..2]);
      if |body| - 2 < len || len % 2 != 0 then [] else Real(ReadList(body[2..2 + len]))
  }

  const HEX: string := "0123456789abcdef"

  function Hex4(v: nat): (s: string)
    requires U16(v)
    ensures |s| == 4
  {
    [HEX[v / 4096], HEX[v / 256 % 16], HEX[v / 16 % 16], HEX[v % 16]]
  }

  predicate Alphanumeric(b: byte) {
    '0' as int <= b <= '9' as int || 'A' as int <= b <= 'Z' as int || 'a' as int <= b <= 'z' as int
  }

  function AlpnMarker(body: seq<byte>): (r: Option<string>) {
    if |body| < 3 then None
    else
      var len := FromBe16(body[..2]);
      if |body| - 2 < len || len == 0 then None
      else
        var first := body[2];
        if first == 0 || len - 1 < first then None
        else
          var a, z := body[3], body[2 + first];
          if Alphanumeric(a) && Alphanumeric(z) then Some([a as char, z as char]) else Some([HEX[a / 16], HEX[z % 16]])
  }

  function HexList(vs: seq<nat>): (s: string)
    requires forall i :: 0 <= i < |vs| ==> U16(vs[i])
  {
    if vs == [] then [] else if |vs| == 1 then Hex4(vs[0]) else Hex4(vs[0]) + "," + HexList(vs[1..])
  }

  function VersionName(v: nat): (s: string) {
    match v
    case 0x0304 => "13"
    case 0x0303 => "12"
    case 0x0302 => "11"
    case 0x0301 => "10"
    case 0x0300 => "s3"
    case 0x0002 => "s2"
    case 0xfeff => "d1"
    case 0xfefd => "d2"
    case 0xfefc => "d3"
    case _ => "00"
  }

  function TwoDigits(n: nat): (s: string) {
    var c := if n < 99 then n else 99;
    [HEX[c / 10], HEX[c % 10]]
  }

  predicate Sorted(vs: seq<nat>) { forall i, j :: 0 <= i < j < |vs| ==> vs[i] <= vs[j] }

  function Insert(v: nat, vs: seq<nat>): (r: seq<nat>) {
    if vs == [] || v <= vs[0] then [v] + vs else [vs[0]] + Insert(v, vs[1..])
  }

  lemma {:induction false} InsertContents(v: nat, vs: seq<nat>)
    ensures multiset(Insert(v, vs)) == multiset(vs) + multiset{v}
  {
    if vs != [] && v > vs[0] {
      InsertContents(v, vs[1..]);
      assert vs == [vs[0]] + vs[1..];
    }
  }

  predicate AllFrom(lo: nat, vs: seq<nat>) { forall i :: 0 <= i < |vs| ==> lo <= vs[i] }

  lemma {:induction false} InsertFrom(lo: nat, v: nat, vs: seq<nat>)
    requires lo <= v && AllFrom(lo, vs)
    ensures AllFrom(lo, Insert(v, vs))
  {
    if vs != [] && v > vs[0] { InsertFrom(lo, v, vs[1..]); }
  }

  lemma SortedCons(v: nat, vs: seq<nat>)
    requires Sorted(vs) && AllFrom(v, vs)
    ensures Sorted([v] + vs)
  {
  }

  lemma {:induction false} InsertSorted(v: nat, vs: seq<nat>)
    requires Sorted(vs)
    ensures Sorted(Insert(v, vs))
  {
    if vs == [] || v <= vs[0] {
      assert AllFrom(v, vs);
      SortedCons(v, vs);
    } else {
      assert AllFrom(vs[0], vs[1..]) && Sorted(vs[1..]);
      InsertSorted(v, vs[1..]);
      InsertFrom(vs[0], v, vs[1..]);
      SortedCons(vs[0], Insert(v, vs[1..]));
    }
  }

  /** In increasing order. */
  function Sort(vs: seq<nat>): (r: seq<nat>) { if vs == [] then [] else Insert(vs[0], Sort(vs[1..])) }

  lemma {:induction false} SortIsSorted(vs: seq<nat>)
    ensures Sorted(Sort(vs)) && multiset(Sort(vs)) == multiset(vs)
  {
    if vs != [] {
      SortIsSorted(vs[1..]);
      InsertSorted(vs[0], Sort(vs[1..]));
      InsertContents(vs[0], Sort(vs[1..]));
      assert vs == [vs[0]] + vs[1..];
    }
  }

  /** Sorting forgets the order and nothing else. */
  lemma {:induction false} SortedUnique(a: seq<nat>, b: seq<nat>)
    requires Sorted(a) && Sorted(b) && multiset(a) == multiset(b)
    ensures a == b
  {
    assert |a| == |multiset(a)| == |multiset(b)| == |b|;
    if a != [] {
      SameFirst(a, b);
      SortedTail(a);
      SortedTail(b);
      hide Sorted;
      TailContents(a);
      TailContents(b);
      SortedUnique(a[1..], b[1..]);
    }
  }

  lemma SortedTail(a: seq<nat>)
    requires Sorted(a) && a != []
    ensures Sorted(a[1..])
  {
  }

  lemma TailContents<T>(a: seq<T>)
    requires a != []
    ensures a == [a[0]] + a[1..] && multiset(a[1..]) == multiset(a) - multiset{a[0]}
  {
    assert a == [a[0]] + a[1..];
  }

  lemma SameFirst(a: seq<nat>, b: seq<nat>)
    requires a != [] && b != [] && Sorted(a) && Sorted(b) && multiset(a) == multiset(b)
    ensures a[0] == b[0]
  {
    assert a[0] in multiset(b) && b[0] in multiset(a);
    var i :| 0 <= i < |b| && b[i] == a[0];
    var j :| 0 <= j < |a| && a[j] == b[0];
    assert b[0] <= b[i] && a[0] <= a[j];
  }

  predicate AllU16(vs: seq<nat>) { forall i :: 0 <= i < |vs| ==> U16(vs[i]) }

  /** The extension types that go into the hash. */
  function Hashed(xs: seq<Extension>): (r: seq<nat>) {
    if xs == [] then []
    else HashedType(xs[0]) + Hashed(xs[1..])
  }

  function HashedType(x: Extension): (r: seq<nat>) {
    if IsGrease(x.ty) || x.ty == SNI || x.ty == ALPN then [] else [x.ty]
  }

  function OrZero(text: string, digest: string -> string): (s: string) {
    if text == [] then "000000000000" else digest(text)
  }

  predicate Numbers(p: Parsed) {
    AllU16(p.ciphers) && forall i :: 0 <= i < |p.extensions| ==> U16(p.extensions[i].ty)
  }

  lemma {:induction false} RealIn(vs: seq<nat>, v: nat)
    ensures v in Real(vs) <==> v in vs && !IsGrease(v)
  {
    if vs != [] {
      RealIn(vs[1..], v);
      assert vs == [vs[0]] + vs[1..];
    }
  }

  lemma {:induction false} HashedIn(xs: seq<Extension>, v: nat)
    ensures v in Hashed(xs) ==> exists i :: 0 <= i < |xs| && xs[i].ty == v
  {
    if xs != [] && v in Hashed(xs) {
      HashedIn(xs[1..], v);
      if v in Hashed(xs[1..]) {
        var i :| 0 <= i < |xs[1..]| && xs[1..][i].ty == v;
        assert xs[i + 1].ty == v;
      } else {
        assert xs[0].ty == v;
      }
    }
  }

  /** Sorting, filtering and hashing keep the numbers 16 bits wide. */
  lemma ListsU16(p: Parsed)
    requires Numbers(p)
    ensures AllU16(Sort(Real(p.ciphers))) && AllU16(Sort(Hashed(p.extensions)))
  {
    var c, x := Sort(Real(p.ciphers)), Sort(Hashed(p.extensions));
    SortIsSorted(Real(p.ciphers));
    SortIsSorted(Hashed(p.extensions));
    hide Sort, Sorted;
    forall i | 0 <= i < |c|
      ensures U16(c[i])
    {
      assert c[i] in multiset(c);
      RealIn(p.ciphers, c[i]);
    }
    forall i | 0 <= i < |x|
      ensures U16(x[i])
    {
      assert x[i] in multiset(x);
      HashedIn(p.extensions, x[i]);
    }
  }

  // ---------------------------------------------------------------- the fingerprint

  function CipherText(p: Parsed): (s: string)
    requires Numbers(p)
  {
    ListsU16(p);
    HexList(Sort(Real(p.ciphers)))
  }

  function ExtensionText(p: Parsed): (s: string)
    requires Numbers(p)
  {
    ListsU16(p);
    HexList(Sort(Hashed(p.extensions)))
  }

  function SignatureText(xs: seq<Extension>): (s: string) {
    match Find(xs, SIGNATURE_ALGORITHMS)
    case None => ""
    case Some(x) => SignaturesU16(x.body); HexList(SignatureAlgorithms(x.body))
  }

  lemma SignaturesU16(body: seq<byte>)
    ensures AllU16(SignatureAlgorithms(body))
  {
    var vs := SignatureAlgorithms(body);
    forall i | 0 <= i < |vs|
      ensures U16(vs[i])
    {
      RealIn(ReadList(body[2..2 + FromBe16(body[..2])]), vs[i]);
    }
  }

  function Version(p: Parsed): (v: nat) {
    match Find(p.extensions, SUPPORTED_VERSIONS)
    case None => p.legacyVersion
    case Some(x) =>
      match SupportedVersionsMax(x.body)
      case None => p.legacyVersion
      case Some(v) => v
  }

  function Alpn(xs: seq<Extension>): (s: string) {
    match Find(xs, ALPN)
    case None => "00"
    case Some(x) => match AlpnMarker(x.body) case None => "00" case Some(m) => m
  }

  function Front(version: string, name: string, ciphers: string, extensions: string, alpn: string): (s: string) {
    "t" + version + name + ciphers + extensions + alpn
  }

  lemma FrontSlices(v: string, m: string, c: string, x: string, a: string, s: string)
    requires |v| == |c| == |x| == |a| == 2 && |m| == 1 && Front(v, m, c, x, a) <= s
    ensures |s| >= 10 && s[0] == 't' && s[1..3] == v && s[3] == m[0] && s[4..6] == c && s[6..8] == x && s[8..10] == a
  {
    var f := Front(v, m, c, x, a);
    assert f[1..3] == v && f[4..6] == c && f[6..8] == x && f[8..10] == a;
    assert s[1..3] == f[1..3] && s[4..6] == f[4..6] && s[6..8] == f[6..8] && s[8..10] == f[8..10];
  }

  function FingerprintOf(p: Parsed, digest: string -> string): (s: string)
    requires Numbers(p)
  {
    FrontOf(p) + ("_" + BackOf(p, digest))
  }

  function FrontOf(p: Parsed): (s: string) {
    Front(VersionName(Version(p)), if Find(p.extensions, SNI).Some? then "d" else "i",
          TwoDigits(|Real(p.ciphers)|), TwoDigits(|RealExtensions(p.extensions)|), Alpn(p.extensions))
  }

  function BackOf(p: Parsed, digest: string -> string): (s: string)
    requires Numbers(p)
  {
    var types, signatures := ExtensionText(p), SignatureText(p.extensions);
    OrZero(CipherText(p), digest) + "_" +
    (if types == [] then "000000000000" else digest(if signatures == [] then types else types + "_" + signatures))
  }

  /** The number two decimal digits spell. */
  function Spelled(s: string): (n: int)
    requires |s| == 2
  {
    10 * (s[0] as int - '0' as int) + (s[1] as int - '0' as int)
  }

  lemma TwoDigitsSpell(n: nat)
    ensures |TwoDigits(n)| == 2 && Spelled(TwoDigits(n)) == if n < 99 then n else 99
  {
    DigitChar(if n < 99 then n / 10 else 9);
    DigitChar(if n < 99 then n % 10 else 9);
  }

  lemma DigitChar(d: nat)
    requires d < 10
    ensures HEX[d] as int == '0' as int + d
  {
    assert HEX[..10] == "0123456789";
    assert HEX[d] == "0123456789"[d];
  }

  lemma AlpnLength(xs: seq<Extension>)
    ensures |Alpn(xs)| == 2
  {
    hide Find;
  }

  /** The first part of a fingerprint read back: the version, whether there is a server name, how many
      cipher suites and how many extensions there are apart from reserved ones, and the protocol. */
  lemma FieldsReadBack(p: Parsed, digest: string -> string)
    requires Numbers(p)
    ensures var s := FingerprintOf(p, digest);
            && |s| > 10 && s[0] == 't' && s[1..3] == VersionName(Version(p))
            && s[3] == (if Find(p.extensions, SNI).Some? then 'd' else 'i')
            && Spelled(s[4..6]) == (if |Real(p.ciphers)| < 99 then |Real(p.ciphers)| else 99)
            && Spelled(s[6..8]) == (if |RealExtensions(p.extensions)| < 99 then |RealExtensions(p.extensions)| else 99)
            && s[8..10] == Alpn(p.extensions) && s[10] == '_'
  {
    hide FrontOf, BackOf, VersionName, Version, TwoDigits, Real, RealExtensions, Alpn, Find, Spelled;
    FrontReads(p, FingerprintOf(p, digest));
    FrontLength(p);
  }

  lemma FrontLength(p: Parsed)
    ensures |FrontOf(p)| == 10
  {
    TwoDigitsSpell(|Real(p.ciphers)|);
    TwoDigitsSpell(|RealExtensions(p.extensions)|);
    AlpnLength(p.extensions);
    assert |VersionName(Version(p))| == 2;
    hide VersionName, Version, TwoDigits, Real, RealExtensions, Alpn, Find;
  }

  lemma FrontReads(p: Parsed, s: string)
    requires FrontOf(p) <= s
    ensures |s| >= 10 && s[0] == 't' && s[1..3] == VersionName(Version(p))
    ensures s[3] == (if Find(p.extensions, SNI).Some? then 'd' else 'i') && s[8..10] == Alpn(p.extensions)
    ensures Spelled(s[4..6]) == (if |Real(p.ciphers)| < 99 then |Real(p.ciphers)| else 99)
    ensures Spelled(s[6..8]) == (if |RealExtensions(p.extensions)| < 99 then |RealExtensions(p.extensions)| else 99)
  {
    TwoDigitsSpell(|Real(p.ciphers)|);
    TwoDigitsSpell(|RealExtensions(p.extensions)|);
    AlpnLength(p.extensions);
    assert |VersionName(Version(p))| == 2;
    hide VersionName, Version, TwoDigits, Real, RealExtensions, Alpn, Find, Spelled, Front;
    FrontSlices(VersionName(Version(p)), if Find(p.extensions, SNI).Some? then "d" else "i",
                TwoDigits(|Real(p.ciphers)|), TwoDigits(|RealExtensions(p.extensions)|), Alpn(p.extensions), s);
  }

  /** A handshake message of type 1 with its length, taken off. */
  function StripHandshakeHeader(input: seq<byte>): (r: Option<seq<byte>>) {
    if |input| < 4 || input[0] != 1 then None
    else if |input| == Length24(input) + 4 then Some(input[4..])
    else None
  }

  function Length24(input: seq<byte>): (n: nat)
    requires |input| >= 4
  {
    var hi: nat, mid: nat := input[1], input[2];
    65536 * hi + 256 * mid + input[3]
  }

  function Fingerprint(input: seq<byte>, digest: string -> string): (r: Option<string>) {
    var stripped := StripHandshakeHeader(input);
    match Parse(if stripped.Some? then stripped.value else input)
    case None => None
    case Some(h) => NumbersOf(if stripped.Some? then stripped.value else input); Some(FingerprintOf(Summary(h), digest))
  }

  lemma NumbersOf(b: seq<byte>)
    requires Parse(b).Some?
    ensures Numbers(Summary(Parse(b).value))
  {
    EncodeOfParse(b);
    hide Parse, Encode;
  }

  // ---------------------------------------------------------------- what it does not depend on

  /** Extensions have different types, apart from the reserved ones. */
  predicate DistinctTypes(xs: seq<Extension>) {
    forall i, j :: 0 <= i < j < |xs| && !IsGrease(xs[i].ty) ==> xs[i].ty != xs[j].ty
  }

  /** The same extensions in any order, whatever reserved ones stand among them. */
  predicate SameExtensions(a: seq<Extension>, b: seq<Extension>) {
    multiset(RealExtensions(a)) == multiset(RealExtensions(b))
  }

  lemma {:induction false} RealExtensionsIn(xs: seq<Extension>, x: Extension)
    ensures x in RealExtensions(xs) <==> x in xs && !IsGrease(x.ty)
  {
    if xs != [] {
      RealExtensionsIn(xs[1..], x);
      assert xs == [xs[0]] + xs[1..];
    }
  }

  lemma {:induction false} FindIs(xs: seq<Extension>, x: Extension)
    requires x in xs && !IsGrease(x.ty) && DistinctTypes(xs)
    ensures Find(xs, x.ty) == Some(x)
  {
    var k :| 0 <= k < |xs| && xs[k] == x;
    if k > 0 {
      assert xs[0].ty != x.ty;
      assert xs[1..][k - 1] == x;
      FindIs(xs[1..], x);
    }
  }

  lemma {:induction false} FindIn(xs: seq<Extension>, ty: nat)
    ensures Find(xs, ty).Some? ==> Find(xs, ty).value in xs && Find(xs, ty).value.ty == ty
  {
    if xs != [] && xs[0].ty != ty { FindIn(xs[1..], ty); }
  }

  /** The first extension of a type is the same one in any order. */
  lemma SameFind(a: seq<Extension>, b: seq<Extension>, ty: nat)
    requires SameExtensions(a, b) && DistinctTypes(a) && DistinctTypes(b) && !IsGrease(ty)
    ensures Find(a, ty) == Find(b, ty)
  {
    SameFindOneWay(a, b, ty);
    SameFindOneWay(b, a, ty);
  }

  lemma SameFindOneWay(a: seq<Extension>, b: seq<Extension>, ty: nat)
    requires SameExtensions(a, b) && DistinctTypes(b) && !IsGrease(ty)
    ensures Find(a, ty).Some? ==> Find(b, ty) == Find(a, ty)
  {
    hide DistinctTypes;
    FindIn(a, ty);
    if Find(a, ty).Some? {
      var x := Find(a, ty).value;
      RealExtensionsIn(a, x);
      assert x in multiset(RealExtensions(b));
      RealExtensionsIn(b, x);
      FindIs(b, x);
    }
  }

  lemma {:induction false} HashedOfReal(xs: seq<Extension>)
    ensures Hashed(RealExtensions(xs)) == Hashed(xs)
  {
    if xs != [] {
      HashedOfReal(xs[1..]);
      var rest := RealExtensions(xs[1..]);
      if IsGrease(xs[0].ty) {
        assert [] + rest == rest && [] + Hashed(xs[1..]) == Hashed(xs[1..]);
      } else {
        var all := [xs[0]] + rest;
        assert all[0] == xs[0] && all[1..] == rest;
      }
    }
  }

  lemma Removed<T>(s: seq<T>, k: nat)
    requires k < |s|
    ensures multiset(s[..k] + s[k + 1..]) == multiset(s) - multiset{s[k]}
  {
    assert s == s[..k] + [s[k]] + s[k + 1..];
  }

  /** How often `v` is hashed. */
  function Times(xs: seq<Extension>, v: nat): (n: nat) {
    if xs == [] then 0 else (if HashedType(xs[0]) == [v] then 1 else 0) + Times(xs[1..], v)
  }

  lemma {:induction false} TimesIs(xs: seq<Extension>, v: nat)
    ensures multiset(Hashed(xs))[v] == Times(xs, v)
  {
    if xs != [] {
      TimesIs(xs[1..], v);
      assert multiset(Hashed(xs)) == multiset(HashedType(xs[0])) + multiset(Hashed(xs[1..]));
      hide Hashed;
    }
  }

  lemma {:induction false} TimesRemoved(b: seq<Extension>, k: nat, v: nat)
    requires k < |b|
    ensures Times(b, v) == (if HashedType(b[k]) == [v] then 1 else 0) + Times(b[..k] + b[k + 1..], v)
  {
    hide HashedType;
    if k == 0 {
      assert b[..0] + b[1..] == b[1..];
    } else {
      TimesRemoved(b[1..], k - 1, v);
      var less, c := b[..k] + b[k + 1..], b[1..];
      assert less[0] == b[0] && less[1..] == c[..k - 1] + c[k..];
    }
  }

  lemma InOther(a: seq<Extension>, b: seq<Extension>)
    requires a != [] && multiset(a) == multiset(b)
    ensures a[0] in b
  {
    assert a[0] in multiset(a);
  }

  lemma RestOfOther(a: seq<Extension>, b: seq<Extension>, k: nat)
    requires a != [] && multiset(a) == multiset(b) && k < |b| && b[k] == a[0]
    ensures multiset(a[1..]) == multiset(b[..k] + b[k + 1..])
  {
    Removed(b, k);
    TailContents(a);
  }

  /** Where the first extension of one order stands in the other. */
  lemma Partner(a: seq<Extension>, b: seq<Extension>) returns (k: nat)
    requires a != [] && multiset(a) == multiset(b)
    ensures k < |b| && b[k] == a[0] && multiset(a[1..]) == multiset(b[..k] + b[k + 1..])
  {
    InOther(a, b);
    k :| k < |b| && b[k] == a[0];
    RestOfOther(a, b, k);
  }

  lemma {:induction false} TimesPermuted(a: seq<Extension>, b: seq<Extension>, v: nat)
    requires multiset(a) == multiset(b)
    ensures Times(a, v) == Times(b, v)
  {
    hide HashedType;
    if a == [] {
      assert |b| == |multiset(b)| == 0;
    } else {
      var k := Partner(a, b);
      TimesRemoved(b, k, v);
      TimesPermuted(a[1..], b[..k] + b[k + 1..], v);
    }
  }

  lemma HashedPermuted(a: seq<Extension>, b: seq<Extension>)
    requires multiset(a) == multiset(b)
    ensures multiset(Hashed(a)) == multiset(Hashed(b))
  {
    forall v
      ensures multiset(Hashed(a))[v] == multiset(Hashed(b))[v]
    {
      TimesPermuted(a, b, v);
      TimesIs(a, v);
      TimesIs(b, v);
    }
    hide Hashed;
  }

  lemma SameTexts(p: Parsed, q: Parsed)
    requires Numbers(p) && Numbers(q)
    requires multiset(Real(p.ciphers)) == multiset(Real(q.ciphers)) && SameExtensions(p.extensions, q.extensions)
    ensures CipherText(p) == CipherText(q) && ExtensionText(p) == ExtensionText(q)
    ensures |Real(p.ciphers)| == |Real(q.ciphers)| && |RealExtensions(p.extensions)| == |RealExtensions(q.extensions)|
  {
    SortIsSorted(Real(p.ciphers)); SortIsSorted(Real(q.ciphers));
    SortedUnique(Sort(Real(p.ciphers)), Sort(Real(q.ciphers)));
    HashedPermuted(RealExtensions(p.extensions), RealExtensions(q.extensions));
    HashedOfReal(p.extensions); HashedOfReal(q.extensions);
    SortIsSorted(Hashed(p.extensions)); SortIsSorted(Hashed(q.extensions));
    SortedUnique(Sort(Hashed(p.extensions)), Sort(Hashed(q.extensions)));
    hide Sort, Sorted, Hashed, Real, RealExtensions, HexList;
    assert |multiset(Real(p.ciphers))| == |multiset(Real(q.ciphers))|;
    assert |multiset(RealExtensions(p.extensions))| == |multiset(RealExtensions(q.extensions))|;
  }

  /** The fingerprint depends only on the legacy version and, without order, on the cipher suites and
      extensions that are not reserved values. */
  lemma SameFingerprintOf(p: Parsed, q: Parsed, digest: string -> string)
    requires Numbers(p) && Numbers(q) && p.legacyVersion == q.legacyVersion
    requires multiset(Real(p.ciphers)) == multiset(Real(q.ciphers)) && SameExtensions(p.extensions, q.extensions)
    requires DistinctTypes(p.extensions) && DistinctTypes(q.extensions)
    ensures FingerprintOf(p, digest) == FingerprintOf(q, digest)
  {
    SameTexts(p, q);
    SameFind(p.extensions, q.extensions, SNI);
    SameFind(p.extensions, q.extensions, ALPN);
    SameFind(p.extensions, q.extensions, SIGNATURE_ALGORITHMS);
    SameFind(p.extensions, q.extensions, SUPPORTED_VERSIONS);
    hide Find, Real, RealExtensions, CipherText, ExtensionText, DistinctTypes, SameExtensions,
      SupportedVersionsMax, AlpnMarker, SignatureAlgorithms;
    assert Version(p) == Version(q) && Alpn(p.extensions) == Alpn(q.extensions);
    assert SignatureText(p.extensions) == SignatureText(q.extensions);
    hide Version, Alpn, SignatureText, TwoDigits, VersionName, OrZero, Front;
  }

  /** When the framing test mistakes a message body for a framed message: exactly when its version and
      the first two random bytes happen to spell a handshake header of the right length. */
  lemma StripMisfiresIff(h: Hello)
    requires Valid(h)
    ensures StripHandshakeHeader(Encode(h)).Some? <==>
            && h.version / 256 == 1
            && 65536 * (h.version % 256) + 256 * (h.random[0] as nat) + h.random[1] + 4 == |Encode(h)|
  {
    hide EncodeExtensions, EncodeFromCiphers, Valid;
    ValidParts(h);
    var b := Encode(h);
    assert b[0] == h.version / 256 && b[1] == h.version % 256 && b[2] == h.random[0] && b[3] == h.random[1];
  }

  /** A message of 38 bytes whose version is 1.0 and whose random bytes start with 0 and 34. */
  lemma MisfireExample()
    ensures var h := Hello(0x100, [0, 34] + seq(30, _ => 0), [], [], [], None);
            Valid(h) && |Encode(h)| == 38 && StripHandshakeHeader(Encode(h)).Some?
  {
    var h := Hello(0x100, [0, 34] + seq(30, _ => 0), [], [], [], None);
    StripMisfiresIff(h);
  }

  lemma ValidParts(h: Hello)
    requires Valid(h)
    ensures U16(h.version) && |h.random| == 32
  {
  }

  lemma FrameLength(n: nat)
    requires n < 0x1000000
    ensures 65536 * (n / 65536) + 256 * (n / 256 % 256) + n % 256 == n
  {
    assert n / 256 / 256 == n / 65536;
  }

  /** The handshake header may be there or not. */
  lemma FramingIsIrrelevant(h: Hello, digest: string -> string)
    requires Valid(h) && h.version / 256 == 3 && |Encode(h)| < 0x1000000
    ensures Fingerprint(Framed(Encode(h)), digest) == Fingerprint(Encode(h), digest)
  {
    hide Encode, Parse, Valid, FingerprintOf, StripHandshakeHeader, Framed;
    StripMisfiresIff(h);
    StripFramed(Encode(h));
  }

  function Framed(b: seq<byte>): (r: seq<byte>)
    requires |b| < 0x1000000
  {
    [1, |b| / 65536, |b| / 256 % 256, |b| % 256] + b
  }

  lemma StripFramed(b: seq<byte>)
    requires |b| < 0x1000000
    ensures StripHandshakeHeader(Framed(b)) == Some(b)
  {
    var framed := Framed(b);
    assert framed[0] == 1 && framed[1] == |b| / 65536 && framed[2] == |b| / 256 % 256 && framed[3] == |b| % 256;
    FrameLength(|b|);
    assert framed[4..] == b;
  }

  /** Permuting cipher suites, permuting extensions, and reserved values among either do not change the
      fingerprint, whatever the random bytes, the session and the compression methods are. */
  lemma OrderAndGreaseAreIrrelevant(g: Hello, h: Hello, digest: string -> string)
    requires Valid(g) && Valid(h) && g.version == h.version && h.version / 256 == 3
    requires multiset(Real(g.ciphers)) == multiset(Real(h.ciphers))
    requires SameExtensions(Summary(g).extensions, Summary(h).extensions)
    requires DistinctTypes(Summary(g).extensions) && DistinctTypes(Summary(h).extensions)
    ensures Fingerprint(Encode(g), digest).Some? && Fingerprint(Encode(g), digest) == Fingerprint(Encode(h), digest)
  {
    hide Encode, Parse, Valid, FingerprintOf, Real, SameExtensions, DistinctTypes, Numbers;
    StripMisfiresIff(g); StripMisfiresIff(h);
    ParseOfEncode(g); ParseOfEncode(h);
    NumbersOf(Encode(g)); NumbersOf(Encode(h));
    SameFingerprintOf(Summary(g), Summary(h), digest);
  }
}
