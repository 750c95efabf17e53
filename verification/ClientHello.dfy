/** The TLS ClientHello on the wire (section 4.1.2 of RFC 8446) and the parser of `src/ja4.rs`. */
module ClientHello {
  import opened Bytes

  datatype Extension = Extension(ty: nat, body: seq<byte>)

  /** A ClientHello body; without an extension block it ends after the compression methods. */
  datatype Hello = Hello(
    version: nat, random: seq<byte>, session: seq<byte>, ciphers: seq<nat>, compression: seq<byte>,
    extensions: Option<seq<Extension>>)

  predicate U16(v: nat) { v < 0x10000 }

  function Be16(v: nat): (b: seq<byte>)
    requires U16(v)
    ensures |b| == 2
  {
    [v / 256, v % 256]
  }

  function FromBe16(b: seq<byte>): (v: nat)
    requires |b| == 2
    ensures U16(v)
  {
    var hi: nat := b[0];
    256 * hi + b[1]
  }

  // ---------------------------------------------------------------- lists on the wire

  function EncodeList(vs: seq<nat>): (b: seq<byte>)
    requires forall i :: 0 <= i < |vs| ==> U16(vs[i])
    ensures |b| == 2 * |vs|
  {
    if vs == [] then [] else Be16(vs[0]) + EncodeList(vs[1..])
  }

  /** The 16-bit numbers in a byte string; an odd byte at the end is ignored. */
  function ReadList(b: seq<byte>): (vs: seq<nat>)
    ensures |vs| == |b| / 2 && forall i :: 0 <= i < |vs| ==> U16(vs[i])
  {
    if |b| < 2 then [] else [FromBe16(b[..2])] + ReadList(b[2..])
  }

  lemma {:induction false} ReadOfEncodeList(vs: seq<nat>)
    requires forall i :: 0 <= i < |vs| ==> U16(vs[i])
    ensures ReadList(EncodeList(vs)) == vs
  {
    if vs != [] {
      ReadOfEncodeList(vs[1..]);
      assert EncodeList(vs)[..2] == Be16(vs[0]) && EncodeList(vs)[2..] == EncodeList(vs[1..]);
    }
  }

  lemma {:induction false} EncodeOfReadList(b: seq<byte>)
    requires |b| % 2 == 0
    ensures EncodeList(ReadList(b)) == b
  {
    if b != [] {
      EncodeOfReadList(b[2..]);
      assert ReadList(b)[1..] == ReadList(b[2..]);
      assert Be16(FromBe16(b[..2])) == b[..2];
      assert b == b[..2] + b[2..];
    }
  }

  predicate ValidExtensions(xs: seq<Extension>) {
    forall i :: 0 <= i < |xs| ==> U16(xs[i].ty) && U16(|xs[i].body|)
  }

  function EncodeExtensions(xs: seq<Extension>): (b: seq<byte>)
    requires ValidExtensions(xs)
  {
    if xs == [] then [] else Be16(xs[0].ty) + Be16(|xs[0].body|) + xs[0].body + EncodeExtensions(xs[1..])
  }

  function ReadExtensions(b: seq<byte>): (r: Option<seq<Extension>>)
    ensures r.Some? ==> ValidExtensions(r.value)
    decreases |b|
  {
    if b == [] then Some([])
    else if |b| < 4 then None
    else
      var len := FromBe16(b[2..4]);
      if |b| - 4 < len then None
      else
        match ReadExtensions(b[4 + len..])
        case None => None
        case Some(rest) => Some([Extension(FromBe16(b[..2]), b[4..4 + len])] + rest)
  }

  lemma FirstExtension(ty: nat, body: seq<byte>, rest: seq<byte>)
    requires U16(ty) && U16(|body|)
    ensures var b := Be16(ty) + Be16(|body|) + body + rest;
            && |b| >= 4 && FromBe16(b[..2]) == ty && FromBe16(b[2..4]) == |body|
            && b[4..4 + |body|] == body && b[4 + |body|..] == rest
  {
    var b := Be16(ty) + Be16(|body|) + body + rest;
    assert b[..2] == Be16(ty) && b[2..4] == Be16(|body|);
  }

  lemma {:induction false} ReadOfEncodeExtensions(xs: seq<Extension>)
    requires ValidExtensions(xs)
    ensures ReadExtensions(EncodeExtensions(xs)) == Some(xs)
  {
    if xs != [] {
      ReadOfEncodeExtensions(xs[1..]);
      var b, len, rest := EncodeExtensions(xs), |xs[0].body|, EncodeExtensions(xs[1..]);
      assert b == Be16(xs[0].ty) + Be16(len) + xs[0].body + rest;
      hide EncodeExtensions;
      FirstExtension(xs[0].ty, xs[0].body, rest);
      assert xs == [xs[0]] + xs[1..];
    }
  }

  lemma FrontOf(b: seq<byte>, len: nat)
    requires |b| >= 4 + len && FromBe16(b[2..4]) == len
    ensures b == Be16(FromBe16(b[..2])) + Be16(len) + b[4..4 + len] + b[4 + len..]
  {
    assert Be16(FromBe16(b[..2])) == b[..2] && Be16(len) == b[2..4];
    assert b == b[..2] + b[2..4] + b[4..4 + len] + b[4 + len..];
  }

  lemma {:induction false} EncodeOfReadExtensions(b: seq<byte>)
    requires ReadExtensions(b).Some?
    ensures EncodeExtensions(ReadExtensions(b).value) == b
    decreases |b|
  {
    if b != [] {
      var len := FromBe16(b[2..4]);
      var x, rest := Extension(FromBe16(b[..2]), b[4..4 + len]), ReadExtensions(b[4 + len..]).value;
      assert ReadExtensions(b) == Some([x] + rest);
      EncodeOfReadExtensions(b[4 + len..]);
      FrontOf(b, len);
      hide ReadExtensions;
      var xs := [x] + rest;
      assert xs[0] == x && xs[1..] == rest;
    }
  }

  // ---------------------------------------------------------------- the whole message

  predicate Valid(h: Hello) {
    && U16(h.version) && |h.random| == 32 && |h.session| < 256 && |h.compression| < 256
    && U16(2 * |h.ciphers|) && (forall i :: 0 <= i < |h.ciphers| ==> U16(h.ciphers[i]))
    && (h.extensions.Some? ==> ValidExtensions(h.extensions.value) && U16(|EncodeExtensions(h.extensions.value)|))
  }

  function EncodeTail(xs: Option<seq<Extension>>): (b: seq<byte>)
    requires xs.Some? ==> ValidExtensions(xs.value) && U16(|EncodeExtensions(xs.value)|)
  {
    if xs.None? then [] else Be16(|EncodeExtensions(xs.value)|) + EncodeExtensions(xs.value)
  }

  function EncodeFromCompression(h: Hello): (b: seq<byte>)
    requires Valid(h)
  {
    [|h.compression|] + h.compression + EncodeTail(h.extensions)
  }

  function EncodeFromCiphers(h: Hello): (b: seq<byte>)
    requires Valid(h)
  {
    Be16(2 * |h.ciphers|) + EncodeList(h.ciphers) + EncodeFromCompression(h)
  }

  function Encode(h: Hello): (b: seq<byte>)
    requires Valid(h)
  {
    Be16(h.version) + h.random + [|h.session|] + h.session + EncodeFromCiphers(h)
  }

  function ParseTail(b: seq<byte>): (r: Option<Option<seq<Extension>>>) {
    if b == [] then Some(None)
    else if |b| < 2 || |b| - 2 != FromBe16(b[..2]) then None
    else
      match ReadExtensions(b[2..])
      case None => None
      case Some(xs) => Some(Some(xs))
  }

  function ParseFromCompression(h: Hello, b: seq<byte>): (r: Option<Hello>) {
    if b == [] || |b| - 1 < b[0] then None
    else
      match ParseTail(b[1 + b[0]..])
      case None => None
      case Some(xs) => Some(h.(compression := b[1..1 + b[0]], extensions := xs))
  }

  function ParseFromCiphers(h: Hello, b: seq<byte>): (r: Option<Hello>) {
    if |b| < 2 then None
    else
      var size := FromBe16(b[..2]);
      if size % 2 != 0 || |b| - 2 < size then None
      else ParseFromCompression(h.(ciphers := ReadList(b[2..2 + size])), b[2 + size..])
  }

  /** What the bytes say: every field in turn, or nothing when one does not fit. */
  function Parse(b: seq<byte>): (r: Option<Hello>) {
    if |b| < 35 || |b| - 35 < b[34] then None
    else ParseFromCiphers(Hello(FromBe16(b[..2]), b[2..34], b[35..35 + b[34]], [], [], None), b[35 + b[34]..])
  }

  lemma TailRoundTrip(xs: Option<seq<Extension>>)
    requires xs.Some? ==> ValidExtensions(xs.value) && U16(|EncodeExtensions(xs.value)|)
    ensures ParseTail(EncodeTail(xs)) == Some(xs)
  {
    if xs.Some? {
      var body := EncodeExtensions(xs.value);
      ReadOfEncodeExtensions(xs.value);
      assert EncodeTail(xs)[..2] == Be16(|body|) && EncodeTail(xs)[2..] == body;
      hide ReadExtensions, EncodeExtensions;
    }
  }

  lemma FromCompressionRoundTrip(h: Hello, g: Hello)
    requires Valid(h) && g == h.(compression := [], extensions := None)
    ensures ParseFromCompression(g, EncodeFromCompression(h)) == Some(h)
  {
    hide EncodeExtensions, ReadExtensions, EncodeTail, ParseTail;
    TailRoundTrip(h.extensions);
    var b, tail := EncodeFromCompression(h), EncodeTail(h.extensions);
    assert b[1..1 + |h.compression|] == h.compression && b[1 + |h.compression|..] == tail;
  }

  lemma FromCiphersRoundTrip(h: Hello, g: Hello)
    requires Valid(h) && g == h.(ciphers := [], compression := [], extensions := None)
    ensures ParseFromCiphers(g, EncodeFromCiphers(h)) == Some(h)
  {
    hide EncodeExtensions, EncodeList, ReadList, EncodeFromCompression, ParseFromCompression;
    FromCompressionRoundTrip(h, h.(compression := [], extensions := None));
    ReadOfEncodeList(h.ciphers);
    var b, size, rest := EncodeFromCiphers(h), 2 * |h.ciphers|, EncodeFromCompression(h);
    assert b[..2] == Be16(size) && b[2..2 + size] == EncodeList(h.ciphers) && b[2 + size..] == rest;
  }

  /** The parser inverts the wire form. */
  lemma ParseOfEncode(h: Hello)
    requires Valid(h)
    ensures Parse(Encode(h)) == Some(h)
  {
    hide EncodeExtensions, EncodeFromCiphers, ParseFromCiphers;
    FromCiphersRoundTrip(h, h.(ciphers := [], compression := [], extensions := None));
    var b, n, rest := Encode(h), |h.session|, EncodeFromCiphers(h);
    assert b[..2] == Be16(h.version) && b[2..34] == h.random && b[34] == n;
    assert b[35..35 + n] == h.session && b[35 + n..] == rest;
  }

  lemma TailOfParse(b: seq<byte>)
    requires ParseTail(b).Some?
    ensures var xs := ParseTail(b).value;
            && (xs.Some? ==> ValidExtensions(xs.value) && U16(|EncodeExtensions(xs.value)|))
            && EncodeTail(xs) == b
  {
    if b != [] {
      EncodeOfReadExtensions(b[2..]);
      hide ReadExtensions, EncodeExtensions;
      assert Be16(FromBe16(b[..2])) == b[..2];
      assert b == b[..2] + b[2..];
    }
  }

  lemma FromCompressionOfParse(g: Hello, b: seq<byte>)
    requires ParseFromCompression(g, b).Some? && Valid(g)
    ensures var h := ParseFromCompression(g, b).value;
            && Valid(h) && EncodeFromCompression(h) == b
            && h == g.(compression := h.compression, extensions := h.extensions)
  {
    hide EncodeExtensions, ReadExtensions, EncodeTail, ParseTail;
    TailOfParse(b[1 + b[0]..]);
    assert b == [b[0]] + b[1..1 + b[0]] + b[1 + b[0]..];
  }

  lemma FromCiphersOfParse(g: Hello, b: seq<byte>)
    requires ParseFromCiphers(g, b).Some? && Valid(g)
    ensures var h := ParseFromCiphers(g, b).value;
            && Valid(h) && EncodeFromCiphers(h) == b
            && h == g.(ciphers := h.ciphers, compression := h.compression, extensions := h.extensions)
  {
    hide EncodeExtensions, EncodeList, ReadList, EncodeFromCompression, ParseFromCompression;
    var size := FromBe16(b[..2]);
    var ciphers := ReadList(b[2..2 + size]);
    EncodeOfReadList(b[2..2 + size]);
    FromCompressionOfParse(g.(ciphers := ciphers), b[2 + size..]);
    assert Be16(size) == b[..2];
    assert b == b[..2] + b[2..2 + size] + b[2 + size..];
  }

  /** The bytes a parsed message came from. */
  lemma EncodeOfParse(b: seq<byte>)
    requires Parse(b).Some?
    ensures Valid(Parse(b).value) && Encode(Parse(b).value) == b
  {
    hide EncodeExtensions, EncodeFromCiphers, ParseFromCiphers;
    var n := b[34];
    var g := Hello(FromBe16(b[..2]), b[2..34], b[35..35 + n], [], [], None);
    assert Valid(g);
    FromCiphersOfParse(g, b[35 + n..]);
    assert Be16(FromBe16(b[..2])) == b[..2];
    assert b == b[..2] + b[2..34] + [b[34]] + b[35..35 + n] + b[35 + n..];
  }

  /** The parser accepts exactly the wire forms, and gives back the one message each is the form of. */
  lemma ParseIff(b: seq<byte>, h: Hello)
    ensures Parse(b) == Some(h) <==> Valid(h) && Encode(h) == b
  {
    hide Parse, Encode, Valid;
    if Parse(b) == Some(h) { EncodeOfParse(b); }
    if Valid(h) { ParseOfEncode(h); }
  }

  // ---------------------------------------------------------------- the parser

  /** A cursor over bytes. */
  class Reader {
    var input: seq<byte>

    constructor (input: seq<byte>)
      ensures this.input == input
    {
      this.input := input;
    }

    method ReadU8() returns (r: Option<byte>)
      modifies this
      ensures r.Some? <==> old(input) != []
      ensures r.Some? ==> old(input) == [r.value] + input
      ensures r.None? ==> input == old(input)
    {
      if input == [] { return None; }
      r := Some(input[0]);
      input := input[1..];
    }

    method ReadBytes(len: nat) returns (r: Option<seq<byte>>)
      modifies this
      ensures r.Some? <==> len <= |old(input)|
      ensures r.Some? ==> |r.value| == len && old(input) == r.value + input
      ensures r.None? ==> input == old(input)
    {
      if |input| < len { return None; }
      r := Some(input[..len]);
      input := input[len..];
    }

    method ReadU16() returns (r: Option<nat>)
      modifies this
      ensures r.Some? <==> 2 <= |old(input)|
      ensures r.Some? ==> U16(r.value) && old(input) == Be16(r.value) + input
      ensures r.None? ==> input == old(input)
    {
      var b := ReadBytes(2);
      if b.None? { return None; }
      assert Be16(FromBe16(b.value)) == b.value;
      r := Some(FromBe16(b.value));
    }
  }

  function Prepend(out: seq<Extension>, r: Option<seq<Extension>>): (t: Option<seq<Extension>>) {
    match r
    case Some(rest) => Some(out + rest)
    case None => None
  }

  lemma ReadStep(out: seq<Extension>, input: seq<byte>)
    requires |input| >= 4 && |input| - 4 >= FromBe16(input[2..4])
    ensures var len := FromBe16(input[2..4]);
            var x := Extension(FromBe16(input[..2]), input[4..][..len]);
            Prepend(out, ReadExtensions(input)) == Prepend(out + [x], ReadExtensions(input[4..][len..]))
  {
    var len := FromBe16(input[2..4]);
    var x := Extension(FromBe16(input[..2]), input[4..][..len]);
    assert input[4..][..len] == input[4..4 + len] && input[4..][len..] == input[4 + len..];
    var rest := ReadExtensions(input[4 + len..]);
    ReadOne(input);
    hide ReadExtensions, FromBe16;
    if rest.Some? { assert out + ([x] + rest.value) == out + [x] + rest.value; }
  }

  lemma ReadOne(input: seq<byte>)
    requires |input| >= 4 && |input| - 4 >= FromBe16(input[2..4])
    ensures var len := FromBe16(input[2..4]);
            ReadExtensions(input) ==
            Prepend([Extension(FromBe16(input[..2]), input[4..4 + len])], ReadExtensions(input[4 + len..]))
  {
    hide FromBe16;
  }

  method ParseExtensions(bytes: seq<byte>) returns (r: Option<seq<Extension>>)
    ensures r == ReadExtensions(bytes)
  {
    var input := bytes;
    var out: seq<Extension> := [];
    assert Prepend([], ReadExtensions(bytes)) == ReadExtensions(bytes) by {
      if ReadExtensions(bytes).Some? { assert [] + ReadExtensions(bytes).value == ReadExtensions(bytes).value; }
    }
    while input != []
      invariant ReadExtensions(bytes) == Prepend(out, ReadExtensions(input))
      decreases |input|
    {
      if |input| < 4 { return None; }
      var ty := FromBe16(input[..2]);
      var len := FromBe16(input[2..4]);
      if |input| - 4 >= len { ReadStep(out, input); }
      input := input[4..];
      if |input| < len { return None; }
      out := out + [Extension(ty, input[..len])];
      input := input[len..];
    }
    assert out + [] == out;
    return Some(out);
  }

  datatype Parsed = Parsed(legacyVersion: nat, ciphers: seq<nat>, extensions: seq<Extension>)

  /** What the fingerprint needs of a message. */
  function Summary(h: Hello): (p: Parsed) {
    Parsed(h.version, h.ciphers, if h.extensions.Some? then h.extensions.value else [])
  }

  function Summarized(r: Option<Hello>): (p: Option<Parsed>) {
    match r
    case Some(h) => Some(Summary(h))
    case None => None
  }

  method ParseClientHello(input: seq<byte>) returns (r: Option<Parsed>)
    ensures r == Summarized(Parse(input))
  {
    hide Parse, ParseFromCiphers, ParseFromCompression, ReadList, Summarized, Be16, FromBe16;
    var reader := new Reader(input);
    ParseFails(input);
    var version := reader.ReadU16();
    if version.None? { return None; }
    var random := reader.ReadBytes(32);
    if random.None? { return None; }
    var sessionLen := reader.ReadU8();
    if sessionLen.None? { return None; }
    ghost var b := reader.input;
    ParseShort(input, version.value, random.value, sessionLen.value, b);
    var session := reader.ReadBytes(sessionLen.value);
    if session.None? { return None; }
    ghost var g := Hello(version.value, random.value, session.value, [], [], None);
    ParseHead(g, input, b, reader.input);
    FromCiphersFails(g, reader.input);
    var size := reader.ReadU16();
    if size.None? { return None; }
    b := reader.input;
    FromCiphersStep(g, size.value, b);
    if size.value % 2 != 0 { return None; }
    var cipherBytes := reader.ReadBytes(size.value);
    if cipherBytes.None? { return None; }
    assert b[..size.value] == cipherBytes.value && b[size.value..] == reader.input;
    var ciphers := ReadList(cipherBytes.value);
    g := g.(ciphers := ciphers);
    FromCompressionFails(g, reader.input);
    var compressionLen := reader.ReadU8();
    if compressionLen.None? { return None; }
    b := reader.input;
    FromCompressionStep(g, compressionLen.value, b);
    var compression := reader.ReadBytes(compressionLen.value);
    if compression.None? { return None; }
    assert b[..compressionLen.value] == compression.value && b[compressionLen.value..] == reader.input;
    var extensions := ParseTailOf(reader.input);
    if extensions.None? { return None; }
    r := Some(Parsed(version.value, ciphers, extensions.value));
  }

  lemma ParseFails(b: seq<byte>)
    ensures |b| < 35 ==> Summarized(Parse(b)).None?
  {
  }

  lemma HeadIs(b: seq<byte>, version: nat, random: seq<byte>, n: byte, rest: seq<byte>)
    requires U16(version) && |random| == 32 && b == Be16(version) + (random + ([n] + rest))
    ensures |b| >= 35 && FromBe16(b[..2]) == version && b[2..34] == random && b[34] == n && b[35..] == rest
  {
    assert b[..2] == Be16(version);
  }

  lemma ParseShort(b: seq<byte>, version: nat, random: seq<byte>, n: byte, rest: seq<byte>)
    requires U16(version) && |random| == 32 && b == Be16(version) + (random + ([n] + rest))
    ensures |rest| < n ==> Summarized(Parse(b)).None?
  {
    HeadIs(b, version, random, n, rest);
    hide ParseFromCiphers;
  }

  lemma ParseHead(g: Hello, b: seq<byte>, from: seq<byte>, rest: seq<byte>)
    requires U16(g.version) && |g.random| == 32 && |g.session| < 256
    requires g == Hello(g.version, g.random, g.session, [], [], None)
    requires b == Be16(g.version) + (g.random + ([|g.session|] + from)) && from == g.session + rest
    ensures Parse(b) == ParseFromCiphers(g, rest)
  {
    HeadIs(b, g.version, g.random, |g.session|, from);
    hide ParseFromCiphers;
    var n := |g.session|;
    assert b[35..35 + n] == from[..n] && b[35 + n..] == from[n..];
  }

  lemma FromCompressionFails(g: Hello, b: seq<byte>)
    ensures b == [] ==> Summarized(ParseFromCompression(g, b)).None?
  {
  }

  lemma FromCompressionStep(g: Hello, n: byte, rest: seq<byte>)
    ensures |rest| < n ==> Summarized(ParseFromCompression(g, [n] + rest)).None?
    ensures |rest| >= n ==>
              Summarized(ParseFromCompression(g, [n] + rest)) ==
              match ParseTail(rest[n..]) {
                case None => None
                case Some(xs) => Some(Parsed(g.version, g.ciphers, if xs.Some? then xs.value else []))
              }
  {
    hide ParseTail;
    var b := [n] + rest;
    if |rest| >= n { assert b[1 + n..] == rest[n..]; }
  }

  lemma FromCiphersFails(g: Hello, b: seq<byte>)
    ensures |b| < 2 ==> Summarized(ParseFromCiphers(g, b)).None?
  {
  }

  lemma FromCiphersStep(g: Hello, size: nat, rest: seq<byte>)
    requires U16(size)
    ensures size % 2 != 0 || |rest| < size ==> Summarized(ParseFromCiphers(g, Be16(size) + rest)).None?
    ensures size % 2 == 0 && |rest| >= size ==>
              var h := g.(ciphers := ReadList(rest[..size]));
              ParseFromCiphers(g, Be16(size) + rest) == ParseFromCompression(h, rest[size..])
  {
    var b := Be16(size) + rest;
    assert b[..2] == Be16(size);
    if |rest| >= size { assert b[2..2 + size] == rest[..size] && b[2 + size..] == rest[size..]; }
    hide ParseFromCompression, ReadList;
  }

  method ParseTailOf(tail: seq<byte>) returns (r: Option<seq<Extension>>)
    ensures r == match ParseTail(tail) { case Some(xs) => Some(if xs.Some? then xs.value else []) case None => None }
  {
    hide ReadExtensions;
    if tail == [] { return Some([]); }
    var reader := new Reader(tail);
    var len := reader.ReadU16();
    if len.None? { return None; }
    assert tail[..2] == Be16(len.value) && tail[2..] == reader.input;
    var bytes := reader.ReadBytes(len.value);
    if bytes.None? { return None; }
    if reader.input != [] { return None; }
    assert bytes.value == tail[2..];
    r := ParseExtensions(bytes.value);
  }
}
