/** Port-forward requests on the mux socket (`local_mux.rs`, `Decoder` of `local_ipc.rs`). */
module MuxCodec {
  import opened Bytes
  import opened Framing

  /** The port value that stands for "no port": a Unix-domain path. */
  const NO_PORT := U32 - 2
  const MAX_PORT := 65535

  predicate Continues(s: seq<byte>, i: nat, low: byte, high: byte)
  {
    i < |s| && low <= s[i] <= high
  }

  /** Length of the well-formed UTF-8 sequence at the front, 0 when there is none. */
  function FirstScalar(s: seq<byte>): (n: nat)
    requires s != []
    ensures n <= |s| && n <= 4
  {
    var a := s[0];
    if a < 0x80 then 1
    else if 0xC2 <= a <= 0xDF then if Continues(s, 1, 0x80, 0xBF) then 2 else 0
    else if 0xE0 <= a <= 0xEF then
      if Continues(s, 1, if a == 0xE0 then 0xA0 else 0x80, if a == 0xED then 0x9F else 0xBF)
         && Continues(s, 2, 0x80, 0xBF)
      then 3 else 0
    else if 0xF0 <= a <= 0xF4 then
      if Continues(s, 1, if a == 0xF0 then 0x90 else 0x80, if a == 0xF4 then 0x8F else 0xBF)
         && Continues(s, 2, 0x80, 0xBF) && Continues(s, 3, 0x80, 0xBF)
      then 4 else 0
    else 0
  }

  predicate ValidUtf8(s: seq<byte>)
  {
    s == [] || (FirstScalar(s) > 0 && ValidUtf8(s[FirstScalar(s)..]))
  }

  /** A Unicode scalar value: a code point that is no surrogate. */
  type scalar = c: int | 0 <= c < 0xD800 || 0xE000 <= c < 0x11_0000

  /** Its UTF-8 encoding, section 3 of RFC 3629. */
  function Utf8(c: scalar): seq<byte>
  {
    if c < 0x80 then [c]
    else if c < 0x800 then [0xC0 + c / 0x40, 0x80 + c % 0x40]
    else if c < 0x1_0000 then [0xE0 + c / 0x1000, 0x80 + c / 0x40 % 0x40, 0x80 + c % 0x40]
    else [0xF0 + c / 0x4_0000, 0x80 + c / 0x1000 % 0x40, 0x80 + c / 0x40 % 0x40, 0x80 + c % 0x40]
  }

  /** Six bits more. */
  lemma Appended(high: int, low: int)
    requires 0 <= low < 0x40
    ensures (high * 0x40 + low) / 0x40 == high && (high * 0x40 + low) % 0x40 == low
  {
  }

  /** Dividing step by step. */
  lemma Steps(c: nat)
    ensures c / 0x40 / 0x40 == c / 0x1000 && c / 0x1000 / 0x40 == c / 0x4_0000
  {
  }

  ghost predicate IsEncoded(s: seq<byte>, c: scalar)
  {
    Utf8(c) == s
  }

  /** An encoded scalar at the front is found whole. */
  lemma EncodedIsFound(c: scalar, rest: seq<byte>)
    ensures FirstScalar(Utf8(c) + rest) == |Utf8(c)|
  {
    hide FirstScalar;
    if c < 0x80 {
      FoundOne(c, rest);
    } else if c < 0x800 {
      FoundTwo(c / 0x40, c % 0x40, rest);
    } else if c < 0x1_0000 {
      LeadingBits(c);
      FoundThree(c / 0x1000, c / 0x40 % 0x40, c % 0x40, rest);
    } else {
      LeadingBits(c);
      FoundFour(c / 0x4_0000, c / 0x1000 % 0x40, c / 0x40 % 0x40, c % 0x40, rest);
    }
  }

  lemma LeadingBits(c: scalar)
    ensures 0x800 <= c < 0x1_0000 ==>
      && 0 <= c / 0x1000 < 0x10
      && (c / 0x1000 == 0 ==> c / 0x40 % 0x40 >= 0x20) && (c / 0x1000 == 0xD ==> c / 0x40 % 0x40 < 0x20)
    ensures 0x1_0000 <= c ==>
      && 0 <= c / 0x4_0000 <= 4
      && (c / 0x4_0000 == 0 ==> c / 0x1000 % 0x40 >= 0x10) && (c / 0x4_0000 == 4 ==> c / 0x1000 % 0x40 < 0x10)
  {
  }

  lemma FoundOne(a: int, rest: seq<byte>)
    requires 0 <= a < 0x80
    ensures FirstScalar([a] + rest) == 1
  {
  }

  lemma FoundTwo(a: int, b: int, rest: seq<byte>)
    requires 2 <= a < 0x20 && 0 <= b < 0x40
    ensures FirstScalar([0xC0 + a, 0x80 + b] + rest) == 2
  {
  }

  lemma FoundThree(a: int, b: int, d: int, rest: seq<byte>)
    requires 0 <= a < 0x10 && 0 <= b < 0x40 && 0 <= d < 0x40 && (a == 0 ==> b >= 0x20) && (a == 0xD ==> b < 0x20)
    ensures FirstScalar([0xE0 + a, 0x80 + b, 0x80 + d] + rest) == 3
  {
  }

  lemma FoundFour(a: int, b: int, d: int, e: int, rest: seq<byte>)
    requires 0 <= a <= 4 && 0 <= b < 0x40 && 0 <= d < 0x40 && 0 <= e < 0x40 && (a == 0 ==> b >= 0x10) && (a == 4 ==> b < 0x10)
    ensures FirstScalar([0xF0 + a, 0x80 + b, 0x80 + d, 0x80 + e] + rest) == 4
  {
  }

  /** What is found at the front is an encoded scalar. */
  lemma FoundIsEncoded(s: seq<byte>) returns (c: scalar)
    requires s != [] && FirstScalar(s) > 0
    ensures IsEncoded(s[..FirstScalar(s)], c)
  {
    var n := FirstScalar(s);
    var a: int := s[0];
    if n == 1 {
      c := a;
      assert s[..1] == [c];
    } else {
      var b: int := s[1];
      if n == 2 {
        c := TwoBytes(a - 0xC0, b - 0x80);
        assert s[..2] == [s[0], s[1]];
      } else {
        var d: int := s[2];
        if n == 3 {
          c := ThreeBytes(a - 0xE0, b - 0x80, d - 0x80);
          assert s[..3] == [s[0], s[1], s[2]];
        } else {
          var e: int := s[3];
          c := FourBytes(a - 0xF0, b - 0x80, d - 0x80, e - 0x80);
          assert s[..4] == [s[0], s[1], s[2], s[3]];
        }
      }
    }
  }

  lemma TwoBytes(a: int, b: int) returns (c: scalar)
    requires 2 <= a < 0x20 && 0 <= b < 0x40
    ensures Utf8(c) == [0xC0 + a, 0x80 + b]
  {
    Appended(a, b);
    c := a * 0x40 + b;
  }

  lemma ThreeBytes(a: int, b: int, d: int) returns (c: scalar)
    requires 0 <= a < 0x10 && 0 <= b < 0x40 && 0 <= d < 0x40 && (a == 0 ==> b >= 0x20) && (a == 0xD ==> b < 0x20)
    ensures Utf8(c) == [0xE0 + a, 0x80 + b, 0x80 + d]
  {
    Appended(a, b);
    Appended(a * 0x40 + b, d);
    c := (a * 0x40 + b) * 0x40 + d;
    Steps(c);
  }

  lemma FourBytes(a: int, b: int, d: int, e: int) returns (c: scalar)
    requires 0 <= a <= 4 && 0 <= b < 0x40 && 0 <= d < 0x40 && 0 <= e < 0x40 && (a == 0 ==> b >= 0x10) && (a == 4 ==> b < 0x10)
    ensures Utf8(c) == [0xF0 + a, 0x80 + b, 0x80 + d, 0x80 + e]
  {
    Appended(a, b);
    Appended(a * 0x40 + b, d);
    Appended((a * 0x40 + b) * 0x40 + d, e);
    c := ((a * 0x40 + b) * 0x40 + d) * 0x40 + e;
    Steps(c);
  }

  ghost function Encoding(scalars: seq<scalar>): seq<byte>
  {
    if scalars == [] then [] else Utf8(scalars[0]) + Encoding(scalars[1..])
  }

  ghost predicate Encodes(scalars: seq<scalar>, s: seq<byte>)
  {
    Encoding(scalars) == s
  }

  /** A name is accepted exactly if it is the encoding of some scalar values. */
  lemma {:induction false} ValidUtf8Exactly(s: seq<byte>)
    ensures ValidUtf8(s) <==> exists scalars :: Encodes(scalars, s)
  {
    if ValidUtf8(s) {
      var scalars := Decoded(s);
    }
    if scalars :| Encodes(scalars, s) {
      EncodingIsValid(scalars);
    }
  }

  lemma {:induction false} Decoded(s: seq<byte>) returns (scalars: seq<scalar>)
    requires ValidUtf8(s)
    ensures Encodes(scalars, s)
    decreases |s|
  {
    scalars := [];
    if s != [] {
      var n := FirstScalar(s);
      var c := FoundIsEncoded(s);
      var rest := Decoded(s[n..]);
      scalars := [c] + rest;
      assert scalars[1..] == rest && s == s[..n] + s[n..];
    }
  }

  lemma {:induction false} EncodingIsValid(scalars: seq<scalar>)
    ensures ValidUtf8(Encoding(scalars))
  {
    if scalars != [] {
      var first, rest := Utf8(scalars[0]), Encoding(scalars[1..]);
      EncodedIsFound(scalars[0], rest);
      EncodingIsValid(scalars[1..]);
      assert (first + rest)[|first|..] == rest;
    }
  }

  type text = s: seq<byte> | ValidUtf8(s)

  type int32 = n: int | -0x8000_0000 <= n < 0x8000_0000

  datatype Endpoint = Endpoint(name: Option<text>, port: Option<int32>)

  datatype Request = Request(source: Option<Endpoint>, destination: Option<Endpoint>, environment: Option<text>)

  // ---------------------------------------------------------------------
  // What the wire means.

  datatype Parsed<T> = Parsed(value: T, rest: seq<byte>)

  function ParseWord(bytes: seq<byte>): Option<Parsed<nat>>
  {
    if |bytes| < 4 then None else Some(Parsed(FromBe32(bytes[..4]), bytes[4..]))
  }

  function ParseString(bytes: seq<byte>): Option<Parsed<seq<byte>>>
  {
    match ParseWord(bytes)
    case None => None
    case Some(p) => if |p.rest| < p.value then None else Some(Parsed(p.rest[..p.value], p.rest[p.value..]))
  }

  function ParsePort(word: nat): Option<Option<int32>>
  {
    if word == NO_PORT then Some(None)
    else if word <= MAX_PORT then Some(Some(word))
    else None
  }

  function ParseEndpoint(bytes: seq<byte>, destination: bool): Option<Parsed<Endpoint>>
  {
    match ParseString(bytes)
    case None => None
    case Some(name) =>
      if !ValidUtf8(name.value) then None else
      match ParseWord(name.rest)
      case None => None
      case Some(word) =>
        match ParsePort(word.value)
        case None => None
        case Some(port) =>
          var known: Option<text> := if destination && name.value == [] then None else Some(name.value);
          Some(Parsed(Endpoint(known, port), word.rest))
  }

  /** The request a body denotes, after its kind and request id. */
  function ParseForward(bytes: seq<byte>): Option<Request>
  {
    match ParseWord(bytes)
    case None => None
    case Some(direction) =>
      if direction.value != 1 then None else
      match ParseEndpoint(direction.rest, false)
      case None => None
      case Some(source) =>
        match ParseEndpoint(source.rest, true)
        case None => None
        case Some(destination) =>
          if destination.rest != [] then None
          else Some(Request(Some(source.value), Some(destination.value), None))
  }

  // ---------------------------------------------------------------------
  // The decoder and the two directions of the codec.

  class Decoder {
    var rest: seq<byte>

    constructor (bytes: seq<byte>)
      ensures rest == bytes
    {
      rest := bytes;
    }

    method ReadWord() returns (value: Option<nat>)
      modifies this
      ensures match ParseWord(old(rest))
        case Some(p) => value == Some(p.value) && rest == p.rest
        case None => value.None? && rest == old(rest)
    {
      if |rest| < 4 {
        return None;
      }
      value := Some(FromBe32(rest[..4]));
      rest := rest[4..];
    }

    method ReadString() returns (value: Option<seq<byte>>)
      modifies this
      ensures match ParseString(old(rest))
        case Some(p) => value == Some(p.value) && rest == p.rest
        case None => value.None?
    {
      var length := ReadWord();
      if length.None? || |rest| < length.value {
        return None;
      }
      value := Some(rest[..length.value]);
      rest := rest[length.value..];
    }

    method ReadEndpoint(destination: bool) returns (value: Option<Endpoint>)
      modifies this
      ensures match ParseEndpoint(old(rest), destination)
        case Some(p) => value == Some(p.value) && rest == p.rest
        case None => value.None?
    {
      hide FromBe32, ValidUtf8;
      var name := ReadString();
      if name.None? || !ValidUtf8(name.value) {
        return None;
      }
      var word := ReadWord();
      if word.None? {
        return None;
      }
      var port: Option<int32> := None;
      if word.value != NO_PORT {
        if word.value > MAX_PORT {
          return None;
        }
        port := Some(word.value);
      }
      var known: Option<text> := if destination && name.value == [] then None else Some(name.value);
      value := Some(Endpoint(known, port));
    }
  }

  /** `forward`. */
  method Forward(decoder: Decoder) returns (request: Option<Request>)
    modifies decoder
    ensures request == ParseForward(old(decoder.rest))
  {
    hide ParseEndpoint, FromBe32;
    var direction := decoder.ReadWord();
    if direction.None? || direction.value != 1 {
      return None;
    }
    var source := decoder.ReadEndpoint(false);
    if source.None? {
      return None;
    }
    var destination := decoder.ReadEndpoint(true);
    if destination.None? || decoder.rest != [] {
      return None;
    }
    request := Some(Request(Some(source.value), Some(destination.value), None));
  }

  /** A port as the wire carries it: `as u32` of an `i32`. */
  function PortWord(port: Option<int32>): (word: nat)
    ensures word < U32
  {
    match port
    case None => NO_PORT
    case Some(p) => if p < 0 then p + U32 else p
  }

  function NameBytes(e: Endpoint): seq<byte>
  {
    if e.name.None? then [] else e.name.value
  }

  function EndpointBytes(e: Endpoint): seq<byte>
  {
    Be32(|NameBytes(e)| % U32) + NameBytes(e) + Be32(PortWord(e.port))
  }

  /** The body a complete request is sent as. */
  ghost function Body(kind: nat, id: nat, request: Request): seq<byte>
    requires kind < U32 && id < U32 && request.source.Some? && request.destination.Some?
  {
    Be32(kind) + Be32(id) + Be32(1)
      + (EndpointBytes(request.source.value) + EndpointBytes(request.destination.value))
  }

  /** `forward_body`. */
  method ForwardBody(kind: nat, id: nat, request: Request) returns (body: Option<seq<byte>>)
    requires kind < U32 && id < U32
    ensures body.None? <==> request.source.None? || request.destination.None?
    ensures body.Some? ==> body.value == Body(kind, id, request)
  {
    hide Be32, EndpointBytes;
    var bytes := Be32(kind) + Be32(id) + Be32(1);
    var endpoints := [request.source, request.destination];
    ghost var start, ends: seq<byte> := bytes, [];
    for i := 0 to 2
      invariant i > 0 ==> request.source.Some?
      invariant i > 1 ==> request.destination.Some?
      invariant bytes == start + ends
      invariant i == 0 ==> ends == []
      invariant i == 1 ==> ends == EndpointBytes(request.source.value)
      invariant i == 2 ==> ends == EndpointBytes(request.source.value) + EndpointBytes(request.destination.value)
    {
      if endpoints[i].None? {
        return None;
      }
      var e := endpoints[i].value;
      EndpointAppended(start, ends, e);
      ends := ends + EndpointBytes(e);
      bytes := bytes + Be32(|NameBytes(e)| % U32) + NameBytes(e) + Be32(PortWord(e.port));
    }
    body := Some(bytes);
  }

  lemma EndpointAppended(start: seq<byte>, ends: seq<byte>, e: Endpoint)
    ensures start + ends + Be32(|NameBytes(e)| % U32) + NameBytes(e) + Be32(PortWord(e.port))
         == start + (ends + EndpointBytes(e))
    ensures [] + EndpointBytes(e) == EndpointBytes(e)
  {
    hide Be32;
  }

  // ---------------------------------------------------------------------
  // The round trip.

  /** An endpoint `forward` can produce. */
  predicate NormalEndpoint(e: Endpoint, destination: bool)
  {
    && (if destination then e.name != Some([]) else e.name.Some?)
    && |NameBytes(e)| < U32
    && (e.port.Some? ==> 0 <= e.port.value <= MAX_PORT)
  }

  predicate Normal(request: Request)
  {
    && request.source.Some? && NormalEndpoint(request.source.value, false)
    && request.destination.Some? && NormalEndpoint(request.destination.value, true)
    && request.environment.None?
  }

  lemma WordReads(n: nat, rest: seq<byte>)
    requires n < U32
    ensures ParseWord(Be32(n) + rest) == Some(Parsed(n, rest))
  {
    var bytes := Be32(n) + rest;
    assert bytes[..4] == Be32(n) && bytes[4..] == rest;
  }

  lemma StringReads(name: seq<byte>, rest: seq<byte>)
    requires |name| < U32
    ensures ParseString(Be32(|name| % U32) + name + rest) == Some(Parsed(name, rest))
  {
    hide Be32, FromBe32;
    assert Be32(|name|) + name + rest == Be32(|name|) + (name + rest);
    WordReads(|name|, name + rest);
    assert (name + rest)[..|name|] == name && (name + rest)[|name|..] == rest;
  }

  lemma EndpointReads(e: Endpoint, destination: bool, rest: seq<byte>)
    requires NormalEndpoint(e, destination)
    ensures ParseEndpoint(EndpointBytes(e) + rest, destination) == Some(Parsed(e, rest))
  {
    hide Be32, FromBe32;
    var name, port := NameBytes(e), Be32(PortWord(e.port));
    assert EndpointBytes(e) + rest == Be32(|name| % U32) + name + (port + rest);
    StringReads(name, port + rest);
    WordReads(PortWord(e.port), rest);
  }

  /** Everything parsed is normal, so a request that is not normal cannot come back. */
  lemma ParsedEndpointIsNormal(bytes: seq<byte>, destination: bool)
    ensures ParseEndpoint(bytes, destination).Some? ==>
      NormalEndpoint(ParseEndpoint(bytes, destination).value.value, destination)
  {
    hide ValidUtf8;
  }

  /** The codec gives a request back exactly when it is normal. */
  lemma ForwardRoundTrip(kind: nat, id: nat, request: Request)
    requires kind < U32 && id < U32 && request.source.Some? && request.destination.Some?
    ensures ParseForward(Body(kind, id, request)[8..]) == Some(request) <==> Normal(request)
  {
    hide Be32, FromBe32, ParseEndpoint, EndpointBytes, NormalEndpoint;
    var source, destination := request.source.value, request.destination.value;
    var ends := EndpointBytes(source) + EndpointBytes(destination);
    var tail := Body(kind, id, request)[8..];
    assert tail == Be32(1) + ends;
    WordReads(1, ends);
    if Normal(request) {
      EndpointReads(source, false, EndpointBytes(destination));
      assert EndpointBytes(destination) + [] == EndpointBytes(destination);
      EndpointReads(destination, true, []);
    }
    if ParseForward(tail) == Some(request) {
      ParsedEndpointIsNormal(ends, false);
      ParsedEndpointIsNormal(ParseEndpoint(ends, false).value.rest, true);
    }
  }

  /** Port -2 is sent as the word for "no port" and comes back as none. */
  lemma MinusTwoIsNoPort(name: text)
    requires 0 < |name| < U32
    ensures var e := Endpoint(Some(name), Some(-2));
      ParseEndpoint(EndpointBytes(e), false) == Some(Parsed(Endpoint(Some(name), None), []))
  {
    var e := Endpoint(Some(name), None);
    assert EndpointBytes(e) + [] == EndpointBytes(e) == EndpointBytes(Endpoint(Some(name), Some(-2)));
    EndpointReads(e, false, []);
  }
}
