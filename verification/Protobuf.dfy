/** The parts of the Protocol Buffers encoding whose sizes the client budgets for. */
module Protobuf {
  import opened Bytes

  /** Base 128 varint: seven bits a byte, least significant group first, high bit on all but the last. */
  function Varint(n: nat): (bytes: seq<byte>)
    ensures |bytes| >= 1
  {
    if n < 0x80 then [n] else [n % 0x80 + 0x80] + Varint(n / 0x80)
  }

  function ReadVarint(bytes: seq<byte>): Option<(nat, seq<byte>)>
  {
    if bytes == [] then None
    else if bytes[0] < 0x80 then Some((bytes[0], bytes[1..]))
    else match ReadVarint(bytes[1..])
      case None => None
      case Some((high, rest)) => Some((bytes[0] - 0x80 + 0x80 * high, rest))
  }

  lemma {:induction false} VarintReadsBack(n: nat, rest: seq<byte>)
    ensures ReadVarint(Varint(n) + rest) == Some((n, rest))
  {
    hide Varint, ReadVarint;
    VarintGroups(n);
    if n < 0x80 {
      ReadVarintLast(n, rest);
    } else {
      var low, high := n % 0x80, n / 0x80;
      VarintReadsBack(high, rest);
      ReadVarintMore(low, high, Varint(high) + rest, rest);
      InOneLine([low + 0x80], Varint(high), rest);
    }
  }

  lemma VarintGroups(n: nat)
    ensures Varint(n) == if n < 0x80 then [n] else [n % 0x80 + 0x80] + Varint(n / 0x80)
    ensures n == n % 0x80 + 0x80 * (n / 0x80)
  {
  }

  lemma InOneLine(a: seq<byte>, b: seq<byte>, c: seq<byte>)
    ensures a + b + c == a + (b + c)
  {
  }

  lemma ReadVarintLast(n: nat, rest: seq<byte>)
    requires n < 0x80
    ensures ReadVarint([n] + rest) == Some((n, rest))
  {
    assert ([n] + rest)[1..] == rest;
  }

  lemma ReadVarintMore(low: nat, high: nat, bytes: seq<byte>, rest: seq<byte>)
    requires low < 0x80 && ReadVarint(bytes) == Some((high, rest))
    ensures ReadVarint([low + 0x80] + bytes) == Some((low + 0x80 * high, rest))
  {
    hide ReadVarint;
    var all: seq<byte> := [low + 0x80] + bytes;
    assert all[1..] == bytes;
    ReadVarintStep(all, high, rest);
  }

  lemma ReadVarintStep(bytes: seq<byte>, high: nat, rest: seq<byte>)
    requires bytes != [] && bytes[0] >= 0x80 && ReadVarint(bytes[1..]) == Some((high, rest))
    ensures ReadVarint(bytes) == Some((bytes[0] - 0x80 + 0x80 * high, rest))
  {
  }

  /** A length-delimited record: tag and wire type 2, length, contents. */
  function LenField(tag: nat, contents: seq<byte>): seq<byte>
  {
    Varint(tag * 8 + 2) + Varint(|contents|) + contents
  }

  /** The length-delimited record at the front: tag, contents and what follows. */
  function ReadLenField(bytes: seq<byte>): Option<(nat, seq<byte>, seq<byte>)>
  {
    match ReadVarint(bytes)
    case None => None
    case Some((key, rest)) =>
      if key % 8 != 2 then None else
      match ReadVarint(rest)
      case None => None
      case Some((length, body)) =>
        if length <= |body| then Some((key / 8, body[..length], body[length..])) else None
  }

  lemma LenFieldReadsBack(tag: nat, contents: seq<byte>, rest: seq<byte>)
    ensures ReadLenField(LenField(tag, contents) + rest) == Some((tag, contents, rest))
  {
    hide Varint, ReadVarint;
    var key, length := Varint(tag * 8 + 2), Varint(|contents|);
    assert key + length + contents + rest == key + (length + (contents + rest));
    VarintReadsBack(tag * 8 + 2, length + (contents + rest));
    VarintReadsBack(|contents|, contents + rest);
    assert (contents + rest)[..|contents|] == contents && (contents + rest)[|contents|..] == rest;
  }

  /** A larger number never takes fewer bytes. */
  lemma {:induction false} VarintGrows(a: nat, b: nat)
    requires a <= b
    ensures |Varint(a)| <= |Varint(b)|
  {
    if b >= 0x80 && a >= 0x80 {
      VarintGrows(a / 0x80, b / 0x80);
    }
  }

  lemma LenFieldSize(tag: nat, contents: seq<byte>)
    requires tag < 16
    ensures |LenField(tag, contents)| == 1 + |Varint(|contents|)| + |contents|
  {
  }

  /** `varint_len`: the shift loop counts exactly the bytes of the encoding. */
  method VarintLen(value: nat) returns (len: nat)
    ensures len == |Varint(value)|
  {
    var rest := value;
    len := 1;
    while rest >= 0x80
      invariant len + |Varint(rest)| == |Varint(value)| + 1
    {
      rest := rest / 0x80;
      len := len + 1;
    }
  }
}
