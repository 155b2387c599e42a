/** Byte strings shared by every component of the model. */
module Bytes {

  type byte = b: int | 0 <= b < 256

  const NEWLINE: byte := 10
  const RETURN: byte := 13
  const ESC: byte := 27
  const STAR: byte := 42
  const QUESTION: byte := 63

  datatype Option<+T> = None | Some(value: T)

  /** The bytes of an ASCII text. */
  function Ascii(text: string): (bytes: seq<byte>)
    ensures |bytes| == |text|
    ensures forall i | 0 <= i < |text| :: bytes[i] == text[i] as int % 256
  {
    seq(|text|, i requires 0 <= i < |text| => text[i] as int % 256)
  }

  /** Concatenation of a sequence of byte strings. */
  function Flatten(parts: seq<seq<byte>>): seq<byte>
  {
    if parts == [] then [] else parts[0] + Flatten(parts[1..])
  }

  lemma {:induction false} FlattenAppend(a: seq<seq<byte>>, b: seq<seq<byte>>)
    ensures Flatten(a + b) == Flatten(a) + Flatten(b)
  {
    if a == [] {
      assert a + b == b;
    } else {
      assert (a + b)[1..] == a[1..] + b;
      FlattenAppend(a[1..], b);
    }
  }

  lemma FlattenOne(a: seq<byte>)
    ensures Flatten([a]) == a
  {
    assert Flatten([a]) == a + Flatten([]);
  }

  /** First index of `b` in `s`, or `|s|`. */
  function IndexOf(s: seq<byte>, b: byte): (k: nat)
    ensures k <= |s| && b !in s[..k]
    ensures forall i | 0 <= i < k :: s[i] != b
    ensures k < |s| ==> s[k] == b
  {
    if s == [] || s[0] == b then 0
    else
      var k := IndexOf(s[1..], b);
      assert s[..k + 1] == [s[0]] + s[1..][..k];
      k + 1
  }

  /** One past the last index of `b` in `s`, or 0. */
  function AfterLast(s: seq<byte>, b: byte): (k: nat)
    ensures k <= |s| && b !in s[k..]
    ensures k > 0 ==> s[k - 1] == b
    ensures k == 0 ==> b !in s
  {
    if s == [] then 0
    else if s[|s| - 1] == b then |s|
    else
      var k := AfterLast(s[..|s| - 1], b);
      assert s[k..] == s[..|s| - 1][k..] + [s[|s| - 1]];
      assert k == 0 ==> s == s[..|s| - 1] + [s[|s| - 1]];
      k
  }

  /** `inner` occurs in `outer` at position `i`. */
  predicate OccursAt(outer: seq<byte>, inner: seq<byte>, i: int)
  {
    0 <= i <= |outer| - |inner| && outer[i..i + |inner|] == inner
  }
}
