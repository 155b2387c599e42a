/**
  The passenger status sentinel (`local_mux.rs`): strip one status line from a
  byte stream that arrives in arbitrary packets.
 */
module ExitMarkers {
  import opened Bytes

  // ---------------------------------------------------------------------
  // What a status line is, with no reference to how it is found.

  predicate IsDigit(b: byte)
  {
    48 <= b <= 57
  }

  predicate AllDigits(s: seq<byte>)
  {
    forall i | 0 <= i < |s| :: IsDigit(s[i])
  }

  function Decimal(digits: seq<byte>): nat
    requires AllDigits(digits)
  {
    if digits == [] then 0
    else Decimal(digits[..|digits| - 1]) * 10 + (digits[|digits| - 1] - 48)
  }

  /** One to three decimal digits that denote `code`, at most 255. */
  predicate Denotes(digits: seq<byte>, code: nat)
  {
    1 <= |digits| <= 3 && AllDigits(digits) && Decimal(digits) == code && code <= 255
  }

  function LineEnd(cr: bool): seq<byte>
  {
    if cr then [RETURN, NEWLINE] else [NEWLINE]
  }

  /** The stream holds the marker, a status and a line ending at position `i`. */
  ghost predicate StatusLineAt(marker: seq<byte>, stream: seq<byte>, i: int, code: nat)
  {
    exists digits: seq<byte>, cr: bool ::
      Denotes(digits, code) && OccursAt(stream, marker + digits + LineEnd(cr), i)
  }

  ghost predicate HasStatusLine(marker: seq<byte>, stream: seq<byte>)
  {
    exists i, code :: StatusLineAt(marker, stream, i, code)
  }

  /** `i` is where the first status line starts, and `code` is its status. */
  ghost predicate FirstStatusLine(marker: seq<byte>, stream: seq<byte>, i: int, code: nat)
  {
    && StatusLineAt(marker, stream, i, code)
    && forall j, c :: 0 <= j < i ==> !StatusLineAt(marker, stream, j, c)
  }

  /** No proper prefix of the marker is also a suffix of it. */
  predicate Borderless(marker: seq<byte>)
  {
    marker != [] && forall k | 0 < k < |marker| :: marker[k..] != marker[..|marker| - k]
  }

  // ---------------------------------------------------------------------
  // What can be said about a candidate position from the bytes seen so far.

  datatype Verdict = Status(code: nat) | Refuted | Undecided

  function StripReturn(s: seq<byte>): seq<byte>
  {
    if s != [] && s[|s| - 1] == RETURN then s[..|s| - 1] else s
  }

  /** The bytes after a marker. */
  function JudgeTail(tail: seq<byte>): Verdict
  {
    var k := IndexOf(tail, NEWLINE);
    if k < |tail| then
      var number := StripReturn(tail[..k]);
      if 1 <= |number| <= 3 && AllDigits(number) && Decimal(number) <= 255
      then Status(Decimal(number))
      else Refuted
    else if |tail| <= 4 then Undecided else Refuted
  }

  /** The bytes from a candidate position on. */
  function Judge(marker: seq<byte>, rest: seq<byte>): Verdict
  {
    if |rest| < |marker| then
      if rest == marker[..|rest|] then Undecided else Refuted
    else if rest[..|marker|] == marker then
      JudgeTail(rest[|marker|..])
    else
      Refuted
  }

  /** A verdict of `Status` is exactly a status line. */
  lemma StatusVerdictIsStatusLine(marker: seq<byte>, stream: seq<byte>, i: nat, code: nat)
    requires i <= |stream| && marker != []
    ensures StatusLineAt(marker, stream, i, code) <==> Judge(marker, stream[i..]) == Status(code)
  {
    if StatusLineAt(marker, stream, i, code) {
      var digits, cr :| Denotes(digits, code) && OccursAt(stream, marker + digits + LineEnd(cr), i);
      StatusLineJudged(marker, stream, i, code, digits, cr);
    }
    if Judge(marker, stream[i..]) == Status(code) {
      StatusJudgedIsLine(marker, stream, i, code);
    }
  }

  lemma StatusLineJudged(
      marker: seq<byte>, stream: seq<byte>, i: nat, code: nat, digits: seq<byte>, cr: bool)
    requires Denotes(digits, code) && OccursAt(stream, marker + digits + LineEnd(cr), i)
    ensures Judge(marker, stream[i..]) == Status(code)
  {
    var end := digits + LineEnd(cr);
    var rest := stream[i..];
    assert marker + digits + LineEnd(cr) == marker + end;
    assert rest[..|marker + end|] == marker + end;
    assert rest[..|marker|] == (marker + end)[..|marker|] == marker;
    assert rest[|marker|..][..|end|] == rest[..|marker + end|][|marker|..] == end;
    StatusTail(rest[|marker|..], digits, cr, code);
  }

  lemma StatusJudgedIsLine(marker: seq<byte>, stream: seq<byte>, i: nat, code: nat)
    requires i <= |stream| && marker != []
    requires Judge(marker, stream[i..]) == Status(code)
    ensures StatusLineAt(marker, stream, i, code)
  {
    var rest := stream[i..];
    var tail := rest[|marker|..];
    var digits, cr := TailStatus(tail, code);
    var line := marker + digits + LineEnd(cr);
    assert line == marker + (digits + LineEnd(cr));
    LineInStream(marker, digits + LineEnd(cr), stream, i);
  }

  lemma LineInStream(marker: seq<byte>, end: seq<byte>, stream: seq<byte>, i: nat)
    requires i <= |stream| && marker <= stream[i..] && end <= stream[i..][|marker|..]
    ensures OccursAt(stream, marker + end, i)
  {
    assert stream[i..] == marker + stream[i..][|marker|..];
    assert stream[i..i + |marker + end|] == stream[i..][..|marker + end|];
  }

  lemma TailStatus(tail: seq<byte>, code: nat) returns (digits: seq<byte>, cr: bool)
    requires JudgeTail(tail) == Status(code)
    ensures Denotes(digits, code) && digits + LineEnd(cr) <= tail
  {
    var k := IndexOf(tail, NEWLINE);
    digits := StripReturn(tail[..k]);
    cr := digits != tail[..k];
    assert tail[..k + 1] == tail[..k] + [NEWLINE];
    assert digits + LineEnd(cr) == tail[..k + 1];
  }

  lemma StatusTail(tail: seq<byte>, digits: seq<byte>, cr: bool, code: nat)
    requires Denotes(digits, code)
    requires |tail| >= |digits| + |LineEnd(cr)|
    requires tail[..|digits| + |LineEnd(cr)|] == digits + LineEnd(cr)
    ensures JudgeTail(tail) == Status(code)
  {
    var head := digits + LineEnd(cr);
    var k := IndexOf(tail, NEWLINE);
    assert tail[|head| - 1] == head[|head| - 1] == NEWLINE;
    assert forall i | 0 <= i < |head| - 1 :: tail[i] == head[i] && head[i] != NEWLINE;
    assert k == |head| - 1;
    assert tail[..k] == head[..k];
    assert StripReturn(tail[..k]) == digits;
  }

  /** Later bytes never change a decided verdict. */
  lemma {:induction false} FirstNewlineExtends(s: seq<byte>, more: seq<byte>)
    requires IndexOf(s, NEWLINE) < |s|
    ensures IndexOf(s + more, NEWLINE) == IndexOf(s, NEWLINE)
  {
    assert (s + more)[0] == s[0];
    if s[0] != NEWLINE {
      assert (s + more)[1..] == s[1..] + more;
      FirstNewlineExtends(s[1..], more);
    }
  }

  lemma VerdictIsFinal(marker: seq<byte>, rest: seq<byte>, more: seq<byte>)
    requires Judge(marker, rest) != Undecided
    ensures Judge(marker, rest + more) == Judge(marker, rest)
  {
    var all := rest + more;
    if |rest| < |marker| {
      if |all| < |marker| {
        assert all[..|rest|] == rest && marker[..|all|][..|rest|] == marker[..|rest|];
      } else {
        assert all[..|marker|][..|rest|] == rest;
      }
    } else {
      assert all[..|marker|] == rest[..|marker|];
      if rest[..|marker|] == marker {
        var tail := rest[|marker|..];
        assert all[|marker|..] == tail + more;
        if IndexOf(tail, NEWLINE) < |tail| {
          FirstNewlineExtends(tail, more);
          assert (tail + more)[..IndexOf(tail, NEWLINE)] == tail[..IndexOf(tail, NEWLINE)];
        } else {
          LongTailRefuted(tail, more);
        }
      }
    }
  }

  /** More than four bytes without a newline can no longer become a status. */
  lemma LongTailRefuted(tail: seq<byte>, more: seq<byte>)
    requires IndexOf(tail, NEWLINE) == |tail| > 4
    ensures JudgeTail(tail + more) == Refuted
  {
    var k := IndexOf(tail + more, NEWLINE);
    assert forall i | 0 <= i < |tail| :: (tail + more)[i] == tail[i];
    assert k >= |tail|;
  }

  /** Inside a marker occurrence no other candidate can start. */
  lemma OverlapRefuted(marker: seq<byte>, rest: seq<byte>, k: nat)
    requires Borderless(marker) && |rest| >= |marker| && rest[..|marker|] == marker
    requires 0 < k < |marker|
    ensures Judge(marker, rest[k..]) == Refuted
  {
    var overlap := |marker| - k;
    var later := rest[k..];
    assert later[..overlap] == rest[k..|marker|] == rest[..|marker|][k..] == marker[k..];
    assert later[..overlap] != marker[..overlap];
    if |later| < |marker| {
      assert marker[..|later|][..overlap] == marker[..overlap];
    } else {
      assert later[..|marker|][..overlap] == later[..overlap];
    }
  }

  /** An undecided candidate leaves no room for a status line behind it. */
  lemma UndecidedIsLast(marker: seq<byte>, rest: seq<byte>, j: nat)
    requires Borderless(marker) && Judge(marker, rest) == Undecided && 0 < j <= |rest|
    ensures !Judge(marker, rest[j..]).Status?
  {
    if |rest| >= |marker| {
      if j < |marker| {
        OverlapRefuted(marker, rest, j);
      } else {
        var tail := rest[|marker|..];
        assert rest[j..] == tail[j - |marker|..];
        assert forall i | 0 <= i < |tail| :: tail[i] != NEWLINE;
      }
    }
  }

  // ---------------------------------------------------------------------
  // The filter.

  /** What is withheld of a stream with no status line: everything from its first undecided candidate. */
  ghost predicate HoldsBack(marker: seq<byte>, stream: seq<byte>, hold: nat)
  {
    && hold <= |stream|
    && (forall i | 0 <= i < hold :: Judge(marker, stream[i..]) == Refuted)
    && (hold < |stream| ==> Judge(marker, stream[hold..]) == Undecided)
  }

  /** The split between released and withheld bytes is a function of the stream alone. */
  lemma HoldsBackUnique(marker: seq<byte>, stream: seq<byte>, h1: nat, h2: nat)
    requires HoldsBack(marker, stream, h1) && HoldsBack(marker, stream, h2)
    ensures h1 == h2
  {
  }

  /** A held-back stream has no status line, and little is held back. */
  lemma HeldBackStream(marker: seq<byte>, stream: seq<byte>, hold: nat)
    requires Borderless(marker) && HoldsBack(marker, stream, hold)
    ensures !HasStatusLine(marker, stream)
    ensures |stream| - hold <= |marker| + 4
  {
    if HasStatusLine(marker, stream) {
      var i, code :| StatusLineAt(marker, stream, i, code);
      StatusVerdictIsStatusLine(marker, stream, i, code);
      if i > hold {
        assert stream[i..] == stream[hold..][i - hold..];
        UndecidedIsLast(marker, stream[hold..], i - hold);
      }
      assert false;
    }
  }

  /** A position whose predecessors are all refuted and that is a status is the first status line. */
  lemma FirstStatusFound(marker: seq<byte>, stream: seq<byte>, i: nat, code: nat)
    requires marker != [] && i <= |stream|
    requires forall j | 0 <= j < i :: Judge(marker, stream[j..]) == Refuted
    requires Judge(marker, stream[i..]) == Status(code)
    ensures FirstStatusLine(marker, stream, i, code)
  {
    StatusVerdictIsStatusLine(marker, stream, i, code);
    forall j, c | 0 <= j < i ensures !StatusLineAt(marker, stream, j, c) {
      StatusVerdictIsStatusLine(marker, stream, j, c);
    }
  }

  /** First occurrence of `needle` in `hay` at or after `from`. */
  method FindFrom(hay: seq<byte>, needle: seq<byte>, from: nat) returns (found: Option<nat>)
    requires from <= |hay|
    ensures found.Some? ==> from <= found.value && OccursAt(hay, needle, found.value)
    ensures forall j | from <= j && (found.Some? ==> j < found.value) :: !OccursAt(hay, needle, j)
  {
    var j := from;
    while j + |needle| <= |hay|
      invariant from <= j
      invariant forall i | from <= i < j :: !OccursAt(hay, needle, i)
    {
      if hay[j..j + |needle|] == needle {
        return Some(j);
      }
      j := j + 1;
    }
    found := None;
  }

  /** Longest proper prefix of the marker that ends `s`. */
  method RetainedLength(s: seq<byte>, marker: seq<byte>) returns (n: nat)
    requires marker != []
    ensures n < |marker| && n <= |s| && s[|s| - n..] == marker[..n]
    ensures forall k | n < k < |marker| && k <= |s| :: s[|s| - k..] != marker[..k]
  {
    n := |marker| - 1;
    while n > 0
      invariant n < |marker|
      invariant forall k | n < k < |marker| && k <= |s| :: s[|s| - k..] != marker[..k]
    {
      if n <= |s| && s[|s| - n..] == marker[..n] {
        return;
      }
      n := n - 1;
    }
  }

  /** Positions between two scan points hold no occurrence, so they are refuted. */
  lemma RefuteBefore(marker: seq<byte>, c: seq<byte>, scan: nat, start: nat)
    requires scan <= start && start + |marker| <= |c|
    requires forall j | 0 <= j < scan :: Judge(marker, c[j..]) == Refuted
    requires forall j | scan <= j < start :: !OccursAt(c, marker, j)
    ensures forall j | 0 <= j < start :: Judge(marker, c[j..]) == Refuted
  {
    forall j | scan <= j < start ensures Judge(marker, c[j..]) == Refuted {
      assert !OccursAt(c, marker, j);
      assert c[j..][..|marker|] == c[j..j + |marker|];
    }
  }

  /** A refuted occurrence refutes every position it covers. */
  lemma RefuteThrough(marker: seq<byte>, c: seq<byte>, start: nat)
    requires Borderless(marker) && OccursAt(c, marker, start)
    requires forall j | 0 <= j <= start :: Judge(marker, c[j..]) == Refuted
    ensures forall j | 0 <= j < start + |marker| :: Judge(marker, c[j..]) == Refuted
  {
    assert c[start..][..|marker|] == marker;
    forall j | start < j < start + |marker| ensures Judge(marker, c[j..]) == Refuted {
      OverlapRefuted(marker, c[start..], j - start);
      assert c[start..][j - start..] == c[j..];
    }
  }

  /** With no occurrence left, only the longest partial marker at the end is withheld. */
  lemma HoldPartial(marker: seq<byte>, c: seq<byte>, scan: nat, n: nat)
    requires marker != [] && scan <= |c|
    requires forall j | 0 <= j < scan :: Judge(marker, c[j..]) == Refuted
    requires forall j | scan <= j :: !OccursAt(c, marker, j)
    requires n < |marker| && n <= |c| && c[|c| - n..] == marker[..n]
    requires forall k | n < k < |marker| && k <= |c| :: c[|c| - k..] != marker[..k]
    ensures HoldsBack(marker, c, |c| - n)
  {
    forall j | 0 <= j < |c| - n ensures Judge(marker, c[j..]) == Refuted {
      if j >= scan {
        if j + |marker| <= |c| {
          assert !OccursAt(c, marker, j);
          assert c[j..][..|marker|] == c[j..j + |marker|];
        } else {
          assert c[|c| - (|c| - j)..] != marker[..|c| - j];
        }
      }
    }
  }

  /** Judging the carried suffix is judging the stream. */
  lemma HoldInStream(marker: seq<byte>, released: seq<byte>, c: seq<byte>, hold: nat)
    requires forall j | 0 <= j < |released| :: Judge(marker, (released + c)[j..]) == Refuted
    requires HoldsBack(marker, c, hold)
    ensures HoldsBack(marker, released + c, |released| + hold)
  {
    forall i | 0 <= i <= |c| ensures (released + c)[|released| + i..] == c[i..] {}
    forall i | |released| <= i < |released| + hold
      ensures Judge(marker, (released + c)[i..]) == Refuted
    {
      assert (released + c)[|released| + (i - |released|)..] == c[i - |released|..];
    }
  }

  /** A status in the carried suffix is the first status line of the stream. */
  lemma StatusInStream(marker: seq<byte>, released: seq<byte>, c: seq<byte>, start: nat, code: nat)
    requires marker != [] && start <= |c|
    requires forall j | 0 <= j < |released| :: Judge(marker, (released + c)[j..]) == Refuted
    requires forall j | 0 <= j < start :: Judge(marker, c[j..]) == Refuted
    requires Judge(marker, c[start..]) == Status(code)
    ensures FirstStatusLine(marker, released + c, |released| + start, code)
  {
    forall i | |released| <= i <= |released| + start
      ensures (released + c)[i..] == c[i - |released|..]
    {
    }
    FirstStatusFound(marker, released + c, |released| + start, code);
  }

  /** At an occurrence of the marker, what follows it decides. */
  lemma JudgeAtMarker(marker: seq<byte>, c: seq<byte>, start: nat)
    requires OccursAt(c, marker, start)
    ensures Judge(marker, c[start..]) == JudgeTail(c[start + |marker|..])
  {
    assert c[start..][..|marker|] == marker && c[start..][|marker|..] == c[start + |marker|..];
  }

  lemma HoldAt(marker: seq<byte>, c: seq<byte>, hold: nat)
    requires hold < |c| && Judge(marker, c[hold..]) == Undecided
    requires forall j | 0 <= j < hold :: Judge(marker, c[j..]) == Refuted
    ensures HoldsBack(marker, c, hold)
  {
  }

  lemma StillRefuted(marker: seq<byte>, stream: seq<byte>, more: seq<byte>, n: nat)
    requires n <= |stream|
    requires forall j | 0 <= j < n :: Judge(marker, stream[j..]) == Refuted
    ensures forall j | 0 <= j < n :: Judge(marker, (stream + more)[j..]) == Refuted
  {
    forall j | 0 <= j < n ensures Judge(marker, (stream + more)[j..]) == Refuted {
      assert (stream + more)[j..] == stream[j..] + more;
      VerdictIsFinal(marker, stream[j..], more);
    }
  }

  /** The scan loop: where to cut the carried bytes, and the status found there, if any. */
  method ScanCarry(marker: seq<byte>, c: seq<byte>) returns (cut: nat, status: Option<nat>)
    requires Borderless(marker)
    ensures cut <= |c|
    ensures status.None? ==> HoldsBack(marker, c, cut)
    ensures status.Some? ==>
      && Judge(marker, c[cut..]) == Status(status.value)
      && forall j | 0 <= j < cut :: Judge(marker, c[j..]) == Refuted
  {
    hide Judge, HoldsBack;
    var scan := 0;
    while scan + |marker| <= |c|
      invariant 0 <= scan <= |c|
      invariant forall j | 0 <= j < scan :: Judge(marker, c[j..]) == Refuted
    {
      var found := FindFrom(c, marker, scan);
      if found.None? {
        break;
      }
      var start := found.value;
      var digits := start + |marker|;
      RefuteBefore(marker, c, scan, start);
      JudgeAtMarker(marker, c, start);
      var end := IndexOf(c[digits..], NEWLINE);
      if end < |c| - digits {
        var number := StripReturn(c[digits..][..end]);
        if 1 <= |number| <= 3 && AllDigits(number) && Decimal(number) <= 255 {
          return start, Some(Decimal(number));
        }
      } else if |c| - digits <= 4 {
        HoldAt(marker, c, start);
        return start, None;
      }
      RefuteThrough(marker, c, start);
      scan := digits;
    }
    var retain := RetainedLength(c, marker);
    HoldPartial(marker, c, scan, retain);
    cut, status := |c| - retain, None;
  }

  /** What a stream means: its first status line and the bytes before it, or what is safe to pass on. */
  ghost predicate StreamOutcome(marker: seq<byte>, stream: seq<byte>, output: seq<byte>, status: Option<nat>)
  {
    && output <= stream
    && match status
       case Some(code) => FirstStatusLine(marker, stream, |output|, code)
       case None => !HasStatusLine(marker, stream) && HoldsBack(marker, stream, |output|)
  }

  lemma NothingHeldBack(marker: seq<byte>)
    ensures HoldsBack(marker, [], 0)
  {
  }

  /** The cut found in the carried bytes is the outcome of the whole stream. */
  lemma CutIsOutcome(
      marker: seq<byte>, fed: seq<byte>, released: seq<byte>, bytes: seq<byte>,
      c: seq<byte>, cut: nat, status: Option<nat>)
    requires Borderless(marker) && HoldsBack(marker, fed, |released|)
    requires fed + bytes == released + c && cut <= |c|
    requires status.None? ==> HoldsBack(marker, c, cut)
    requires status.Some? ==>
      && Judge(marker, c[cut..]) == Status(status.value)
      && forall j | 0 <= j < cut :: Judge(marker, c[j..]) == Refuted
    ensures StreamOutcome(marker, fed + bytes, released + c[..cut], status)
    ensures status.None? ==> |c| - cut <= |marker| + 4
  {
    hide Judge, HasStatusLine, FirstStatusLine;
    RefutedSoFar(marker, fed, bytes, |released|);
    PrefixOfCarry(released, c, cut);
    if status.Some? {
      StatusInStream(marker, released, c, cut, status.value);
    } else {
      HoldInStream(marker, released, c, cut);
      HeldBackStream(marker, released + c, |released| + cut);
    }
  }

  lemma PrefixOfCarry(released: seq<byte>, c: seq<byte>, cut: nat)
    requires cut <= |c|
    ensures released + c[..cut] <= released + c && |released + c[..cut]| == |released| + cut
  {
    assert released + c[..cut] == (released + c)[..|released| + cut];
  }

  lemma RefutedSoFar(marker: seq<byte>, fed: seq<byte>, bytes: seq<byte>, n: nat)
    requires HoldsBack(marker, fed, n)
    ensures forall j | 0 <= j < n :: Judge(marker, (fed + bytes)[j..]) == Refuted
  {
    StillRefuted(marker, fed, bytes, n);
  }

  class ExitMarker {
    const marker: seq<byte>
    var carry: seq<byte>
    /** Everything consumed since the last reported status, and what of it was passed on. */
    ghost var fed: seq<byte>
    ghost var released: seq<byte>

    ghost predicate Valid()
      reads this
    {
      && Borderless(marker)
      && fed == released + carry
      && HoldsBack(marker, fed, |released|)
    }

    constructor (marker: seq<byte>)
      requires Borderless(marker)
      ensures Valid() && this.marker == marker && fed == [] && released == []
    {
      this.marker := marker;
      carry := [];
      fed, released := [], [];
    }

    /**
      Consume one packet. Until a status is reported, the concatenated outputs
      are the stream up to its first undecided candidate; the reported status
      is that of the stream's first status line, and the outputs are then
      exactly the bytes before that line.
     */
    method Consume(bytes: seq<byte>) returns (output: seq<byte>, status: Option<nat>)
      requires Valid()
      modifies this
      ensures Valid()
      ensures StreamOutcome(marker, old(fed) + bytes, old(released) + output, status)
      ensures status.None? ==>
        fed == old(fed) + bytes && released == old(released) + output && |carry| <= |marker| + 4
      ensures status.Some? ==> fed == [] && released == [] && carry == []
    {
      hide Judge, HasStatusLine, FirstStatusLine, HoldsBack;
      NothingHeldBack(marker);
      var c := carry + bytes;
      assert fed + bytes == released + c;
      var cut;
      cut, status := ScanCarry(marker, c);
      CutIsOutcome(marker, fed, released, bytes, c, cut, status);
      output := c[..cut];
      if status.Some? {
        carry, fed, released := [], [], [];
      } else {
        carry := c[cut..];
        fed, released := fed + bytes, released + output;
      }
    }
  }

  // ---------------------------------------------------------------------
  // Streams in packets.

  /** Where the first position stands that is not refuted. */
  ghost function CutOf(marker: seq<byte>, stream: seq<byte>): (cut: nat)
    ensures cut <= |stream|
    decreases |stream|
  {
    if stream == [] || Judge(marker, stream) != Refuted then 0 else 1 + CutOf(marker, stream[1..])
  }

  ghost function StatusOf(marker: seq<byte>, stream: seq<byte>): Option<nat>
  {
    var verdict := Judge(marker, stream[CutOf(marker, stream)..]);
    if verdict.Status? then Some(verdict.code) else None
  }

  lemma {:induction false} CutRefutes(marker: seq<byte>, stream: seq<byte>)
    ensures var cut := CutOf(marker, stream);
      && (forall j | 0 <= j < cut :: Judge(marker, stream[j..]) == Refuted)
      && (cut < |stream| ==> Judge(marker, stream[cut..]) != Refuted)
    decreases |stream|
  {
    if stream != [] && Judge(marker, stream) == Refuted {
      CutRefutes(marker, stream[1..]);
      assert forall j | 0 < j <= |stream| :: stream[j..] == stream[1..][j - 1..];
    }
    assert stream[0..] == stream;
  }

  lemma EmptyIsUndecided(marker: seq<byte>)
    requires marker != []
    ensures !Judge(marker, []).Status?
  {
    if Judge(marker, []).Status? {
      StatusVerdictIsStatusLine(marker, [], 0, Judge(marker, []).code);
    }
  }

  /** They are the outcome of the stream. */
  lemma OutcomeOf(marker: seq<byte>, stream: seq<byte>)
    requires Borderless(marker)
    ensures StreamOutcome(marker, stream, stream[..CutOf(marker, stream)], StatusOf(marker, stream))
  {
    hide Judge;
    var cut := CutOf(marker, stream);
    CutRefutes(marker, stream);
    EmptyIsUndecided(marker);
    assert cut == |stream| ==> stream[cut..] == [];
    if StatusOf(marker, stream).Some? {
      FirstStatusFound(marker, stream, cut, StatusOf(marker, stream).value);
    } else {
      HeldBackStream(marker, stream, cut);
    }
  }

  lemma OutcomeIs(marker: seq<byte>, stream: seq<byte>, output: seq<byte>, status: Option<nat>)
    requires Borderless(marker) && StreamOutcome(marker, stream, output, status)
    ensures output == stream[..CutOf(marker, stream)] && status == StatusOf(marker, stream)
  {
    OutcomeOf(marker, stream);
    OutcomeUnique(marker, stream, output, status, stream[..CutOf(marker, stream)], StatusOf(marker, stream));
  }

  /** The bytes since the last status, what was shown before them, and that status. */
  datatype Scanned = Scanned(run: seq<byte>, done: seq<byte>, status: Option<nat>)

  /** A status ends a run with its packet; the next packet begins another. */
  ghost function ScanNext(marker: seq<byte>, before: Scanned, packet: seq<byte>): Scanned
  {
    var stream := before.run + packet;
    if StatusOf(marker, stream).Some?
    then Scanned([], before.done + stream[..CutOf(marker, stream)], StatusOf(marker, stream))
    else Scanned(stream, before.done, before.status)
  }

  ghost function ScanAll(marker: seq<byte>, packets: seq<seq<byte>>): Scanned
  {
    if packets == [] then Scanned([], [], None)
    else ScanNext(marker, ScanAll(marker, packets[..|packets| - 1]), packets[|packets| - 1])
  }

  /** What of the packets is shown: without the status lines and what follows them in their packet. */
  ghost function ShownOf(marker: seq<byte>, packets: seq<seq<byte>>): seq<byte>
  {
    var scan := ScanAll(marker, packets);
    scan.done + scan.run[..CutOf(marker, scan.run)]
  }

  lemma ScanSnoc(marker: seq<byte>, packets: seq<seq<byte>>, packet: seq<byte>)
    ensures ScanAll(marker, packets + [packet]) == ScanNext(marker, ScanAll(marker, packets), packet)
  {
    assert (packets + [packet])[..|packets|] == packets;
  }

  /** Until a status is found, the packets are one stream. */
  lemma {:induction false} FirstRun(marker: seq<byte>, packets: seq<seq<byte>>)
    requires ScanAll(marker, packets).status.None?
    ensures ScanAll(marker, packets) == Scanned(Flatten(packets), [], None)
    decreases |packets|
  {
    hide CutOf, StatusOf;
    if packets != [] {
      var before, last := packets[..|packets| - 1], packets[|packets| - 1];
      FirstRun(marker, before);
      assert packets == before + [last];
      FlattenAppend(before, [last]);
      FlattenOne(last);
    }
  }

  /**
    Up to and including the packet that brings the first status, what is shown
    and the status are the outcome of all that was printed: every byte before
    the first status line, and its status.
   */
  lemma ShownUpToStatus(marker: seq<byte>, packets: seq<seq<byte>>)
    requires Borderless(marker) && packets != [] && ScanAll(marker, packets[..|packets| - 1]).status.None?
    ensures StreamOutcome(marker, Flatten(packets), ShownOf(marker, packets), ScanAll(marker, packets).status)
  {
    hide CutOf, StatusOf, StreamOutcome, ScanAll;
    var before, last := packets[..|packets| - 1], packets[|packets| - 1];
    assert packets == before + [last];
    FirstRun(marker, before);
    ScanSnoc(marker, before, last);
    FlattenAppend(before, [last]);
    FlattenOne(last);
    var stream := Flatten(packets);
    assert ScanAll(marker, before).run + last == stream;
    OutcomeOf(marker, stream);
    var shown := stream[..CutOf(marker, stream)];
    assert [] + shown == shown && shown + [] == shown;
    if StatusOf(marker, stream).Some? {
      assert ScanAll(marker, packets) == Scanned([], shown, StatusOf(marker, stream));
      NothingShown(marker);
    } else {
      assert ScanAll(marker, packets) == Scanned(stream, [], None);
    }
  }

  /**
    What comes in packets after a status is shown like the beginning of another
    stream, so the bytes before the first status line are all that is shown
    exactly as long as the later packets show nothing.
   */
  lemma ScanRestarts(marker: seq<byte>, packets: seq<seq<byte>>, more: seq<seq<byte>>)
    requires ScanAll(marker, packets).run == []
    ensures ShownOf(marker, packets + more) == ShownOf(marker, packets) + ShownOf(marker, more)
  {
    hide CutOf, ScanAll;
    NothingShown(marker);
    RunRestarts(marker, packets, more);
    var done, scan := ScanAll(marker, packets).done, ScanAll(marker, more);
    assert done + [] == done;
    assert done + scan.done + scan.run[..CutOf(marker, scan.run)] == done + (scan.done + scan.run[..CutOf(marker, scan.run)]);
  }

  lemma {:induction false} RunRestarts(marker: seq<byte>, packets: seq<seq<byte>>, more: seq<seq<byte>>)
    requires ScanAll(marker, packets).run == []
    ensures ScanAll(marker, packets + more).run == ScanAll(marker, more).run
    ensures ScanAll(marker, packets + more).done == ScanAll(marker, packets).done + ScanAll(marker, more).done
    decreases |more|
  {
    hide ScanNext;
    if more == [] {
      assert packets + more == packets;
    } else {
      hide ScanAll;
      var before, last := more[..|more| - 1], more[|more| - 1];
      RunRestarts(marker, packets, before);
      assert more == before + [last] && packets + more == (packets + before) + [last];
      ScanSnoc(marker, packets + before, last);
      ScanSnoc(marker, before, last);
      NextShifts(marker, ScanAll(marker, packets).done, ScanAll(marker, before), ScanAll(marker, packets + before), last);
    }
  }

  lemma NextShifts(marker: seq<byte>, shift: seq<byte>, scan: Scanned, shifted: Scanned, packet: seq<byte>)
    requires shifted.run == scan.run && shifted.done == shift + scan.done
    ensures ScanNext(marker, shifted, packet).run == ScanNext(marker, scan, packet).run
    ensures ScanNext(marker, shifted, packet).done == shift + ScanNext(marker, scan, packet).done
  {
    hide CutOf, StatusOf;
  }

  lemma NothingShown(marker: seq<byte>)
    ensures CutOf(marker, []) == 0
  {
  }

  // ---------------------------------------------------------------------
  // Whole streams: the answer does not depend on the packet boundaries.

  lemma StatusLineCode(marker: seq<byte>, stream: seq<byte>, i: nat, c1: nat, c2: nat)
    requires marker != [] && i <= |stream|
    requires StatusLineAt(marker, stream, i, c1) && StatusLineAt(marker, stream, i, c2)
    ensures c1 == c2
  {
    StatusVerdictIsStatusLine(marker, stream, i, c1);
    StatusVerdictIsStatusLine(marker, stream, i, c2);
  }

  /** A stream has one outcome, so any two packetisations of it agree byte for byte. */
  lemma OutcomeUnique(
      marker: seq<byte>, stream: seq<byte>,
      out1: seq<byte>, status1: Option<nat>, out2: seq<byte>, status2: Option<nat>)
    requires marker != []
    requires StreamOutcome(marker, stream, out1, status1)
    requires StreamOutcome(marker, stream, out2, status2)
    ensures out1 == out2 && status1 == status2
  {
    match (status1, status2) {
      case (Some(c1), Some(c2)) =>
        assert |out1| == |out2|;
        StatusLineCode(marker, stream, |out1|, c1, c2);
      case (None, None) =>
        HoldsBackUnique(marker, stream, |out1|, |out2|);
      case _ =>
    }
    assert out1 == stream[..|out1|] && out2 == stream[..|out2|];
  }

  /** Bytes after the first status line never unmake it. */
  lemma FirstStatusExtends(marker: seq<byte>, stream: seq<byte>, more: seq<byte>, i: nat, code: nat)
    requires Borderless(marker) && i <= |stream|
    requires FirstStatusLine(marker, stream, i, code)
    ensures FirstStatusLine(marker, stream + more, i, code)
  {
    hide Judge, StatusLineAt;
    StatusVerdictIsStatusLine(marker, stream, i, code);
    forall j | 0 <= j <= i
      ensures Judge(marker, (stream + more)[j..]) == Judge(marker, stream[j..]) != Undecided
      ensures j < i ==> !Judge(marker, stream[j..]).Status?
    {
      assert (stream + more)[j..] == stream[j..] + more;
      if j < i {
        assert stream[j..][i - j..] == stream[i..];
        if Judge(marker, stream[j..]) == Undecided {
          UndecidedIsLast(marker, stream[j..], i - j);
        }
        if Judge(marker, stream[j..]).Status? {
          StatusVerdictIsStatusLine(marker, stream, j, Judge(marker, stream[j..]).code);
          assert false;
        }
      }
      VerdictIsFinal(marker, stream[j..], more);
    }
    FirstStatusFound(marker, stream + more, i, code);
  }

  /** Feed packets until a status is reported or they run out. */
  method ConsumeAll(marker: seq<byte>, packets: seq<seq<byte>>) returns (output: seq<byte>, status: Option<nat>)
    requires Borderless(marker)
    ensures StreamOutcome(marker, Flatten(packets), output, status)
  {
    var m := new ExitMarker(marker);
    output, status := [], None;
    var i := 0;
    while i < |packets| && status.None?
      invariant 0 <= i <= |packets|
      invariant m.Valid() && m.marker == marker
      invariant status.None? ==> m.fed == Flatten(packets[..i]) && m.released == output
      invariant status.Some? ==>
        && output <= Flatten(packets[..i])
        && FirstStatusLine(marker, Flatten(packets[..i]), |output|, status.value)
    {
      assert packets[..i + 1] == packets[..i] + [packets[i]];
      FlattenAppend(packets[..i], [packets[i]]);
      FlattenOne(packets[i]);
      var out;
      out, status := m.Consume(packets[i]);
      output := output + out;
      i := i + 1;
    }
    FlattenAppend(packets[..i], packets[i..]);
    assert packets[..i] + packets[i..] == packets;
    if status.Some? {
      FirstStatusExtends(marker, Flatten(packets[..i]), Flatten(packets[i..]), |output|, status.value);
    } else {
      assert packets[..i] == packets;
      HeldBackStream(marker, m.fed, |m.released|);
    }
  }

  // ---------------------------------------------------------------------
  // The marker and the command line that prints it.

  const COLON: byte := 58
  const QUOTE: byte := 39
  const DOUBLE_QUOTE: byte := 34

  function MarkerFor(key: seq<byte>): seq<byte>
  {
    Ascii("__ET_PASSENGER_EXIT_") + key + Ascii("__:")
  }

  /** The only colon of the marker is its last byte, so it has no border, whatever alphanumeric key it carries. */
  lemma MarkerIsBorderless(key: seq<byte>)
    requires COLON !in key
    ensures Borderless(MarkerFor(key))
  {
    var m := MarkerFor(key);
    assert m[|m| - 1] == COLON;
    assert COLON !in Ascii("__ET_PASSENGER_EXIT_") && COLON !in Ascii("__");
    forall k | 0 < k < |m| ensures m[k..] != m[..|m| - k] {
      assert m[k..][|m| - k - 1] == COLON;
      assert m[..|m| - k][|m| - k - 1] == m[|m| - k - 1];
      assert m[|m| - k - 1] != COLON;
    }
  }

  /** What `printf '%d'` writes. */
  function PrintedNumber(n: nat): seq<byte>
  {
    (if n < 10 then [] else PrintedNumber(n / 10)) + [48 + n % 10]
  }

  lemma {:induction false} PrintedNumberReadsBack(n: nat)
    ensures var digits := PrintedNumber(n); digits != [] && AllDigits(digits) && Decimal(digits) == n
    ensures n < 1000 ==> |PrintedNumber(n)| <= 3
    ensures n < 100 ==> |PrintedNumber(n)| <= 2
    ensures n < 10 ==> |PrintedNumber(n)| == 1
  {
    var digits := PrintedNumber(n);
    assert digits[..|digits| - 1] == if n < 10 then [] else PrintedNumber(n / 10);
    if n >= 10 {
      PrintedNumberReadsBack(n / 10);
    }
  }

  /** Every status the shell can print behind the marker is read as that status. */
  lemma PrintedStatusIsRead(marker: seq<byte>, code: nat, cr: bool)
    requires code <= 255
    ensures StatusLineAt(marker, marker + PrintedNumber(code) + LineEnd(cr), 0, code)
  {
    hide PrintedNumber, Decimal;
    PrintedNumberReadsBack(code);
    var line := marker + PrintedNumber(code) + LineEnd(cr);
    assert Denotes(PrintedNumber(code), code);
    assert line[0..|line|] == line && OccursAt(line, line, 0);
  }

  /** `command.replace('\'', ...)`: close the quote, quote a quote, reopen. */
  function EscapeQuotes(command: seq<byte>): seq<byte>
  {
    if command == [] then []
    else
      (if command[0] == QUOTE then [QUOTE, DOUBLE_QUOTE, QUOTE, DOUBLE_QUOTE, QUOTE] else [command[0]])
      + EscapeQuotes(command[1..])
  }

  datatype Quoting = Bare | Single | Double

  /** The word a POSIX shell reads from quoted text; only the bytes quoting needs are handled bare. */
  function ShellWord(text: seq<byte>, mode: Quoting): Option<seq<byte>>
  {
    if text == [] then
      if mode.Bare? then Some([]) else None
    else
      var b := text[0];
      match mode
      case Bare =>
        if b == QUOTE then ShellWord(text[1..], Single)
        else if b == DOUBLE_QUOTE then ShellWord(text[1..], Double)
        else None
      case Single =>
        if b == QUOTE then ShellWord(text[1..], Bare) else Prepend(b, ShellWord(text[1..], Single))
      case Double =>
        if b == DOUBLE_QUOTE then ShellWord(text[1..], Bare)
        else if b == QUOTE then Prepend(b, ShellWord(text[1..], Double))
        else None
  }

  function Prepend(b: byte, word: Option<seq<byte>>): Option<seq<byte>>
  {
    match word
    case None => None
    case Some(w) => Some([b] + w)
  }

  /** `eval` receives the passenger's command verbatim, quotes included. */
  lemma {:induction false} QuotedCommandReadsBack(command: seq<byte>)
    ensures ShellWord([QUOTE] + EscapeQuotes(command) + [QUOTE], Bare) == Some(command)
  {
    var text := EscapeQuotes(command) + [QUOTE];
    assert ([QUOTE] + EscapeQuotes(command) + [QUOTE])[1..] == text;
    EscapedReadsBack(command);
  }

  lemma {:induction false} EscapedReadsBack(command: seq<byte>)
    ensures ShellWord(EscapeQuotes(command) + [QUOTE], Single) == Some(command)
  {
    var text := EscapeQuotes(command) + [QUOTE];
    if command == [] {
      assert text[1..] == [];
    } else {
      var rest := EscapeQuotes(command[1..]) + [QUOTE];
      EscapedReadsBack(command[1..]);
      assert command == [command[0]] + command[1..];
      if command[0] == QUOTE {
        assert text == [QUOTE, DOUBLE_QUOTE, QUOTE, DOUBLE_QUOTE, QUOTE] + rest;
        QuoteReadsBack(rest, command[1..]);
      } else {
        assert text == [command[0]] + rest && text[1..] == rest;
      }
    }
  }

  /** Close, quote a quote, reopen: the shell reads one quote and goes on. */
  lemma QuoteReadsBack(rest: seq<byte>, word: seq<byte>)
    requires ShellWord(rest, Single) == Some(word)
    ensures ShellWord([QUOTE, DOUBLE_QUOTE, QUOTE, DOUBLE_QUOTE, QUOTE] + rest, Single) == Some([QUOTE] + word)
  {
    ShellStep(QUOTE, rest, Bare);
    ShellStep(DOUBLE_QUOTE, [QUOTE] + rest, Double);
    ShellStep(QUOTE, [DOUBLE_QUOTE] + ([QUOTE] + rest), Double);
    ShellStep(DOUBLE_QUOTE, [QUOTE] + ([DOUBLE_QUOTE] + ([QUOTE] + rest)), Bare);
    ShellStep(QUOTE, [DOUBLE_QUOTE] + ([QUOTE] + ([DOUBLE_QUOTE] + ([QUOTE] + rest))), Single);
    assert [QUOTE, DOUBLE_QUOTE, QUOTE, DOUBLE_QUOTE, QUOTE] + rest
        == [QUOTE] + ([DOUBLE_QUOTE] + ([QUOTE] + ([DOUBLE_QUOTE] + ([QUOTE] + rest))));
  }

  /** One byte of quoted text. */
  lemma ShellStep(b: byte, text: seq<byte>, mode: Quoting)
    requires b == QUOTE || (b == DOUBLE_QUOTE && mode != Single)
    ensures ShellWord([b] + text, mode) ==
      if b == QUOTE then
        (match mode
         case Bare => ShellWord(text, Single)
         case Single => ShellWord(text, Bare)
         case Double => Prepend(b, ShellWord(text, Double)))
      else if mode == Bare then ShellWord(text, Double) else ShellWord(text, Bare)
  {
    assert ([b] + text)[1..] == text;
  }

  /** The echoed `printf` text carries the marker before `%d`, which is never taken for a status. */
  lemma EchoIsNoStatus(marker: seq<byte>, rest: seq<byte>)
    ensures !Judge(marker, marker + Ascii("%d") + rest).Status?
  {
    var text := marker + Ascii("%d") + rest;
    assert text[..|marker|] == marker;
    var tail := text[|marker|..];
    assert tail[0] == 37;
    var k := IndexOf(tail, NEWLINE);
    if k < |tail| && |StripReturn(tail[..k])| > 0 {
      assert StripReturn(tail[..k])[0] == 37;
    }
  }
}
