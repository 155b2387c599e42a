/**
  What the client remembers about the output it displayed (`client_terminal.rs`):
  whether the alternate screen is active, and whether a packet asked for a
  cursor position report.
 */
module TerminalModes {
  import opened Bytes

  const PREFIX: seq<byte> := [27, 91, 63, 49, 48, 52, 57] // ESC [ ? 1 0 4 9
  const ENTER: byte := 104
  const LEAVE: byte := 108

  datatype Modes = Modes(prefixLen: nat, alternate: bool)

  predicate ValidModes(m: Modes)
  {
    m.prefixLen <= |PREFIX|
  }

  const FRESH := Modes(0, false)

  /** One byte of the recogniser. */
  function Step(m: Modes, b: byte): (next: Modes)
    requires ValidModes(m)
    ensures ValidModes(next)
  {
    var restart := if b == PREFIX[0] then 1 else 0;
    if m.prefixLen == |PREFIX| then
      Modes(restart, if b == ENTER then true else if b == LEAVE then false else m.alternate)
    else if b == PREFIX[m.prefixLen] then
      m.(prefixLen := m.prefixLen + 1)
    else
      m.(prefixLen := restart)
  }

  /** The recogniser run over a whole stream, byte by byte. */
  function Track(m: Modes, stream: seq<byte>): (next: Modes)
    requires ValidModes(m)
    ensures ValidModes(next)
  {
    if stream == [] then m else Step(Track(m, stream[..|stream| - 1]), stream[|stream| - 1])
  }

  /** Observing chunk after chunk is observing their concatenation. */
  lemma {:induction false} TrackAppend(m: Modes, a: seq<byte>, b: seq<byte>)
    requires ValidModes(m)
    ensures Track(m, a + b) == Track(Track(m, a), b)
    decreases |b|
  {
    if b == [] {
      assert a + b == a;
    } else {
      var last := |b| - 1;
      assert (a + b)[..|a + b| - 1] == a + b[..last];
      TrackAppend(m, a, b[..last]);
    }
  }

  /** Bytes without ESC leave an idle recogniser alone. */
  lemma {:induction false} TrackWithoutEscape(m: Modes, s: seq<byte>)
    requires ValidModes(m) && m.prefixLen == 0 && PREFIX[0] !in s
    ensures Track(m, s) == m
  {
    if s != [] {
      TrackWithoutEscape(m, s[..|s| - 1]);
      assert s[|s| - 1] in s;
    }
  }

  lemma SkipToEscape(m: Modes, seen: seq<byte>, gap: seq<byte>)
    requires ValidModes(m) && Track(m, seen).prefixLen == 0 && PREFIX[0] !in gap
    ensures Track(m, seen + gap) == Track(m, seen)
  {
    TrackWithoutEscape(Track(m, seen), gap);
    TrackAppend(m, seen, gap);
  }

  class TerminalModeState {
    var alternatePrefixLen: nat
    var alternateScreen: bool

    ghost function View(): Modes
      reads this
    {
      Modes(alternatePrefixLen, alternateScreen)
    }

    constructor ()
      ensures View() == FRESH
    {
      alternatePrefixLen, alternateScreen := 0, false;
    }

    /** `observe`: the scan that jumps to the next ESC does what the byte-by-byte recogniser does. */
    method Observe(bytes: seq<byte>)
      requires ValidModes(View())
      modifies this
      ensures ValidModes(View())
      ensures View() == Track(old(View()), bytes)
    {
      var done := 0;
      assert bytes[..0] == [];
      while true
        invariant 0 <= done <= |bytes|
        invariant ValidModes(View()) && View() == Track(old(View()), bytes[..done])
        decreases |bytes| - done
      {
        if alternatePrefixLen == 0 {
          var skip := IndexOf(bytes[done..], PREFIX[0]);
          SkipToEscape(old(View()), bytes[..done], bytes[done..][..skip]);
          assert bytes[..done] + bytes[done..][..skip] == bytes[..done + skip];
          done := done + skip;
        }
        if done == |bytes| {
          assert bytes[..done] == bytes;
          return;
        }
        var b := bytes[done];
        assert bytes[..done + 1][..done] == bytes[..done];
        done := done + 1;
        if alternatePrefixLen == |PREFIX| {
          if b == ENTER {
            alternateScreen := true;
          } else if b == LEAVE {
            alternateScreen := false;
          }
          alternatePrefixLen := if b == PREFIX[0] then 1 else 0;
        } else if b == PREFIX[alternatePrefixLen] {
          alternatePrefixLen := alternatePrefixLen + 1;
        } else {
          alternatePrefixLen := if b == PREFIX[0] then 1 else 0;
        }
      }
    }
  }

  // ---------------------------------------------------------------------
  // What the recogniser recognises.

  function Final(on: bool): byte
  {
    if on then ENTER else LEAVE
  }

  /** `ESC[?1049h` (`on`) or `ESC[?1049l` stands at position `i`. */
  predicate SwitchAt(stream: seq<byte>, i: int, on: bool)
  {
    OccursAt(stream, PREFIX + [Final(on)], i)
  }

  /** The last complete switch of the stream, in either direction, enters the alternate screen. */
  ghost predicate LastSwitchEnters(stream: seq<byte>)
  {
    exists i :: SwitchAt(stream, i, true) && forall j, on | j > i :: !SwitchAt(stream, j, on)
  }

  /** The stream ends with the first `k` bytes of the switch prefix. */
  predicate EndsWithPrefix(stream: seq<byte>, k: nat)
    requires k <= |PREFIX|
  {
    k <= |stream| && stream[|stream| - k..] == PREFIX[..k]
  }

  ghost predicate LongestOverlap(stream: seq<byte>, k: nat)
  {
    k <= |PREFIX| && EndsWithPrefix(stream, k) && forall j | k < j <= |PREFIX| :: !EndsWithPrefix(stream, j)
  }

  /** ESC opens the prefix and occurs nowhere else in it, so overlaps do not nest. */
  lemma OverlapsDoNotNest(stream: seq<byte>, k: nat, j: nat)
    requires j <= k <= |PREFIX| && EndsWithPrefix(stream, k) && EndsWithPrefix(stream, j)
    ensures j == 0 || j == k
  {
    if 0 < j {
      assert stream[|stream| - j] == stream[|stream| - j..][0] == PREFIX[0];
      assert stream[|stream| - j] == stream[|stream| - k..][k - j] == PREFIX[k - j];
    }
  }

  lemma OverlapExtends(stream: seq<byte>, b: byte, k: nat)
    requires k < |PREFIX|
    ensures EndsWithPrefix(stream + [b], k + 1) <==> EndsWithPrefix(stream, k) && b == PREFIX[k]
  {
    var longer := stream + [b];
    if k <= |stream| {
      assert longer[|longer| - (k + 1)..] == stream[|stream| - k..] + [b];
      assert PREFIX[..k + 1] == PREFIX[..k] + [PREFIX[k]];
      if longer[|longer| - (k + 1)..] == PREFIX[..k + 1] {
        assert longer[|longer| - (k + 1)..][..k] == PREFIX[..k + 1][..k];
        assert longer[|longer| - (k + 1)..][k] == PREFIX[..k + 1][k];
      }
    }
  }

  lemma OverlapStep(stream: seq<byte>, m: Modes, b: byte)
    requires ValidModes(m) && LongestOverlap(stream, m.prefixLen)
    ensures LongestOverlap(stream + [b], Step(m, b).prefixLen)
  {
    var longer, next := stream + [b], Step(m, b).prefixLen;
    forall j | 0 < j <= |PREFIX|
      ensures EndsWithPrefix(longer, j) <==>
        ((j == 1 && b == PREFIX[0]) || (j == m.prefixLen + 1 && b == PREFIX[m.prefixLen]))
    {
      OverlapExtends(stream, b, j - 1);
      if EndsWithPrefix(stream, j - 1) && j - 1 <= m.prefixLen {
        OverlapsDoNotNest(stream, m.prefixLen, j - 1);
      }
    }
    assert EndsWithPrefix(longer, 0);
  }

  /** A new byte completes a switch exactly at the end, after a complete prefix. */
  lemma SwitchStep(stream: seq<byte>, b: byte, i: int, on: bool)
    ensures SwitchAt(stream + [b], i, on) <==>
      (SwitchAt(stream, i, on) || (i == |stream| - |PREFIX| && EndsWithPrefix(stream, |PREFIX|) && b == Final(on)))
  {
    var longer := stream + [b];
    var pattern := PREFIX + [Final(on)];
    if 0 <= i && i + |pattern| <= |stream| {
      assert longer[i..i + |pattern|] == stream[i..i + |pattern|];
    } else if 0 <= i && i + |pattern| == |longer| {
      assert longer[i..i + |pattern|] == stream[i..] + [b];
      assert PREFIX[..|PREFIX|] == PREFIX;
      if longer[i..i + |pattern|] == pattern {
        assert (stream[i..] + [b])[..|PREFIX|] == pattern[..|PREFIX|];
        assert (stream[i..] + [b])[|PREFIX|] == pattern[|PREFIX|];
      }
    }
  }

  /** After any stream the flag is the direction of its last complete switch. */
  lemma {:induction false} TrackFindsLastSwitch(stream: seq<byte>)
    ensures Track(FRESH, stream).alternate <==> LastSwitchEnters(stream)
    ensures LongestOverlap(stream, Track(FRESH, stream).prefixLen)
  {
    if stream == [] {
      assert EndsWithPrefix([], 0);
    } else {
      var before, b := stream[..|stream| - 1], stream[|stream| - 1];
      assert stream == before + [b];
      TrackFindsLastSwitch(before);
      var m := Track(FRESH, before);
      OverlapStep(before, m, b);
      FlagStep(before, m, b);
    }
  }

  lemma FlagStep(before: seq<byte>, m: Modes, b: byte)
    requires ValidModes(m) && LongestOverlap(before, m.prefixLen)
    requires m.alternate <==> LastSwitchEnters(before)
    ensures Step(m, b).alternate <==> LastSwitchEnters(before + [b])
  {
    var stream, end := before + [b], |before| - |PREFIX|;
    forall i, on
      ensures SwitchAt(stream, i, on) <==>
        (SwitchAt(before, i, on) || (i == end && m.prefixLen == |PREFIX| && b == Final(on)))
    {
      SwitchStep(before, b, i, on);
    }
    if m.prefixLen == |PREFIX| && (b == ENTER || b == LEAVE) {
      assert SwitchAt(stream, end, b == ENTER);
      if b == ENTER {
        assert forall j, on | j > end :: !SwitchAt(stream, j, on);
      }
    } else {
      assert forall i, on :: SwitchAt(stream, i, on) <==> SwitchAt(before, i, on);
      if LastSwitchEnters(before) {
        var i :| SwitchAt(before, i, true) && forall j, on | j > i :: !SwitchAt(before, j, on);
        assert SwitchAt(stream, i, true);
      }
      if LastSwitchEnters(stream) {
        var i :| SwitchAt(stream, i, true) && forall j, on | j > i :: !SwitchAt(stream, j, on);
        assert SwitchAt(before, i, true);
      }
    }
  }

  // ---------------------------------------------------------------------
  // Cursor position requests.

  const CURSOR_REQUEST: seq<byte> := [27, 91, 54, 110] // ESC [ 6 n

  /** A substring search. */
  predicate Contains(s: seq<byte>, pattern: seq<byte>)
  {
    |s| >= |pattern| && (s[..|pattern|] == pattern || (s != [] && Contains(s[1..], pattern)))
  }

  lemma {:induction false} ContainsFinds(s: seq<byte>, pattern: seq<byte>)
    ensures Contains(s, pattern) <==> exists i :: OccursAt(s, pattern, i)
  {
    if |s| >= |pattern| {
      if s[..|pattern|] == pattern {
        assert OccursAt(s, pattern, 0);
      } else if s != [] {
        ContainsFinds(s[1..], pattern);
        OccurrenceInRest(s, pattern);
      }
    }
  }

  lemma OccurrenceInRest(s: seq<byte>, pattern: seq<byte>)
    requires s != [] && !OccursAt(s, pattern, 0)
    ensures (exists i :: OccursAt(s, pattern, i)) <==> exists i :: OccursAt(s[1..], pattern, i)
  {
    if i :| OccursAt(s, pattern, i) {
      OccurrenceShifts(s, pattern, 1, i - 1);
    }
    if i :| OccursAt(s[1..], pattern, i) {
      OccurrenceShifts(s, pattern, 1, i);
    }
  }

  lemma OccurrenceShifts(s: seq<byte>, pattern: seq<byte>, k: nat, i: nat)
    requires k <= |s|
    ensures OccursAt(s[k..], pattern, i) <==> OccursAt(s, pattern, k + i)
  {
    if k + i + |pattern| <= |s| {
      assert s[k..][i..i + |pattern|] == s[k + i..k + i + |pattern|];
    }
  }

  /** `contains_cursor_report_request`: one byte scan for ESC, then a search from there. */
  predicate ContainsCursorRequest(bytes: seq<byte>)
  {
    var start := IndexOf(bytes, ESC);
    start < |bytes| && Contains(bytes[start..], CURSOR_REQUEST)
  }

  /** Starting the search at the first ESC misses no request. */
  lemma CursorRequestFound(bytes: seq<byte>)
    ensures ContainsCursorRequest(bytes) <==> exists i :: OccursAt(bytes, CURSOR_REQUEST, i)
  {
    EscapeStartsRequest(bytes);
    ContainsFinds(bytes[IndexOf(bytes, ESC)..], CURSOR_REQUEST);
  }

  lemma EscapeStartsRequest(bytes: seq<byte>)
    ensures var start := IndexOf(bytes, ESC);
      (exists i :: OccursAt(bytes, CURSOR_REQUEST, i))
      <==> start < |bytes| && exists i :: OccursAt(bytes[start..], CURSOR_REQUEST, i)
  {
    var start := IndexOf(bytes, ESC);
    if i :| OccursAt(bytes, CURSOR_REQUEST, i) {
      assert bytes[i] == bytes[i..i + |CURSOR_REQUEST|][0] == ESC;
      assert forall j | 0 <= j < start :: bytes[..start][j] == bytes[j];
      assert i >= start;
      OccurrenceShifts(bytes, CURSOR_REQUEST, start, i - start);
    }
    if start < |bytes| {
      if i :| OccursAt(bytes[start..], CURSOR_REQUEST, i) {
        OccurrenceShifts(bytes, CURSOR_REQUEST, start, i);
      }
    }
  }

  /** Packets of a list that ask for a cursor report. */
  function CountRequests(packets: seq<seq<byte>>): nat
  {
    if packets == [] then 0
    else CountRequests(packets[..|packets| - 1]) + (if ContainsCursorRequest(packets[|packets| - 1]) then 1 else 0)
  }

  lemma CountRequestsSnoc(packets: seq<seq<byte>>, packet: seq<byte>)
    ensures CountRequests(packets + [packet])
         == CountRequests(packets) + if ContainsCursorRequest(packet) then 1 else 0
  {
    assert (packets + [packet])[..|packets|] == packets;
  }
}
