/**
  The shared shell of a local session and the one passenger that may use it
  (`local_session.rs`).
 */
module Passengers {
  import opened Bytes
  import opened ExitMarkers
  import Framing
  import opened LocalQueue
  import opened Replay

  const MAX_CLIENTS := 16
  const HELLO := 1
  const EXIT := 0x8000_0004
  const OPENED := 0x8000_0006
  const FAILED_STATUS := 255

  // ---------------------------------------------------------------------
  // The shell as its users see it.

  /**
    Free, or held by one passenger: its peer, its marker if it runs a command,
    the packets the shell printed since, those of their bytes that reached the
    passenger, whether it failed, and whether nobody reads for it any more.
   */
  datatype Shell =
    | Free
    | Held(id: Option<nat>, marker: Option<seq<byte>>, packets: seq<seq<byte>>, flushed: seq<byte>, failed: bool, orphaned: bool)

  datatype ShellEvent =
    | Admitted(id: Option<nat>, marker: Option<seq<byte>>)
    | Heard(bytes: seq<byte>)
    | Flushed(bytes: seq<byte>)
    | Failed
    | Orphaned(id: Option<nat>)
    | Finished(id: Option<nat>, status: nat)
    | Left(id: Option<nat>)

  /** What of the printed packets is the passenger's to see. */
  ghost function Shown(marker: Option<seq<byte>>, packets: seq<seq<byte>>): seq<byte>
  {
    match marker
    case None => Flatten(packets)
    case Some(m) => ShownOf(m, packets)
  }

  /**
    A command is over when its own status line has been printed; its status is
    that line's, and 255 exactly if it failed. A terminal ends only by failing.
   */
  ghost predicate Earned(marker: Option<seq<byte>>, packets: seq<seq<byte>>, failed: bool, status: nat)
  {
    match marker
    case None => failed && status == FAILED_STATUS
    case Some(m) =>
      var found := ScanAll(m, packets).status;
      found.Some? && status == if failed then FAILED_STATUS else found.value
  }

  /** A passenger that reads has received all that is its to see. */
  ghost predicate Served(shell: Shell)
    requires shell.Held?
  {
    shell.orphaned || shell.flushed == Shown(shell.marker, shell.packets)
  }

  /** The shell is never shared, and a command's shell is not given up before the command's own status. */
  ghost function Next(shell: Shell, event: ShellEvent): Option<Shell>
  {
    match event
    case Admitted(id, marker) =>
      if shell == Free && (marker.Some? ==> Borderless(marker.value)) then Some(Held(id, marker, [], [], false, false)) else None
    case Heard(bytes) => Some(if shell == Free then Free else shell.(packets := shell.packets + [bytes]))
    case Flushed(bytes) => if shell.Held? then Some(shell.(flushed := shell.flushed + bytes)) else None
    case Failed => if shell.Held? then Some(shell.(failed := true, orphaned := true)) else None
    case Orphaned(id) => if shell.Held? && shell.id == id then Some(shell.(orphaned := true)) else None
    case Finished(id, status) =>
      if shell.Held? && shell.id == id && Earned(shell.marker, shell.packets, shell.failed, status) && Served(shell)
      then Some(Free) else None
    case Left(id) => if shell.Held? && shell.id == id && shell.marker.None? then Some(Free) else None
  }

  ghost function ShellAfter(trace: seq<ShellEvent>): Option<Shell>
  {
    if trace == [] then Some(Free) else
    match ShellAfter(trace[..|trace| - 1])
    case None => None
    case Some(shell) => Next(shell, trace[|trace| - 1])
  }

  lemma RunStep(trace: seq<ShellEvent>, event: ShellEvent, shell: Shell)
    requires ShellAfter(trace) == Some(shell)
    ensures ShellAfter(trace + [event]) == Next(shell, event)
  {
    assert (trace + [event])[..|trace|] == trace;
  }

  lemma {:induction false} PrefixRuns(trace: seq<ShellEvent>, n: nat)
    requires ShellAfter(trace).Some? && n <= |trace|
    ensures ShellAfter(trace[..n]).Some?
    decreases |trace|
  {
    if n < |trace| {
      PrefixRuns(trace[..|trace| - 1], n);
      assert trace[..|trace| - 1][..n] == trace[..n];
    } else {
      assert trace[..n] == trace;
    }
  }

  /** The packets the shell printed from event `i` on. */
  ghost function PacketsSince(trace: seq<ShellEvent>, i: nat): seq<seq<byte>>
    decreases |trace|
  {
    if |trace| <= i then []
    else PacketsSince(trace[..|trace| - 1], i) + match trace[|trace| - 1] case Heard(bytes) => [bytes] case _ => []
  }

  lemma PacketsSnoc(trace: seq<ShellEvent>, event: ShellEvent)
    ensures PacketsSince(trace + [event], 0) == PacketsSince(trace, 0) + if event.Heard? then [event.bytes] else []
  {
    assert (trace + [event])[..|trace|] == trace;
  }

  /** The bytes that reached the passenger from event `i` on. */
  ghost function FlushedSince(trace: seq<ShellEvent>, i: nat): seq<byte>
    decreases |trace|
  {
    if |trace| <= i then []
    else FlushedSince(trace[..|trace| - 1], i) + match trace[|trace| - 1] case Flushed(bytes) => bytes case _ => []
  }

  /** Whether a failure was among the events from `i` on. */
  ghost predicate FailedSince(trace: seq<ShellEvent>, i: nat)
  {
    exists k | i <= k < |trace| :: trace[k].Failed?
  }

  /** Whether the passenger failed or its peer left among the events from `i` on. */
  ghost predicate OrphanedSince(trace: seq<ShellEvent>, i: nat)
  {
    exists k | i <= k < |trace| :: trace[k].Failed? || trace[k].Orphaned?
  }

  /** The shell of whoever event `i` admitted, after all of `trace`. */
  ghost function HeldSince(trace: seq<ShellEvent>, i: nat): Shell
    requires i < |trace| && trace[i].Admitted?
  {
    Held(trace[i].id, trace[i].marker, PacketsSince(trace, i), FlushedSince(trace, i),
         FailedSince(trace, i), OrphanedSince(trace, i))
  }

  /** Event `i` admits somebody who keeps the shell to the end of `trace`. */
  ghost predicate Keeps(trace: seq<ShellEvent>, i: nat)
  {
    && i < |trace| && trace[i].Admitted?
    && forall j | i < j < |trace| :: !trace[j].Admitted? && !trace[j].Finished? && !trace[j].Left?
  }

  /** Event `k` ends what event `i` admitted, with the status that is due, and what was printed delivered. */
  ghost predicate EndsWith(trace: seq<ShellEvent>, i: nat, k: nat)
    requires i < k < |trace|
  {
    && Keeps(trace[..k], i) && trace[k].Finished? && trace[k].id == trace[i].id
    && Earned(trace[i].marker, PacketsSince(trace[..k], i), FailedSince(trace[..k], i), trace[k].status)
    && Served(HeldSince(trace[..k], i))
  }

  /** Whoever has the shell was admitted at some event, and has had what came since. */
  lemma {:induction false} Admission(trace: seq<ShellEvent>) returns (i: nat)
    requires ShellAfter(trace).Some? && ShellAfter(trace).value.Held?
    ensures Keeps(trace, i) && ShellAfter(trace).value == HeldSince(trace, i)
  {
    hide Earned, Served;
    var n := |trace| - 1;
    var was := trace[..n];
    if trace[n].Admitted? {
      i := n;
      assert PacketsSince(was, i) == [] && FlushedSince(was, i) == [];
    } else {
      i := Admission(was);
      assert forall j | i < j < n :: was[j] == trace[j];
      assert forall j | i <= j < n :: was[j].Failed? == trace[j].Failed? && was[j].Orphaned? == trace[j].Orphaned?;
      AdmissionStep(trace, i);
    }
  }

  lemma AdmissionStep(trace: seq<ShellEvent>, i: nat)
    requires i < |trace| - 1 && trace[i].Admitted?
    ensures var n := |trace| - 1;
      && (FailedSince(trace, i) <==> FailedSince(trace[..n], i) || trace[n].Failed?)
      && (OrphanedSince(trace, i) <==> OrphanedSince(trace[..n], i) || trace[n].Failed? || trace[n].Orphaned?)
  {
    var n := |trace| - 1;
    assert forall j | i <= j < n :: trace[..n][j] == trace[j];
  }

  /** In every run the protocol allows, each end is the end of its own admission, with the status that is due. */
  lemma EveryEndIsEarned(trace: seq<ShellEvent>, k: nat)
    requires ShellAfter(trace).Some? && k < |trace| && trace[k].Finished?
    ensures exists i: nat | i < k :: EndsWith(trace, i, k)
  {
    hide PacketsSince, FlushedSince, FailedSince, OrphanedSince, Earned, Served, Keeps;
    PrefixRuns(trace, k + 1);
    assert trace[..k + 1][..k] == trace[..k];
    var was := trace[..k];
    var i := Admission(was);
    KeptEvent(trace, k, i);
    assert EndsWith(trace, i, k);
  }

  lemma KeptEvent(trace: seq<ShellEvent>, k: nat, i: nat)
    requires k <= |trace| && Keeps(trace[..k], i)
    ensures i < k && trace[..k][i] == trace[i]
  {
  }

  /**
    In every run the protocol allows: between a marked command's admission and
    the next admission of anybody, that command's own status line was printed.
   */
  lemma {:induction false} NoneAdmittedBeforeOwnStatus(trace: seq<ShellEvent>, i: nat, j: nat, marker: seq<byte>)
    requires ShellAfter(trace).Some? && i < j < |trace|
    requires trace[i].Admitted? && trace[i].marker == Some(marker) && trace[j].Admitted?
    ensures exists k | i < k < j :: trace[k].Finished? && HasStatusLine(marker, Flatten(PacketsSince(trace[..k], i)))
  {
    hide Served, ScanAll, HasStatusLine;
    PrefixRuns(trace, i + 1);
    PrefixRuns(trace, j + 1);
    assert trace[..i + 1][..i] == trace[..i] && trace[..j + 1][..j] == trace[..j];
    assert PacketsSince(trace[..i], i) == [] && PacketsSince(trace[..i + 1], i) == [];
    var k := FirstFinish(trace, i, i + 1, j, marker);
    ScannedIsPrinted(marker, PacketsSince(trace[..k], i));
    assert trace[k].Finished?;
  }

  /** The command admitted at `i` has the shell before event `t`. */
  ghost predicate HoldsSince(trace: seq<ShellEvent>, i: nat, t: nat, marker: seq<byte>)
    requires i < t <= |trace| && trace[i].Admitted?
  {
    var shell := ShellAfter(trace[..t]);
    && shell.Some? && shell.value.Held? && shell.value.id == trace[i].id
    && shell.value.marker == Some(marker) && shell.value.packets == PacketsSince(trace[..t], i)
  }

  /** Until it finishes, the shell stays with the command admitted at `i`. */
  lemma {:induction false} FirstFinish(trace: seq<ShellEvent>, i: nat, t: nat, j: nat, marker: seq<byte>) returns (k: nat)
    requires i < t <= j < |trace| && ShellAfter(trace[..j + 1]).Some? && trace[j].Admitted?
    requires trace[i].Admitted? && HoldsSince(trace, i, t, marker)
    ensures t <= k < j && trace[k].Finished? && ScanAll(marker, PacketsSince(trace[..k], i)).status.Some?
    decreases j - t
  {
    hide Served, ScanAll;
    PrefixRuns(trace[..j + 1], t + 1);
    assert trace[..j + 1][..t + 1] == trace[..t + 1] && trace[..t + 1][..t] == trace[..t];
    if trace[t].Finished? {
      k := t;
    } else {
      k := FirstFinish(trace, i, t + 1, j, marker);
    }
  }

  lemma StatusLineStays(marker: seq<byte>, before: seq<byte>, stream: seq<byte>, after: seq<byte>, i: int, code: nat)
    requires StatusLineAt(marker, stream, i, code)
    ensures StatusLineAt(marker, before + stream + after, |before| + i, code)
  {
    var digits, cr :| Denotes(digits, code) && OccursAt(stream, marker + digits + LineEnd(cr), i);
    var line := marker + digits + LineEnd(cr);
    var all := before + stream + after;
    assert all[|before| + i..|before| + i + |line|] == stream[i..i + |line|];
    assert OccursAt(all, line, |before| + i);
  }

  ghost predicate HasOwnStatus(marker: seq<byte>, heard: seq<byte>, status: nat)
  {
    exists i :: StatusLineAt(marker, heard, i, status)
  }

  /** The status a scan reports is that of a status line in what was printed. */
  lemma {:induction false} ScanIsOwn(marker: seq<byte>, packets: seq<seq<byte>>)
    requires Borderless(marker)
    ensures var scan := ScanAll(marker, packets);
      && (exists before: seq<byte> :: before + scan.run == Flatten(packets))
      && (scan.status.Some? ==> HasOwnStatus(marker, Flatten(packets), scan.status.value))
    decreases |packets|
  {
    hide StatusOf, CutOf, StatusLineAt;
    if packets == [] {
      assert [] + [] == Flatten(packets);
    } else {
      var init, last := packets[..|packets| - 1], packets[|packets| - 1];
      assert packets == init + [last];
      ScanIsOwn(marker, init);
      FlattenAppend(init, [last]);
      FlattenOne(last);
      var scan := ScanAll(marker, init);
      var before: seq<byte> :| before + scan.run == Flatten(init);
      assert before + (scan.run + last) == Flatten(packets);
      OwnStatusNext(marker, before, scan.run + last, Flatten(init), last, scan.status);
      var all := Flatten(packets);
      if StatusOf(marker, scan.run + last).Some? {
        assert all + ScanAll(marker, packets).run == all;
      } else {
        assert before + ScanAll(marker, packets).run == all;
      }
    }
  }

  lemma OwnStatusNext(
      marker: seq<byte>, before: seq<byte>, stream: seq<byte>, heard: seq<byte>, last: seq<byte>, status: Option<nat>)
    requires Borderless(marker) && before + stream == heard + last
    requires status.Some? ==> HasOwnStatus(marker, heard, status.value)
    ensures StatusOf(marker, stream).Some? ==> HasOwnStatus(marker, heard + last, StatusOf(marker, stream).value)
    ensures status.Some? ==> HasOwnStatus(marker, heard + last, status.value)
  {
    hide CutOf, StatusOf, StatusLineAt;
    OutcomeOf(marker, stream);
    if StatusOf(marker, stream).Some? {
      StatusLineStays(marker, before, stream, [], CutOf(marker, stream), StatusOf(marker, stream).value);
      assert before + stream + [] == heard + last;
    }
    if status.Some? {
      var i :| StatusLineAt(marker, heard, i, status.value);
      StatusLineStays(marker, [], heard, last, i, status.value);
      assert [] + heard + last == heard + last;
    }
  }

  lemma ScannedIsPrinted(marker: seq<byte>, packets: seq<seq<byte>>)
    requires Borderless(marker) && ScanAll(marker, packets).status.Some?
    ensures HasStatusLine(marker, Flatten(packets))
  {
    hide ScanAll, StatusLineAt;
    ScanIsOwn(marker, packets);
    var i :| StatusLineAt(marker, Flatten(packets), i, ScanAll(marker, packets).status.value);
  }

  // ---------------------------------------------------------------------
  // The passenger.

  class Passenger {
    const peer: Option<nat>
    const marker: ExitMarker?
    var orphaned: bool
    var failed: bool
    var readInput: bool
    var queued: seq<byte>
    var status: Option<nat>
    /** What the shell printed since admission, and what of it has reached the passenger. */
    ghost var packets: seq<seq<byte>>
    ghost var flushed: seq<byte>

    ghost function MarkerText(): Option<seq<byte>>
    {
      if marker == null then None else Some(marker.marker)
    }

    /** The marker has seen every packet, and the status is its. */
    ghost predicate Scans()
      reads this`status, this`failed, this`packets, marker
    {
      if marker == null then status.Some? ==> failed && status == Some(FAILED_STATUS)
      else
        var scan := ScanAll(marker.marker, packets);
        marker.Valid() && marker.fed == scan.run && status == scan.status
    }

    ghost predicate Bounded()
      reads this`queued, this`failed, this`orphaned
    {
      |queued| <= Framing.MAX_REPLY && (failed ==> orphaned) && (orphaned ==> queued == [])
    }

    /** What has reached the passenger and what waits for it are what it is to see. */
    ghost predicate Shows()
      reads this`orphaned, this`flushed, this`queued, this`packets
    {
      orphaned || flushed + queued == Shown(MarkerText(), packets)
    }

    ghost predicate Valid()
      reads this, marker
    {
      Scans() && Bounded() && Shows()
    }

    constructor (peer: Option<nat>, marker: ExitMarker?)
      requires marker != null ==> marker.Valid() && marker.fed == []
      ensures Valid() && this.peer == peer && this.marker == marker && packets == [] && flushed == []
      ensures !failed && !orphaned && status.None? && queued == [] && readInput
    {
      this.peer, this.marker := peer, marker;
      orphaned, failed, readInput, queued, status := false, false, true, [], None;
      packets, flushed := [], [];
      new;
      if marker != null {
        NothingShown(marker.marker);
      }
    }

    /**
      `receive`: the marker looks for the status line even when nobody reads the
      output any more. The queue grows by what the passenger is to see, or the
      output does not fit.
     */
    method Receive(bytes: seq<byte>) returns (ok: bool)
      requires Valid()
      modifies this`queued, this`status, this`packets, marker
      ensures packets == old(packets) + [bytes] && Scans() && Bounded()
      ensures ok ==> Valid()
      ensures ok <==> orphaned || |Shown(MarkerText(), packets)| - |flushed| <= Framing.MAX_REPLY
      ensures !ok || orphaned ==> queued == old(queued)
    {
      hide ShownOf, ScanAll;
      var output := bytes;
      if marker != null {
        output := Scan(bytes);
      } else {
        TerminalShows(packets, bytes);
        packets := packets + [bytes];
      }
      ok := true;
      if orphaned {
        return;
      }
      assert flushed + queued + output == flushed + (queued + output);
      if |queued| + |output| > Framing.MAX_REPLY {
        return false;
      }
      queued := queued + output;
    }

    method Scan(bytes: seq<byte>) returns (output: seq<byte>)
      requires Scans() && marker != null
      modifies this`status, this`packets, marker
      ensures Scans() && packets == old(packets) + [bytes]
      ensures Shown(MarkerText(), packets) == Shown(MarkerText(), old(packets)) + output
    {
      hide CutOf, StatusOf, ScanAll, StreamOutcome, HoldsBack;
      ghost var m, fed := marker.marker, marker.fed;
      ReleasedIsCut(marker);
      ScanSnoc(m, packets, bytes);
      var found;
      output, found := marker.Consume(bytes);
      OutcomeIs(m, fed + bytes, old(marker.released) + output, found);
      packets := packets + [bytes];
      if found.Some? {
        status := found;
      }
      NothingShown(m);
    }

    /** `fail`: a marked command keeps the shell until its own status arrives. */
    method Fail()
      requires Scans() && Bounded()
      modifies this`failed, this`orphaned, this`readInput, this`queued, this`status
      ensures Valid() && failed && orphaned && queued == [] && !readInput
      ensures marker != null ==> status == old(status)
      ensures marker == null ==> status == Some(FAILED_STATUS)
    {
      failed, orphaned, readInput, queued := true, true, false, [];
      if marker == null {
        status := Some(FAILED_STATUS);
      }
    }

    /** End of input. */
    method CloseInput()
      requires Valid()
      modifies this`readInput
      ensures Valid() && !readInput
    {
      readInput := false;
    }

    /** The peer of a marked command is gone: nobody reads, the marker is still awaited. */
    method Orphan()
      requires Valid()
      modifies this`orphaned, this`readInput, this`queued
      ensures Valid() && orphaned && !readInput && queued == []
    {
      orphaned, readInput, queued := true, false, [];
    }
  }

  /** A terminal sees every byte. */
  lemma TerminalShows(packets: seq<seq<byte>>, bytes: seq<byte>)
    ensures Shown(None, packets + [bytes]) == Shown(None, packets) + bytes
  {
    FlattenAppend(packets, [bytes]);
    FlattenOne(bytes);
  }

  /** What a marker has released is what its scan shows. */
  lemma ReleasedIsCut(marker: ExitMarker)
    requires marker.Valid()
    ensures marker.released == marker.fed[..CutOf(marker.marker, marker.fed)]
  {
    hide CutOf;
    HeldBackStream(marker.marker, marker.fed, |marker.released|);
    OutcomeIs(marker.marker, marker.fed, marker.released, None);
  }

  /**
    What is printed after the status line is not always kept from the passenger:
    what follows in the line's own packet is, the next packet is not, if the
    passenger is still there. It is exactly the bytes before the first status
    line as long as no packet follows (`ExitMarkers.ShownUpToStatus`).
   */
  method LatePacketIsShown(key: seq<byte>, b: byte) returns (p: Passenger)
    requires COLON !in key && b != MarkerFor(key)[0]
    ensures p.Valid() && p.packets == [MarkerFor(key) + [48, 10] + [b], [b]]
    ensures p.status == Some(0) && FirstStatusLine(MarkerFor(key), Flatten(p.packets), 0, 0) && p.queued == [b]
  {
    hide CutOf, StatusOf, ScanAll, ShownOf, FirstStatusLine, MarkerFor;
    MarkerIsBorderless(key);
    var marker := new ExitMarker(MarkerFor(key));
    p := new Passenger(Some(1), marker);
    var line := MarkerFor(key) + [48, 10] + [b];
    LateShown(MarkerFor(key), b);
    var ok := p.Receive(line);
    assert p.packets == [line];
    ok := p.Receive([b]);
    assert p.packets == [line, [b]];
  }

  lemma LateShown(marker: seq<byte>, b: byte)
    requires Borderless(marker) && b != marker[0]
    ensures var line := marker + [48, 10] + [b];
      && ScanAll(marker, [line]) == Scanned([], [], Some(0)) && ShownOf(marker, [line]) == []
      && ScanAll(marker, [line, [b]]) == Scanned([b], [], Some(0)) && ShownOf(marker, [line, [b]]) == [b]
      && FirstStatusLine(marker, Flatten([line, [b]]), 0, 0)
  {
    hide CutOf, StatusOf, ScanAll, ScanNext, FirstStatusLine;
    var line := marker + [48, 10] + [b];
    ZeroLine(marker, [b]);
    OtherByte(marker, b);
    OneStatus(marker, line);
    ScannedNext(marker, [line], [b]);
    assert [line] + [[b]] == [line, [b]];
    NothingShown(marker);
    LateIsAfter(marker, b);
  }

  lemma OneStatus(marker: seq<byte>, line: seq<byte>)
    requires CutOf(marker, line) == 0 && StatusOf(marker, line).Some?
    ensures ScanAll(marker, [line]) == Scanned([], [], StatusOf(marker, line))
  {
    hide CutOf, StatusOf;
    assert [line][..0] == [];
    var start := ScanAll(marker, []);
    assert start.run + line == line && start.done + line[..0] == [];
    assert ScanAll(marker, [line]) == ScanNext(marker, start, line);
  }

  lemma ScannedNext(marker: seq<byte>, packets: seq<seq<byte>>, packet: seq<byte>)
    requires ScanAll(marker, packets).run == [] && StatusOf(marker, packet).None?
    ensures ScanAll(marker, packets + [packet]) == ScanAll(marker, packets).(run := packet)
  {
    hide CutOf, StatusOf, ScanAll;
    ScanSnoc(marker, packets, packet);
    assert [] + packet == packet;
  }

  lemma LateIsAfter(marker: seq<byte>, b: byte)
    requires marker != []
    ensures FirstStatusLine(marker, Flatten([marker + [48, 10] + [b], [b]]), 0, 0)
  {
    hide Judge, FirstStatusLine, Flatten, CutOf, StatusOf;
    var line, stream := marker + [48, 10] + [b], marker + [48, 10] + [b, b];
    FlattenAppend([line], [[b]]);
    FlattenOne(line);
    FlattenOne([b]);
    assert [line] + [[b]] == [line, [b]] && line + [b] == stream && stream[0..] == stream;
    ZeroLine(marker, [b, b]);
    FirstStatusFound(marker, stream, 0, 0);
  }

  /** A status line of zero, whatever follows. */
  lemma ZeroLine(marker: seq<byte>, rest: seq<byte>)
    requires marker != []
    ensures var stream := marker + [48, 10] + rest;
      Judge(marker, stream) == Status(0) && CutOf(marker, stream) == 0 && StatusOf(marker, stream) == Some(0)
  {
    var stream := marker + [48, 10] + rest;
    var tail: seq<byte> := [48, 10] + rest;
    assert stream[..|marker|] == marker && stream[|marker|..] == tail && stream[0..] == stream;
    assert IndexOf(tail, NEWLINE) == 1 by {
      assert tail[0] == 48 && tail[1] == NEWLINE;
    }
    assert tail[..1] == [48] && StripReturn([48]) == [48] && Decimal([48]) == 0;
  }

  lemma OtherByte(marker: seq<byte>, b: byte)
    requires marker != [] && b != marker[0]
    ensures CutOf(marker, [b]) == 1 && StatusOf(marker, [b]).None?
  {
    assert [b][1..] == [] && CutOf(marker, []) == 0;
    assert [b][..|[b]|] == [b] && [b][0] == b;
    assert Judge(marker, [b]) == Refuted;
    EmptyIsUndecided(marker);
  }
}
