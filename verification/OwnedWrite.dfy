/**
  Submitting a packet across reconnects (`client_terminal.rs`, with the
  admission half of `connection.rs`): whatever fails in between, the replay
  log takes the packet at most once, and exactly once when the call succeeds.
 */
module OwnedWrite {
  import opened Bytes
  import opened Replay
  import Stream = Reconnect

  /** Packet type of a terminal size report. */
  const TERMINAL_INFO: byte := 2

  datatype ConnError = Io | Backpressure

  /** `connection_ended`: worth a reconnect. */
  predicate Ended(error: ConnError)
  {
    error.Io?
  }

  datatype Submitted = Accepted | BeforeReplay(error: ConnError) | ReplayOwned(error: ConnError)

  datatype Reconnected = Recovered | SessionEnded | Fatal

  /** What the connection was asked and answered. */
  datatype Deed = Submit(packet: Packet, answer: Submitted) | Attempt(outcome: Reconnected) | Sized(size: Option<Packet>)

  /** A refusal no reconnect can mend, or a reconnect that cannot succeed. */
  predicate GivesUp(deed: Deed)
  {
    match deed
    case Submit(_, answer) => !answer.Accepted? && !Ended(answer.error)
    case Attempt(outcome) => outcome.Fatal?
    case Sized(_) => false
  }

  /** A submission the connection did not survive. */
  predicate Lost(deed: Deed)
  {
    deed.Submit? && !deed.answer.Accepted? && Ended(deed.answer.error)
  }

  /** How much of a started frame the kernel has taken, or that the transport is gone. */
  datatype Progress = Whole | Part | Torn

  /** What the transport answered: to a probe, to a blocking write, to a write that may stop short. */
  datatype Transfer = Probed(dead: bool) | Sent(whole: bool) | Advanced(progress: Progress)

  /** The transport's `n`th answer was that the peer is gone. */
  predicate Dead(transfers: seq<Transfer>, n: nat)
  {
    n < |transfers| && transfers[n] == Probed(true)
  }

  /** What the transport must have answered for a started frame to end up so. */
  function ProgressOf(answer: Submitted, pending: bool): Progress
  {
    if answer.ReplayOwned? then Torn else if pending then Part else Whole
  }

  class Connection {
    const writer: BackedWriter
    /** On Windows a failed probe refuses the packet; elsewhere it only disconnects. */
    const windows: bool
    /** A frame the kernel has taken only part of. */
    var pendingLive: bool
    /** Every packet submitted so far, taken or not, and the transports recovered. */
    ghost var submissions: seq<Packet>
    ghost var reconnects: nat
    /** All of that in order, with the answers. */
    ghost var deeds: seq<Deed>
    /** What the transport answered, in order. */
    ghost var transfers: seq<Transfer>

    constructor (windows: bool)
      ensures Valid() && fresh(writer) && this.windows == windows && Log() == [] && writer.connected && !pendingLive
      ensures submissions == [] && reconnects == 0 && deeds == [] && transfers == []
    {
      this.windows := windows;
      writer := new BackedWriter(true);
      pendingLive := false;
      submissions, reconnects, deeds, transfers := [], 0, [], [];
    }

    ghost predicate Valid()
      reads this, writer
    {
      writer.Valid()
    }

    /** The packets the replay buffer has taken, in order. */
    ghost function Log(): seq<Packet>
      reads writer`log
    {
      Stream.PacketsOf(writer.log)
    }

    /** A disconnected writer could still buffer the packet. */
    ghost predicate HasRoom(packet: Packet)
      reads writer
    {
      && writer.disconnectedBytes + HEADER_LEN + |packet.payload| <= DISCONNECT_BUFFER_BYTES
      && writer.disconnectedPackets < MAX_DISCONNECT_PACKETS
      && writer.backupSize + HEADER_LEN + |packet.payload| + MAC_LEN <= MAX_RECOVERY_BACKUP_BYTES
    }

    method Disconnect()
      requires Valid()
      modifies this`pendingLive, writer`connected
      ensures Valid() && !writer.connected && !pendingLive
    {
      pendingLive := false;
      writer.Invalidate();
    }

    /** Whether the peer has closed its end; the answer is the transport's. */
    method Probe() returns (dead: bool)
      modifies this`transfers
      ensures transfers == old(transfers) + [Probed(dead)]
    {
      dead :| true;
      transfers := transfers + [Probed(dead)];
    }

    /** A blocking write of one frame; the answer is the transport's. */
    method SendFrame() returns (whole: bool)
      modifies this`transfers
      ensures transfers == old(transfers) + [Sent(whole)]
    {
      whole :| true;
      transfers := transfers + [Sent(whole)];
    }

    /** A write that takes what the kernel will; the answer is the transport's. */
    method SendSome() returns (progress: Progress)
      modifies this`transfers
      ensures transfers == old(transfers) + [Advanced(progress)]
    {
      progress :| true;
      transfers := transfers + [Advanced(progress)];
    }

    /** `prepare_write_packet`: everything up to the moment the replay buffer has the packet. */
    method Prepare(packet: Packet, probed: bool) returns (refusal: Option<ConnError>, live: bool)
      requires Valid()
      modifies this, writer
      ensures Valid() && submissions == old(submissions) + [packet] && reconnects == old(reconnects) && deeds == old(deeds)
      ensures if old(pendingLive) || !probed then transfers == old(transfers)
        else transfers == old(transfers) + [Probed(Dead(transfers, |old(transfers)|))]
      ensures writer.connected <==> old(writer.connected) && !Dead(transfers, |old(transfers)|)
      ensures refusal == Some(Io) <==> windows && Dead(transfers, |old(transfers)|)
      ensures refusal == Some(Backpressure) <==>
        old(pendingLive) || (refusal != Some(Io) && !writer.connected && !old(HasRoom(packet)))
      ensures Log() == old(Log()) + if refusal.None? then [packet] else []
      ensures live <==> refusal.None? && writer.connected
      ensures pendingLive == old(pendingLive)
    {
      hide WireBytes, BeyondHardCap, BeyondConnectedCap, BackedWriter.Holds, BackedWriter.Justified, BackedWriter.Floor;
      live := false;
      submissions := submissions + [packet];
      if pendingLive {
        return Some(Backpressure), false;
      }
      if probed {
        var dead := Probe();
        if dead {
          Disconnect();
          if windows {
            return Some(Io), false;
          }
        }
      }
      var outcome := writer.WritePacket(packet);
      if outcome.Skipped? {
        return Some(Backpressure), false;
      }
      LoggedOnce(old(writer.log), writer.log, packet);
      refusal, live := None, outcome.Send?;
    }

    /** `write_packet_owned`: a failure says whether the replay buffer already has the packet. */
    method WritePacketOwned(packet: Packet) returns (answer: Submitted)
      requires Valid()
      modifies this, writer
      ensures Valid() && submissions == old(submissions) + [packet] && reconnects == old(reconnects)
      ensures deeds == old(deeds) + [Submit(packet, answer)] && pendingLive == old(pendingLive)
      ensures old(pendingLive) ==> transfers == old(transfers)
      ensures !old(pendingLive) ==>
        var dead := Dead(transfers, |old(transfers)|);
        transfers == old(transfers) + [Probed(dead)] + if old(writer.connected) && !dead then [Sent(answer.Accepted?)] else []
      ensures answer == BeforeReplay(Io) <==> windows && Dead(transfers, |old(transfers)|)
      ensures answer == BeforeReplay(Backpressure) <==>
        old(pendingLive) || (answer != BeforeReplay(Io) && !writer.connected && !answer.ReplayOwned? && !old(HasRoom(packet)))
      ensures answer.ReplayOwned? ==> answer == ReplayOwned(Io) && old(writer.connected)
      ensures writer.connected <==> old(writer.connected) && !Dead(transfers, |old(transfers)|) && !answer.ReplayOwned?
      ensures Log() == old(Log()) + if answer.BeforeReplay? then [] else [packet]
    {
      hide BackedWriter.Valid;
      var refusal, live := Prepare(packet, true);
      assert refusal.Some? ==> refusal.value.Io? || refusal.value.Backpressure?;
      ghost var answered := transfers;
      answer := if refusal.Some? then BeforeReplay(refusal.value) else Accepted;
      if live {
        var whole := SendFrame();
        if !whole {
          Disconnect();
          answer := ReplayOwned(Io);
        }
      }
      assert !live ==> transfers == answered + [];
      assert Dead(transfers, |old(transfers)|) == Dead(answered, |old(transfers)|);
      deeds := deeds + [Submit(packet, answer)];
    }

    /** `start_write_packet_owned` and its unprobed form: admit the packet and start sending it. */
    method StartWritePacketOwned(packet: Packet, probed: bool) returns (answer: Submitted)
      requires Valid()
      modifies this, writer
      ensures Valid() && submissions == old(submissions) + [packet] && reconnects == old(reconnects)
      ensures deeds == old(deeds) + [Submit(packet, answer)]
      ensures old(pendingLive) ==> transfers == old(transfers) && pendingLive
      ensures !old(pendingLive) ==>
        var dead := Dead(transfers, |old(transfers)|);
        && transfers == old(transfers) + (if probed then [Probed(dead)] else [])
          + (if old(writer.connected) && !dead then [Advanced(ProgressOf(answer, pendingLive))] else [])
        && (pendingLive ==> old(writer.connected) && !dead && answer.Accepted?)
      ensures answer == BeforeReplay(Io) <==> windows && Dead(transfers, |old(transfers)|)
      ensures answer == BeforeReplay(Backpressure) <==>
        old(pendingLive) || (answer != BeforeReplay(Io) && !writer.connected && !answer.ReplayOwned? && !old(HasRoom(packet)))
      ensures answer.ReplayOwned? ==> answer == ReplayOwned(Io) && old(writer.connected)
      ensures writer.connected <==> old(writer.connected) && !Dead(transfers, |old(transfers)|) && !answer.ReplayOwned?
      ensures Log() == old(Log()) + if answer.BeforeReplay? then [] else [packet]
    {
      hide BackedWriter.Valid;
      var refusal, live := Prepare(packet, probed);
      assert refusal.Some? ==> refusal.value.Io? || refusal.value.Backpressure?;
      ghost var answered := transfers;
      answer := if refusal.Some? then BeforeReplay(refusal.value) else Accepted;
      if refusal.None? {
        pendingLive := live;
        var broken := AdvanceWrite();
        answer := if broken then ReplayOwned(Io) else Accepted;
      }
      assert !live ==> transfers == answered + [];
      assert !probed ==> answered == old(transfers) + [];
      assert Dead(transfers, |old(transfers)|) == Dead(answered, |old(transfers)|);
      deeds := deeds + [Submit(packet, answer)];
    }

    /** `advance_write`: the kernel takes the rest of the frame, part of it, or the transport is gone. */
    method AdvanceWrite() returns (broken: bool)
      requires Valid()
      modifies this`pendingLive, this`transfers, writer`connected
      ensures Valid()
      ensures !old(pendingLive) ==> !broken && !pendingLive && transfers == old(transfers)
      ensures old(pendingLive) ==>
        transfers == old(transfers) + [Advanced(ProgressOf(if broken then ReplayOwned(Io) else Accepted, pendingLive))]
      ensures writer.connected <==> old(writer.connected) && !broken
      ensures broken ==> !pendingLive
    {
      broken := false;
      if pendingLive {
        var progress := SendSome();
        match progress {
          case Whole =>
            pendingLive := false;
          case Part =>
          case Torn =>
            Disconnect();
            broken := true;
        }
      }
    }

    /** A reconnect attempt replays the log to the peer; it never changes it. */
    method Reconnect() returns (outcome: Reconnected)
      requires Valid()
      modifies this, writer
      ensures Valid() && writer.log == old(writer.log) && submissions == old(submissions)
      ensures outcome.Recovered? ==> writer.connected && !pendingLive
      ensures reconnects == old(reconnects) + if outcome.Recovered? then 1 else 0
      ensures deeds == old(deeds) + [Attempt(outcome)]
    {
      if * {
        pendingLive := false;
        reconnects := reconnects + 1;
        writer.Revive();
        outcome := Reconnected.Recovered;
      } else if * {
        outcome := SessionEnded;
      } else {
        outcome := Fatal;
      }
      deeds := deeds + [Attempt(outcome)];
    }

    /** The local window size, when there is one to report. */
    method ObserveSize() returns (size: Option<Packet>)
      modifies this`deeds
      ensures size.Some? ==> size.value.header == TERMINAL_INFO
      ensures deeds == old(deeds) + [Sized(size)]
    {
      size := None;
      if * {
        var payload: seq<byte> :| true;
        size := Some(Packet(TERMINAL_INFO, payload));
      }
      deeds := deeds + [Sized(size)];
    }
  }

  lemma LoggedOnce(before: seq<Frame>, after: seq<Frame>, packet: Packet)
    requires after == before + [Frame(|before|, packet)]
    ensures Stream.PacketsOf(after) == Stream.PacketsOf(before) + [packet]
  {
  }

  /** How a call ends; `Unfinished` is a call still retrying when the run is cut off. */
  datatype Recovery = Live | Over | Failed | Unfinished

  ghost predicate Sizes(packets: seq<Packet>)
  {
    forall i | 0 <= i < |packets| :: packets[i].header == TERMINAL_INFO
  }

  /** Since `n` submissions ago only size reports were submitted. */
  ghost predicate OnlySizesSince(submissions: seq<Packet>, n: nat)
  {
    n <= |submissions| && Sizes(submissions[n..])
  }

  /** What is done after `deed` while reconnecting: a recovery asks for the size, a size is sent, a lost one reconnects. */
  predicate LeadsTo(deed: Deed, next: Deed)
  {
    match deed
    case Attempt(outcome) => outcome.Recovered? && next.Sized?
    case Sized(size) => size.Some? && next.Submit? && next.packet == size.value
    case Submit(_, _) => Lost(deed) && next.Attempt?
  }

  /** From `from` on each deed leads to the next, and the first is an attempt. */
  ghost predicate Reconnecting(deeds: seq<Deed>, from: nat)
  {
    && (from < |deeds| ==> deeds[from].Attempt?)
    && forall k | from <= k < |deeds| - 1 :: LeadsTo(deeds[k], deeds[k + 1])
  }

  /** From `from` on, nothing was done after giving up or after the session's end. */
  ghost predicate GoesOn(deeds: seq<Deed>, from: nat)
  {
    forall k | from <= k < |deeds| - 1 :: !GivesUp(deeds[k]) && deeds[k] != Attempt(SessionEnded)
  }

  lemma ReconnectingMore(deeds: seq<Deed>, from: nat, next: Deed)
    requires Reconnecting(deeds, from) && from <= |deeds|
    requires if |deeds| == from then next.Attempt? else LeadsTo(deeds[|deeds| - 1], next)
    ensures Reconnecting(deeds + [next], from)
  {
    var more := deeds + [next];
    assert forall k | 0 <= k < |deeds| :: more[k] == deeds[k];
  }

  lemma ReconnectingJoins(before: seq<Deed>, deeds: seq<Deed>, from: nat)
    requires before <= deeds && from <= |before| < |deeds| && Reconnecting(before, from) && Reconnecting(deeds, |before|)
    requires |before| > from ==> Lost(before[|before| - 1])
    ensures Reconnecting(deeds, from)
  {
    assert forall k | 0 <= k < |before| :: deeds[k] == before[k];
  }

  lemma ReconnectingGoesOn(before: seq<Deed>, deeds: seq<Deed>, from: nat)
    requires before <= deeds && from < |before| && GoesOn(before, from) && Lost(before[|before| - 1])
    requires Reconnecting(deeds, |before|)
    ensures GoesOn(deeds, from)
  {
    assert forall k | 0 <= k < |before| :: deeds[k] == before[k];
    forall k | from <= k < |deeds| - 1 ensures !GivesUp(deeds[k]) && deeds[k] != Attempt(SessionEnded) {
      if k >= |before| {
        assert LeadsTo(deeds[k], deeds[k + 1]);
      }
    }
  }

  /** The packet was submitted first, and every deed but perhaps the last left something to do. */
  ghost predicate Tried(deeds: seq<Deed>, from: nat, packet: Packet)
  {
    GoesOn(deeds, from) && (from < |deeds| ==> deeds[from].Submit? && deeds[from].packet == packet)
  }

  /** As before, and so did the last. */
  ghost predicate Trying(deeds: seq<Deed>, from: nat, packet: Packet)
  {
    && Tried(deeds, from, packet)
    && (from < |deeds| ==> !GivesUp(deeds[|deeds| - 1]) && deeds[|deeds| - 1] != Attempt(SessionEnded))
  }

  lemma TryingMore(deeds: seq<Deed>, from: nat, packet: Packet, answer: Submitted)
    requires Trying(deeds, from, packet) && from <= |deeds|
    ensures Tried(deeds + [Submit(packet, answer)], from, packet)
  {
    GoesOnMore(deeds, from, Submit(packet, answer));
  }

  lemma TryingOn(before: seq<Deed>, deeds: seq<Deed>, from: nat, packet: Packet)
    requires before <= deeds && from < |before| && Tried(before, from, packet) && Lost(before[|before| - 1])
    requires Reconnecting(deeds, |before|)
    ensures Tried(deeds, from, packet)
  {
    ReconnectingGoesOn(before, deeds, from);
  }

  lemma GoesOnMore(deeds: seq<Deed>, from: nat, next: Deed)
    requires GoesOn(deeds, from) && from <= |deeds|
    requires |deeds| > from ==> !GivesUp(deeds[|deeds| - 1]) && deeds[|deeds| - 1] != Attempt(SessionEnded)
    ensures GoesOn(deeds + [next], from)
  {
    var more := deeds + [next];
    assert forall k | 0 <= k < |deeds| :: more[k] == deeds[k];
  }

  /**
    `recover_transport`: reconnect until a size report has been admitted, or
    none can be made. One call submits nothing but size reports, admits at
    most one, and only when asked to and after a recovery. What was done last
    decides how it ends, and it goes on as long as that leads to something.
   */
  method RecoverTransport(c: Connection, sendSize: bool, attempts: nat) returns (outcome: Recovery, ghost sizes: seq<Packet>)
    requires c.Valid()
    modifies c, c.writer
    ensures c.Valid() && c.Log() == old(c.Log()) + sizes && Sizes(sizes)
    ensures |sizes| <= 1 && |sizes| <= c.reconnects - old(c.reconnects)
    ensures old(c.submissions) <= c.submissions && OnlySizesSince(c.submissions, |old(c.submissions)|)
    ensures !sendSize ==> sizes == [] && c.submissions == old(c.submissions)
    ensures outcome.Live? ==> c.reconnects > old(c.reconnects)
    ensures old(c.reconnects) <= c.reconnects
    ensures old(c.deeds) <= c.deeds && Reconnecting(c.deeds, |old(c.deeds)|)
    ensures |c.deeds| > |old(c.deeds)| <==> attempts > 0
    ensures attempts == 0 ==> outcome.Unfinished?
    ensures attempts > 0 ==>
      var last := c.deeds[|c.deeds| - 1];
      && (outcome.Failed? <==> GivesUp(last)) && (outcome.Over? <==> last == Attempt(SessionEnded))
      && (outcome.Unfinished? <==> Lost(last))
      && (outcome.Live? && last.Attempt? ==> !sendSize || sizes != []) && (last.Sized? ==> last.size.None?)
    ensures outcome.Unfinished? ==> |c.deeds| - |old(c.deeds)| >= attempts
  {
    hide BackedWriter.Valid, Stream.PacketsOf, Reconnecting, OnlySizesSince, Sizes;
    NothingDone(c.deeds);
    NothingSince(c.submissions);
    NoSizes();
    sizes := [];
    var left, owned := attempts, false;
    assert c.Log() + [] == c.Log();
    while left > 0
      invariant c.Valid() && c.Log() == old(c.Log()) + sizes
      invariant |sizes| <= 1 && Sizes(sizes) && (sizes != [] <==> owned)
      invariant |sizes| <= c.reconnects - old(c.reconnects)
      invariant old(c.submissions) <= c.submissions && OnlySizesSince(c.submissions, |old(c.submissions)|)
      invariant !sendSize ==> sizes == [] && c.submissions == old(c.submissions)
      invariant old(c.deeds) <= c.deeds && Reconnecting(c.deeds, |old(c.deeds)|)
      invariant 0 <= left <= attempts && |c.deeds| - |old(c.deeds)| >= attempts - left
      invariant |c.deeds| > |old(c.deeds)| ==> left < attempts && Lost(c.deeds[|c.deeds| - 1])
    {
      left := left - 1;
      ghost var done, sent := c.deeds, c.submissions;
      var verdict, more := RecoverOnce(c, sendSize && !owned);
      ReconnectingJoins(done, c.deeds, |old(c.deeds)|);
      SizesSince(sent, c.submissions, |old(c.submissions)|);
      assert old(c.Log()) + sizes + more == old(c.Log()) + (sizes + more);
      assert sizes + more == if sizes == [] then more else sizes;
      sizes := sizes + more;
      owned := owned || more != [];
      if verdict.Some? {
        return verdict.value, sizes;
      }
    }
    outcome := Unfinished;
  }

  lemma SizesSince(before: seq<Packet>, after: seq<Packet>, n: nat)
    requires before <= after && OnlySizesSince(before, n) && OnlySizesSince(after, |before|)
    ensures OnlySizesSince(after, n)
  {
    assert after[n..] == before[n..] + after[|before|..];
  }

  /** One attempt: what it ends with, if anything, and the size report it admitted. */
  method RecoverOnce(c: Connection, sendSize: bool) returns (verdict: Option<Recovery>, more: seq<Packet>)
    requires c.Valid()
    modifies c, c.writer
    ensures c.Valid() && c.Log() == old(c.Log()) + more && Sizes(more) && |more| <= 1
    ensures |more| <= c.reconnects - old(c.reconnects)
    ensures old(c.submissions) <= c.submissions && OnlySizesSince(c.submissions, |old(c.submissions)|)
    ensures !sendSize ==> more == [] && c.submissions == old(c.submissions)
    ensures old(c.deeds) <= c.deeds && |c.deeds| > |old(c.deeds)| && Reconnecting(c.deeds, |old(c.deeds)|)
    ensures var last := c.deeds[|c.deeds| - 1];
      && (verdict == Some(Failed) <==> GivesUp(last)) && (verdict == Some(Over) <==> last == Attempt(SessionEnded))
      && (verdict.None? <==> Lost(last)) && verdict != Some(Unfinished)
      && (verdict == Some(Live) && last.Attempt? ==> !sendSize) && (last.Sized? ==> last.size.None?)
    ensures verdict == Some(Live) ==> c.reconnects > old(c.reconnects)
  {
    hide BackedWriter.Valid, Stream.PacketsOf, Reconnecting;
    NothingDone(c.deeds);
    more := [];
    ghost var done := c.deeds;
    assert c.Log() + [] == c.Log();
    var connected := c.Reconnect();
    ReconnectingMore(done, |old(c.deeds)|, Attempt(connected));
    if connected.Fatal? {
      return Some(Failed), [];
    }
    if connected.SessionEnded? {
      return Some(Over), [];
    }
    if !sendSize {
      return Some(Live), [];
    }
    done := c.deeds;
    var size := c.ObserveSize();
    ReconnectingMore(done, |old(c.deeds)|, Sized(size));
    if size.None? {
      return Some(Live), [];
    }
    MoreSizes(c.submissions, |old(c.submissions)|, size.value);
    done := c.deeds;
    var answer := c.WritePacketOwned(size.value);
    ReconnectingMore(done, |old(c.deeds)|, Submit(size.value, answer));
    if !answer.BeforeReplay? {
      more := [size.value];
    }
    if answer.Accepted? {
      return Some(Live), more;
    }
    if !Ended(answer.error) {
      return Some(Failed), more;
    }
    if answer.BeforeReplay? {
      c.Disconnect();
    }
    verdict := None;
  }

  lemma NothingDone(deeds: seq<Deed>)
    ensures Reconnecting(deeds, |deeds|) && forall packet :: Tried(deeds, |deeds|, packet)
  {
  }

  lemma MoreSizes(submissions: seq<Packet>, n: nat, size: Packet)
    requires OnlySizesSince(submissions, n) && size.header == TERMINAL_INFO
    ensures OnlySizesSince(submissions + [size], n)
  {
    assert (submissions + [size])[n..] == submissions[n..] + [size];
  }

  datatype Policy = ExactPlaintext | ReplaceableTerminalSize

  datatype WriteOutcome = Written | WroteRecovered | WriteOver | WriteFailed | WriteUnfinished

  /** What one call left in the log: size reports, the packet if admitted, size reports. */
  datatype Traces = Traces(before: seq<Packet>, own: seq<Packet>, after: seq<Packet>)
  {
    ghost function Admitted(): seq<Packet>
    {
      before + own + after
    }
  }

  ghost predicate AtMostOnce(t: Traces, packet: Packet, recoveries: int)
  {
    && (t.own == [] || t.own == [packet])
    && Sizes(t.before) && Sizes(t.after)
    && (t.own == [] ==> t.after == [])
    && |t.before| + |t.after| <= recoveries
  }

  /**
    `write_owned_with_policy`. `ExactPlaintext` ends up in the log exactly
    once on success and at most once otherwise; a replaceable size is
    submitted once, and never again after a recovery. Beyond that each
    recovered transport admits at most one size report. The call fails exactly
    when a refusal was no ended connection or a reconnect was fatal, is over
    exactly when the session was, and else retries until it succeeds.
   */
  method WriteOwnedWithPolicy(c: Connection, packet: Packet, policy: Policy, sendSize: bool, attempts: nat)
    returns (outcome: WriteOutcome, ghost t: Traces)
    requires c.Valid()
    modifies c, c.writer
    ensures c.Valid() && c.Log() == old(c.Log()) + t.Admitted()
    ensures AtMostOnce(t, packet, c.reconnects - old(c.reconnects))
    ensures policy.ExactPlaintext? && (outcome.Written? || outcome.WroteRecovered?) ==> t.own == [packet]
    ensures outcome.Written? ==>
      && t == Traces([], [packet], []) && c.reconnects == old(c.reconnects)
      && c.submissions == old(c.submissions) + [packet]
    ensures outcome.WroteRecovered? ==> c.reconnects > old(c.reconnects)
    ensures policy.ReplaceableTerminalSize? && attempts > 0 ==>
      && old(c.submissions) + [packet] <= c.submissions
      && OnlySizesSince(c.submissions, |old(c.submissions)| + 1)
      && (t.own != [] ==> t.before == [])
    ensures !sendSize ==> t.before == [] && t.after == []
    ensures old(c.deeds) <= c.deeds && Tried(c.deeds, |old(c.deeds)|, packet)
    ensures |c.deeds| > |old(c.deeds)| <==> attempts > 0
    ensures attempts == 0 ==> outcome.WriteUnfinished?
    ensures attempts > 0 ==>
      var last := c.deeds[|c.deeds| - 1];
      && (outcome.WriteFailed? <==> GivesUp(last)) && (outcome.WriteOver? <==> last == Attempt(SessionEnded))
    ensures outcome.WriteUnfinished? ==> |c.deeds| - |old(c.deeds)| >= attempts
  {
    hide BackedWriter.Valid, Stream.PacketsOf, Sizes, OnlySizesSince, Tried;
    NoSizes();
    NothingDone(c.deeds);
    t := Traces([], [], []);
    var recovered, left := false, attempts;
    while left > 0
      invariant c.Valid() && c.Log() == old(c.Log()) + t.before
      invariant t.own == [] && t.after == [] && Sizes(t.before) && |t.before| <= c.reconnects - old(c.reconnects)
      invariant if recovered then c.reconnects > old(c.reconnects) else c.reconnects == old(c.reconnects) && t.before == []
      invariant !recovered ==> left == attempts && c.submissions == old(c.submissions)
      invariant policy.ReplaceableTerminalSize? ==> !recovered
      invariant !sendSize ==> t.before == []
      invariant 0 <= left <= attempts && old(c.deeds) <= c.deeds && Trying(c.deeds, |old(c.deeds)|, packet)
      invariant |c.deeds| - |old(c.deeds)| >= attempts - left
      invariant |c.deeds| > |old(c.deeds)| <==> left < attempts
    {
      left := left - 1;
      ghost var done := c.deeds;
      var tried, own, sizes := TryOnce(c, packet, sendSize, left);
      TriedMore(done, c.deeds, |old(c.deeds)|, packet);
      if own != [] {
        OwnInPlace(old(c.Log()), t.before, packet, sizes);
        t := t.(own := [packet], after := sizes);
        return if tried.Written? && recovered then WroteRecovered else tried, t;
      }
      SizesBefore(old(c.Log()), t.before, sizes);
      t := t.(before := t.before + sizes);
      if !tried.WroteRecovered? {
        return tried, t;
      }
      recovered := true;
      if policy.ReplaceableTerminalSize? {
        return WroteRecovered, t;
      }
    }
    outcome := WriteUnfinished;
  }

  /**
    Submit the packet and, if the connection does not survive that, recover it.
    `own` is the packet if the log took it, `sizes` what the recovery added.
   */
  method TryOnce(c: Connection, packet: Packet, sendSize: bool, attempts: nat)
    returns (outcome: WriteOutcome, own: seq<Packet>, ghost sizes: seq<Packet>)
    requires c.Valid()
    modifies c, c.writer
    ensures c.Valid() && c.Log() == old(c.Log()) + own + sizes && (own == [] || own == [packet])
    ensures Sizes(sizes) && |sizes| <= c.reconnects - old(c.reconnects) && (!sendSize ==> sizes == [])
    ensures old(c.submissions) + [packet] <= c.submissions && OnlySizesSince(c.submissions, |old(c.submissions)| + 1)
    ensures outcome.Written? ==>
      own == [packet] && sizes == [] && c.reconnects == old(c.reconnects) && c.submissions == old(c.submissions) + [packet]
    ensures outcome.WroteRecovered? ==> c.reconnects > old(c.reconnects)
    ensures OneTry(old(c.deeds), c.deeds, packet)
    ensures var last := c.deeds[|c.deeds| - 1];
      (outcome.WriteFailed? <==> GivesUp(last)) && (outcome.WriteOver? <==> last == Attempt(SessionEnded))
    ensures outcome.WriteUnfinished? ==> |c.deeds| - |old(c.deeds)| > attempts
  {
    hide BackedWriter.Valid, Stream.PacketsOf, Reconnecting, OnlySizesSince;
    own, sizes := [], [];
    NothingSince(c.submissions + [packet]);
    var answer := c.WritePacketOwned(packet);
    NothingDone(c.deeds);
    if !answer.BeforeReplay? {
      own := [packet];
    }
    assert old(c.Log()) + own + [] == old(c.Log()) + own && old(c.Log()) + [] == old(c.Log());
    if answer.Accepted? {
      return Written, own, [];
    }
    if !Ended(answer.error) {
      return WriteFailed, own, [];
    }
    if answer.BeforeReplay? {
      c.Disconnect();
    }
    var again;
    again, sizes := RecoverTransport(c, sendSize, attempts);
    outcome := Answer(again);
  }

  /** The packet was submitted, and reconnecting followed exactly if that lost the connection. */
  ghost predicate OneTry(before: seq<Deed>, after: seq<Deed>, packet: Packet)
  {
    && before < after && after[|before|].Submit? && after[|before|].packet == packet
    && Reconnecting(after, |before| + 1) && (|after| > |before| + 1 ==> Lost(after[|before|]))
  }

  lemma TriedMore(before: seq<Deed>, after: seq<Deed>, from: nat, packet: Packet)
    requires from <= |before| && Trying(before, from, packet) && OneTry(before, after, packet)
    ensures Tried(after, from, packet)
  {
    var submitted := after[..|before| + 1];
    assert submitted == before + [after[|before|]];
    TryingMore(before, from, packet, after[|before|].answer);
    if |after| > |before| + 1 {
      TryingOn(submitted, after, from, packet);
    } else {
      assert after == submitted;
    }
  }

  lemma NothingSince(submissions: seq<Packet>)
    ensures OnlySizesSince(submissions, |submissions|)
  {
  }

  function Answer(recovery: Recovery): WriteOutcome
  {
    match recovery
    case Live => WroteRecovered
    case Over => WriteOver
    case Failed => WriteFailed
    case Unfinished => WriteUnfinished
  }

  lemma NoSizes()
    ensures Sizes([])
  {
  }

  lemma OwnInPlace(log: seq<Packet>, before: seq<Packet>, packet: Packet, sizes: seq<Packet>)
    ensures log + before + [packet] + sizes == log + (before + [packet] + sizes)
  {
  }

  lemma SizesBefore(log: seq<Packet>, before: seq<Packet>, sizes: seq<Packet>)
    requires Sizes(before) && Sizes(sizes)
    ensures Sizes(before + sizes) && log + before + [] + sizes == log + (before + sizes)
    ensures log + (before + sizes) == log + ((before + sizes) + [] + [])
  {
  }
}
