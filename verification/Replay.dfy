/**
  The reconnecting stream: a writer that backs up every frame, a reader that
  accepts only the next one, and recovery between the two
  (`backed_writer.rs`, `backed_reader.rs`, `connection_recovery.rs`).
 */
module Replay {
  import opened Bytes

  const MAX_BACKUP_BYTES := 64 * 1024 * 1024
  const DISCONNECT_BUFFER_BYTES := 64 * 1024 * 1024
  const MAX_RECOVERY_BACKUP_BYTES := 76 * 1024 * 1024
  const MAX_BACKUP_PACKETS := 262_144
  const MAX_DISCONNECT_PACKETS := 262_144
  const CONNECTED_BACKUP_BYTES := 8 * 1024 * 1024
  const CONNECTED_BACKUP_PACKETS := 32_768
  const ACK_RETAIN_SLACK_PACKETS := 1024
  const ACK_RETAIN_SLACK_BYTES := 256 * 1024
  const ACK_RETAIN_FLOOR_PACKETS := 16
  const HEADER_LEN := 2
  const MAC_LEN := 16
  const MAX_WIRE_SEQUENCE := 0x7fff_ffff

  datatype Packet = Packet(header: byte, payload: seq<byte>)

  /** A packet sealed under a nonce: it opens under that nonce and no other. */
  datatype Frame = Frame(nonce: nat, packet: Packet)

  /** Wire length of a frame, without its length prefix. */
  function WireLen(f: Frame): nat
  {
    HEADER_LEN + |f.packet.payload| + MAC_LEN
  }

  function WireBytes(frames: seq<Frame>): nat
  {
    if frames == [] then 0 else WireLen(frames[0]) + WireBytes(frames[1..])
  }

  lemma {:induction false} WireBytesSnoc(frames: seq<Frame>, f: Frame)
    ensures WireBytes(frames + [f]) == WireBytes(frames) + WireLen(f)
  {
    if frames == [] {
      assert WireBytes([f]) == WireLen(f) + WireBytes([]);
      assert frames + [f] == [f];
    } else {
      assert (frames + [f])[1..] == frames[1..] + [f];
      WireBytesSnoc(frames[1..], f);
    }
  }

  lemma {:induction false} WireBytesGrow(log: seq<Frame>, i: nat, j: nat)
    requires i <= j <= |log|
    ensures WireBytes(log[j..]) <= WireBytes(log[i..])
    decreases j - i
  {
    if i < j {
      WireBytesGrow(log, i + 1, j);
      assert log[i..][1..] == log[i + 1..];
    }
  }

  lemma OldestBytes(log: seq<Frame>, i: nat)
    requires i < |log|
    ensures WireBytes(log[i..]) == WireLen(log[i]) + WireBytes(log[i + 1..])
  {
    assert log[i..][1..] == log[i + 1..];
  }

  lemma SuffixBytesSnoc(log: seq<Frame>, i: nat, f: Frame)
    requires i <= |log|
    ensures WireBytes((log + [f])[i..]) == WireBytes(log[i..]) + WireLen(f)
  {
    assert (log + [f])[i..] == log[i..] + [f];
    WireBytesSnoc(log[i..], f);
  }

  /** The frames from `i` on are more than the replay buffer is ever asked to hold. */
  ghost predicate BeyondHardCap(log: seq<Frame>, i: nat)
    requires i <= |log|
  {
    WireBytes(log[i..]) > MAX_BACKUP_BYTES || |log| - i > MAX_BACKUP_PACKETS
  }

  lemma HardCapStays(log: seq<Frame>, i: nat, f: Frame)
    requires i <= |log| && BeyondHardCap(log, i)
    ensures BeyondHardCap(log + [f], i)
  {
    hide WireBytes;
    SuffixBytesSnoc(log, i, f);
  }

  /** The frames from `i` on are more than a connected writer keeps for a peer that acknowledges. */
  ghost predicate BeyondConnectedCap(log: seq<Frame>, i: nat)
    requires i <= |log|
  {
    WireBytes(log[i..]) > CONNECTED_BACKUP_BYTES || |log| - i > CONNECTED_BACKUP_PACKETS
  }

  datatype Outcome = Skipped | BufferedOnly | Send(frame: Frame)

  datatype Recovery = Recovered(frames: seq<Frame>) | AheadOfServer | TooFarBehind

  class BackedWriter {
    /** Newest frame first. */
    var backup: seq<Frame>
    var backupSize: int
    var disconnectedBytes: int
    var disconnectedPackets: nat
    var sequence: nat
    var connected: bool
    var acknowledged: Option<nat>
    var unacknowledgedBytes: int
    /** Every frame ever written, oldest first, and the highest acknowledgement seen. */
    ghost var log: seq<Frame>
    ghost var highestAck: nat
    /** The frame from which on unacknowledged bytes are counted. */
    ghost var countedFrom: nat

    /** Index of the oldest frame still held. */
    ghost function Floor(): int
      reads this`backup, this`log
    {
      |log| - |backup|
    }

    /** The backup is the newest part of the log, mirrored, and its size is booked. */
    ghost predicate Holds()
      reads this`backup, this`backupSize, this`log, this`sequence
    {
      && sequence == |log|
      && Floor() >= 0
      && (forall i | 0 <= i < |backup| :: backup[i] == log[|log| - 1 - i])
      && backupSize == WireBytes(log[Floor()..])
      && (forall i | 0 <= i < |log| :: log[i].nonce == i)
    }

    /** A frame leaves the backup because the peer has it, or because of the hard cap. */
    ghost predicate Justified()
      requires Floor() >= 0
      reads this`backup, this`log, this`highestAck
    {
      && highestAck <= |log|
      && (Floor() > highestAck ==> BeyondHardCap(log, Floor() - 1))
    }

    ghost predicate Valid()
      reads this
    {
      && Holds() && Justified()
      && backupSize <= MAX_RECOVERY_BACKUP_BYTES
      && disconnectedBytes <= DISCONNECT_BUFFER_BYTES + MAC_LEN && disconnectedPackets <= MAX_DISCONNECT_PACKETS
      && (acknowledged.Some? ==> acknowledged.value <= highestAck)
      && Counted()
    }

    /** The byte counter is about the newest frames, none of them acknowledged. */
    ghost predicate Counted()
      reads this`log, this`acknowledged, this`unacknowledgedBytes, this`countedFrom
    {
      && countedFrom <= |log| && unacknowledgedBytes == WireBytes(log[countedFrom..])
      && (acknowledged.Some? ==> acknowledged.value <= countedFrom)
    }

    constructor (connected: bool)
      ensures Valid() && log == [] && this.connected == connected && highestAck == 0
    {
      this.connected := connected;
      backup, backupSize, disconnectedBytes, disconnectedPackets, sequence := [], 0, 0, 0, 0;
      acknowledged, unacknowledgedBytes, log, highestAck, countedFrom := None, 0, [], 0, 0;
    }

    /** A disconnected writer only buffers what a later recovery may carry. */
    predicate Admits(payloadLen: nat)
      reads this`connected, this`disconnectedBytes, this`disconnectedPackets, this`backupSize
    {
      connected ||
      (&& disconnectedBytes + HEADER_LEN + payloadLen <= DISCONNECT_BUFFER_BYTES
       && disconnectedPackets < MAX_DISCONNECT_PACKETS
       && backupSize + HEADER_LEN + payloadLen + MAC_LEN <= MAX_RECOVERY_BACKUP_BYTES)
    }

    /** `pop_back`: forget the oldest frame held. */
    method DropOldest()
      requires Holds() && backup != []
      modifies this`backup, this`backupSize
      ensures Holds() && Floor() == old(Floor()) + 1 && backupSize <= old(backupSize)
    {
      OldestBytes(log, Floor());
      var oldest := backup[|backup| - 1];
      backupSize := backupSize - WireLen(oldest);
      backup := backup[..|backup| - 1];
    }

    /** A connected writer keeps no more than its cap of what the peer has acknowledged. */
    ghost predicate WithinConnectedCap()
      reads this`backup, this`backupSize, this`acknowledged, this`sequence
    {
      || (backupSize <= CONNECTED_BACKUP_BYTES && |backup| <= CONNECTED_BACKUP_PACKETS)
      || acknowledged.None? || |backup| <= sequence - acknowledged.value
    }

    /** The two trimming loops of a connected write. */
    method TrimConnected()
      requires Holds() && Justified()
      requires acknowledged.Some? ==> acknowledged.value <= highestAck
      modifies this`backup, this`backupSize
      ensures Holds() && Justified() && old(Floor()) <= Floor()
      ensures backupSize <= MAX_BACKUP_BYTES && |backup| <= MAX_BACKUP_PACKETS && WithinConnectedCap()
      ensures Floor() > old(Floor()) ==>
        || BeyondHardCap(log, Floor() - 1)
        || (acknowledged.Some? && Floor() <= acknowledged.value && BeyondConnectedCap(log, Floor() - 1))
    {
      hide WireBytes;
      while (backupSize > CONNECTED_BACKUP_BYTES || |backup| > CONNECTED_BACKUP_PACKETS)
            && acknowledged.Some? && |backup| > sequence - acknowledged.value
        invariant Holds() && Justified() && old(Floor()) <= Floor()
        invariant Floor() > old(Floor()) ==>
          acknowledged.Some? && Floor() <= acknowledged.value && BeyondConnectedCap(log, Floor() - 1)
        decreases |backup|
      {
        DropOldest();
      }
      ghost var middle := Floor();
      EmptyBytes();
      while backupSize > MAX_BACKUP_BYTES || |backup| > MAX_BACKUP_PACKETS
        invariant Holds() && Justified() && middle <= Floor() && WithinConnectedCap()
        invariant Floor() > middle ==> BeyondHardCap(log, Floor() - 1)
        decreases |backup|
      {
        assert |log[Floor()..]| == |backup|;
        DropOldest();
      }
    }

    lemma EmptyBytes()
      requires Holds()
      ensures WireBytes([]) == 0 && (backup == [] ==> backupSize == 0)
    {
      assert backup == [] ==> log[Floor()..] == [];
    }

    /** Push a new frame; nothing is trimmed yet. */
    method Push(frame: Frame)
      requires Holds() && Justified() && frame.nonce == |log|
      modifies this`backup, this`backupSize, this`sequence, this`log
      ensures Holds() && Justified() && log == old(log) + [frame] && Floor() == old(Floor())
      ensures backupSize == old(backupSize) + WireLen(frame)
    {
      hide WireBytes, BeyondHardCap;
      SuffixBytesSnoc(log, Floor(), frame);
      if Floor() > highestAck {
        HardCapStays(log, Floor() - 1, frame);
      }
      backup := [frame] + backup;
      backupSize := backupSize + WireLen(frame);
      sequence := sequence + 1;
      log := log + [frame];
    }

    /** `write_packet`: what is admitted is logged; a connected writer trims, a disconnected one never does. */
    method WritePacket(packet: Packet) returns (outcome: Outcome)
      requires Valid()
      modifies this
      ensures Valid() && connected == old(connected) && highestAck == old(highestAck) && countedFrom == old(countedFrom)
      ensures acknowledged == old(acknowledged)
      ensures !outcome.BufferedOnly? ==>
        disconnectedBytes == old(disconnectedBytes) && disconnectedPackets == old(disconnectedPackets)
      ensures outcome.BufferedOnly? ==>
        && disconnectedBytes == old(disconnectedBytes) + WireLen(Frame(|old(log)|, packet))
        && disconnectedPackets == old(disconnectedPackets) + 1
      ensures outcome.Skipped? <==> !old(Admits(|packet.payload|))
      ensures outcome.Skipped? ==> log == old(log) && backup == old(backup)
      ensures !outcome.Skipped? ==> log == old(log) + [Frame(|old(log)|, packet)]
      ensures outcome.BufferedOnly? ==> !connected && Floor() == old(Floor())
      ensures outcome.Send? <==> connected
      ensures outcome.Send? ==> outcome.frame == log[|log| - 1] && |backup| <= MAX_BACKUP_PACKETS && WithinConnectedCap()
      ensures outcome.Send? && Floor() > old(Floor()) ==>
        || BeyondHardCap(log, Floor() - 1)
        || (acknowledged.Some? && Floor() <= acknowledged.value && BeyondConnectedCap(log, Floor() - 1))
    {
      hide WireBytes, BeyondHardCap, BeyondConnectedCap;
      if !Admits(|packet.payload|) {
        return Skipped;
      }
      var frame := Frame(sequence, packet);
      SuffixBytesSnoc(log, countedFrom, frame);
      unacknowledgedBytes := unacknowledgedBytes + WireLen(frame);
      Push(frame);
      if !connected {
        disconnectedBytes := disconnectedBytes + WireLen(frame);
        disconnectedPackets := disconnectedPackets + 1;
        return BufferedOnly;
      }
      TrimConnected();
      outcome := Send(frame);
    }

    /** `recover`: exactly the frames from the peer's position on, when they are still held. */
    method Recover(last: int) returns (result: Recovery)
      requires Valid()
      ensures result == Replayed(last)
    {
      var missing := sequence - last;
      if missing < 0 {
        return AheadOfServer;
      }
      if missing == 0 {
        assert log[last..] == [];
        return Recovered([]);
      }
      if missing > |backup| {
        return TooFarBehind;
      }
      var out: seq<Frame> := [];
      for i := 0 to missing
        invariant |out| == i && forall k | 0 <= k < i :: out[k] == backup[k]
      {
        out := out + [backup[i]];
      }
      var frames := seq(missing, k requires 0 <= k < missing && |out| == missing => out[missing - 1 - k]);
      assert frames == log[last..];
      result := Recovered(frames);
    }

    /** The answer recovery owes a peer that has read `last` frames. */
    ghost function Replayed(last: int): Recovery
      requires Floor() >= 0
      reads this`backup, this`log
    {
      if last > |log| then AheadOfServer
      else if last < Floor() then TooFarBehind
      else Recovered(log[last..])
    }

    /** Recovery serves every peer that holds what it acknowledged and is within the hard cap. */
    lemma RecoveryAlwaysPossible(last: nat)
      requires Valid() && highestAck <= last <= |log|
      requires !BeyondHardCap(log, last)
      ensures Replayed(last) == Recovered(log[last..])
    {
      hide WireBytes;
      if last < Floor() {
        WireBytesGrow(log, last, Floor() - 1);
      }
    }

    lemma Facts()
      requires Holds()
      ensures sequence == |log| && Floor() >= 0
    {
    }

    /** `acknowledge`: ignored while disconnected and for implausible positions. */
    method Acknowledge(ack: int)
      requires Valid()
      modifies this`backup, this`backupSize, this`acknowledged, this`unacknowledgedBytes, this`highestAck, this`countedFrom
      ensures Valid()
      ensures !connected || ack < 0 || ack > |log| ==>
        && backup == old(backup) && acknowledged == old(acknowledged) && highestAck == old(highestAck)
        && unacknowledgedBytes == old(unacknowledgedBytes) && countedFrom == old(countedFrom)
      ensures connected && 0 <= ack <= |log| ==>
        && acknowledged == Some(ack) && highestAck == Max(ack, old(highestAck))
        && countedFrom == Max(ack, old(Floor()))
        && Trimmed(log, ack, old(Floor()), Floor())
        && (unacknowledgedBytes == WireBytes(log[ack..]) <==> old(Floor()) <= ack)
    {
      hide Holds, Justified, Trimmed, WireBytes;
      Facts();
      if !connected || ack < 0 || ack > sequence {
        return;
      }
      AcknowledgePlausible(ack);
      BacklogIsExact();
    }

    method AcknowledgePlausible(ack: nat)
      requires Holds() && Justified() && ack <= |log|
      modifies this`backup, this`backupSize, this`acknowledged, this`unacknowledgedBytes, this`highestAck, this`countedFrom
      ensures Holds() && Justified() && backupSize <= old(backupSize)
      ensures acknowledged == Some(ack) && highestAck == Max(ack, old(highestAck))
      ensures Counted() && countedFrom == Max(ack, old(Floor()))
      ensures Trimmed(log, ack, old(Floor()), Floor())
    {
      hide Holds, WireBytes, SlackEnough, SlackFull, BeyondHardCap;
      Facts();
      acknowledged := Some(ack);
      highestAck := Max(ack, highestAck);
      var unacknowledged := if sequence - ack < |backup| then sequence - ack else |backup|;
      assert |log| - unacknowledged == Max(ack, Floor());
      unacknowledgedBytes := CountNewest(unacknowledged);
      countedFrom := Max(ack, Floor());
      var keep := SlackKeep(unacknowledged);
      KeepNewest(keep);
    }

    /** Drop all but the `keep` newest frames. */
    method KeepNewest(keep: nat)
      requires Holds() && keep <= |backup|
      modifies this`backup, this`backupSize
      ensures Holds() && |backup| == keep && backupSize <= old(backupSize)
    {
      while |backup| > keep
        invariant Holds() && keep <= |backup| && backupSize <= old(backupSize)
        decreases |backup|
      {
        DropOldest();
      }
    }

    /** Wire bytes of the `count` newest frames held. */
    method CountNewest(count: nat) returns (total: int)
      requires Holds() && count <= |backup|
      ensures total == WireBytes(log[|log| - count..])
    {
      hide WireBytes;
      total := 0;
      EmptyTail(log);
      for i := 0 to count
        invariant total == WireBytes(log[|log| - i..])
      {
        OldestBytes(log, |log| - i - 1);
        total := total + WireLen(backup[i]);
      }
    }

    /** The slack loop of `acknowledge`, from the `unacknowledged` newest frames on. */
    method SlackKeep(unacknowledged: nat) returns (keep: nat)
      requires Holds() && unacknowledged <= |backup|
      ensures unacknowledged <= keep <= |backup|
      ensures SlackEnough(log, |log| - keep, |log| - unacknowledged)
      ensures keep < |backup| ==> SlackFull(log, |log| - keep, |log| - unacknowledged)
    {
      hide WireBytes;
      keep := unacknowledged;
      var slackPackets, slackBytes := 0, 0;
      EmptyRange(log, |log| - unacknowledged);
      while slackPackets < ACK_RETAIN_SLACK_PACKETS && keep < |backup|
        invariant unacknowledged <= keep <= |backup| && slackPackets == keep - unacknowledged
        invariant slackPackets <= ACK_RETAIN_SLACK_PACKETS
        invariant slackBytes == WireBytes(log[|log| - keep..|log| - unacknowledged])
        invariant slackPackets > ACK_RETAIN_FLOOR_PACKETS ==> slackBytes <= ACK_RETAIN_SLACK_BYTES
        decreases |backup| - keep
      {
        var wireLen := WireLen(backup[keep]);
        RangeBytes(log, |log| - keep - 1, |log| - unacknowledged);
        if slackPackets >= ACK_RETAIN_FLOOR_PACKETS && slackBytes + wireLen > ACK_RETAIN_SLACK_BYTES {
          return;
        }
        slackPackets := slackPackets + 1;
        slackBytes := slackBytes + wireLen;
        keep := keep + 1;
      }
    }

    /** `revive`: connected again, trimmed to the byte cap. */
    method Revive()
      requires Valid()
      modifies this`backup, this`backupSize, this`connected, this`disconnectedBytes, this`disconnectedPackets
      ensures Valid() && connected && backupSize <= MAX_BACKUP_BYTES && old(Floor()) <= Floor()
      ensures disconnectedBytes == 0 && disconnectedPackets == 0
      ensures Floor() > old(Floor()) ==> WireBytes(log[Floor() - 1..]) > MAX_BACKUP_BYTES
    {
      hide WireBytes;
      connected, disconnectedBytes, disconnectedPackets := true, 0, 0;
      EmptyBytes();
      while backupSize > MAX_BACKUP_BYTES
        invariant Holds() && Justified() && old(Floor()) <= Floor()
        invariant Floor() > old(Floor()) ==> WireBytes(log[Floor() - 1..]) > MAX_BACKUP_BYTES
        decreases |backup|
        modifies this`backup, this`backupSize
      {
        EmptyBytes();
        DropOldest();
      }
    }

    method Invalidate()
      requires Valid()
      modifies this`connected
      ensures Valid() && !connected
    {
      connected := false;
    }

    /** `delivery_backlog`. */
    function DeliveryBacklog(): Option<(nat, int)>
      reads this`acknowledged, this`unacknowledgedBytes
    {
      if acknowledged.Some? then Some((acknowledged.value, unacknowledgedBytes)) else None
    }

    lemma BacklogIsExact()
      requires Valid() && acknowledged.Some?
      ensures acknowledged.value <= countedFrom <= |log|
      ensures unacknowledgedBytes == WireBytes(log[acknowledged.value..]) <==> countedFrom == acknowledged.value
    {
      hide WireBytes;
      if acknowledged.value < countedFrom {
        OldestBytes(log, acknowledged.value);
        WireBytesGrow(log, acknowledged.value + 1, countedFrom);
      }
    }

    /**
      The backlog reported after an acknowledgement, and after whatever is
      written then, is every byte written past the acknowledged position,
      exactly when the backup still reached down to that position.
     */
    method BacklogAfter(ack: nat, packets: seq<Packet>)
      requires Valid() && connected && ack <= |log|
      modifies this
      ensures Valid() && connected && acknowledged == Some(ack)
      ensures log == old(log) + Sealed(|old(log)|, packets)
      ensures DeliveryBacklog() == Some((ack, WireBytes(log[ack..]))) <==> old(Floor()) <= ack
    {
      hide Holds, Justified, Counted, Trimmed, WireBytes, BeyondHardCap, BeyondConnectedCap;
      ghost var floor := Floor();
      Acknowledge(ack);
      for i := 0 to |packets|
        invariant Valid() && connected && acknowledged == Some(ack) && countedFrom == Max(ack, floor)
        invariant log == old(log) + Sealed(|old(log)|, packets[..i])
      {
        SealedSnoc(|old(log)|, packets, i);
        var _ := WritePacket(packets[i]);
      }
      assert packets[..|packets|] == packets;
      BacklogIsExact();
    }
  }

  /** The packets as frames, numbered from `first` on. */
  ghost function Sealed(first: nat, packets: seq<Packet>): (frames: seq<Frame>)
    ensures |frames| == |packets|
  {
    seq(|packets|, i requires 0 <= i < |packets| => Frame(first + i, packets[i]))
  }

  lemma SealedSnoc(first: nat, packets: seq<Packet>, i: nat)
    requires i < |packets|
    ensures Sealed(first, packets[..i + 1]) == Sealed(first, packets[..i]) + [Frame(first + i, packets[i])]
  {
  }

  /**
    The backlog does fall short: once the hard packet cap has dropped a frame
    nobody acknowledged, an acknowledgement below it leaves that frame out.
   */
  method BacklogFallsShort() returns (w: BackedWriter)
    ensures w.Valid() && w.connected && |w.log| == MAX_BACKUP_PACKETS + 1 && w.acknowledged == Some(0)
    ensures w.DeliveryBacklog() != Some((0, WireBytes(w.log)))
  {
    hide BackedWriter.Holds, BackedWriter.Justified, BackedWriter.Counted, WireBytes, BeyondHardCap, BeyondConnectedCap;
    w := new BackedWriter(true);
    for i := 0 to MAX_BACKUP_PACKETS + 1
      invariant w.Valid() && fresh(w) && w.connected && |w.log| == i && (i > 0 ==> |w.backup| <= MAX_BACKUP_PACKETS)
    {
      var _ := w.WritePacket(Packet(0, []));
    }
    w.BacklogAfter(0, []);
    assert w.log[0..] == w.log;
  }

  /** Slack kept below `ack`: at least the floor, within the packet and byte limits above it. */
  ghost predicate SlackEnough(log: seq<Frame>, floor: int, ack: int)
    requires 0 <= floor <= ack <= |log|
  {
    && ack - floor <= ACK_RETAIN_SLACK_PACKETS
    && (ack - floor > ACK_RETAIN_FLOOR_PACKETS ==> WireBytes(log[floor..ack]) <= ACK_RETAIN_SLACK_BYTES)
  }

  /** One acknowledged frame more would not have been kept. */
  ghost predicate SlackFull(log: seq<Frame>, floor: int, ack: int)
    requires 0 <= floor <= ack <= |log|
  {
    || ack - floor == ACK_RETAIN_SLACK_PACKETS
    || (&& ack - floor >= ACK_RETAIN_FLOOR_PACKETS && floor > 0
        && WireBytes(log[floor - 1..ack]) > ACK_RETAIN_SLACK_BYTES)
  }

  /** Acknowledging drops acknowledged frames only, exactly down to the slack below them. */
  ghost predicate Trimmed(log: seq<Frame>, ack: nat, before: int, after: int)
  {
    var base := Max(ack, before);
    && 0 <= before <= after <= base <= |log|
    && SlackEnough(log, after, base) && (after > before ==> SlackFull(log, after, base))
  }

  function Max(a: int, b: int): int
  {
    if a > b then a else b
  }

  lemma EmptyTail(log: seq<Frame>)
    ensures WireBytes(log[|log|..]) == 0
  {
  }

  lemma EmptyRange(log: seq<Frame>, i: nat)
    requires i <= |log|
    ensures WireBytes(log[i..i]) == 0
  {
  }

  lemma RangeBytes(log: seq<Frame>, i: nat, j: nat)
    requires i < j <= |log|
    ensures WireBytes(log[i..j]) == WireLen(log[i]) + WireBytes(log[i + 1..j])
  {
    assert log[i..j][1..] == log[i + 1..j];
  }
}
