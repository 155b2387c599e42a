/**
  The packets a local session sends (`local_session.rs`): whatever the
  transport does, the session's packets reach the replay log in the order
  they were produced, none twice and none left out.
 */
module LocalQueue {
  import opened Bytes
  import opened Replay
  import opened OwnedWrite
  import opened Protobuf

  const KEEP_ALIVE: byte := 0
  const TERMINAL_BUFFER: byte := 1
  const PORT_FORWARD_DATA: byte := 7
  const MAX_PENDING := 64
  const INPUT_CHUNK := 16 * 1024
  const OUTBOUND_BATCH := 128

  /** Everything but keep-alives: those are acknowledgements, not session data. */
  ghost function Data(packets: seq<Packet>): seq<Packet>
  {
    if packets == [] then [] else
    Data(packets[..|packets| - 1]) + if packets[|packets| - 1].header == KEEP_ALIVE then [] else [packets[|packets| - 1]]
  }

  lemma {:induction false} DataAppend(a: seq<Packet>, b: seq<Packet>)
    ensures Data(a + b) == Data(a) + Data(b)
    decreases |b|
  {
    if b == [] {
      assert a + b == a;
    } else {
      var before, last := b[..|b| - 1], b[|b| - 1];
      assert (a + b)[..|a + b| - 1] == a + before && (a + b)[|a + b| - 1] == last;
      DataAppend(a, before);
    }
  }

  lemma DataOne(packet: Packet)
    ensures Data([packet]) == if packet.header == KEEP_ALIVE then [] else [packet]
  {
    assert Data([]) == [];
  }

  /** Terminal input as it is packed: one bytes field. */
  function InputPacket(chunk: seq<byte>): Packet
  {
    Packet(TERMINAL_BUFFER, LenField(1, chunk))
  }

  /** Input is cut into chunks of at most 16 KiB. */
  function Chunks(bytes: seq<byte>): (chunks: seq<seq<byte>>)
    ensures Flatten(chunks) == bytes
    ensures forall i | 0 <= i < |chunks| :: 0 < |chunks[i]| <= INPUT_CHUNK
  {
    if bytes == [] then []
    else if |bytes| <= INPUT_CHUNK then
      FlattenOne(bytes);
      [bytes]
    else
      [bytes[..INPUT_CHUNK]] + Chunks(bytes[INPUT_CHUNK..])
  }

  function InputPackets(chunks: seq<seq<byte>>): (packets: seq<Packet>)
    ensures |packets| == |chunks|
  {
    seq(|chunks|, i requires 0 <= i < |chunks| => InputPacket(chunks[i]))
  }

  /** A submission the session cannot go on after. */
  ghost predicate RefusedSince(deeds: seq<Deed>, from: nat)
  {
    exists k | from <= k < |deeds| :: deeds[k].Submit? && GivesUp(deeds[k])
  }

  lemma RefusedLater(before: seq<Deed>, middle: seq<Deed>, after: seq<Deed>)
    requires before <= middle <= after
    ensures RefusedSince(after, |before|) <==> RefusedSince(middle, |before|) || RefusedSince(after, |middle|)
  {
    assert forall k | 0 <= k < |middle| :: middle[k] == after[k];
  }

  lemma RefusedNow(deeds: seq<Deed>, deed: Deed)
    ensures RefusedSince(deeds + [deed], |deeds|) <==> deed.Submit? && GivesUp(deed)
    ensures !RefusedSince(deeds, |deeds|)
  {
    assert (deeds + [deed])[|deeds|] == deed;
  }

  /** The deeds from `from` on are submissions of the first of `packets`, in order. */
  ghost predicate Submitting(deeds: seq<Deed>, from: nat, packets: seq<Packet>)
  {
    && from <= |deeds| <= from + |packets|
    && forall k | from <= k < |deeds| :: deeds[k].Submit? && deeds[k].packet == packets[k - from]
  }

  /** How many of the packets submitted from `from` on are off the queue: a last one the lost transport never took is not. */
  ghost function TakenOff(deeds: seq<Deed>, from: nat): nat
    requires from <= |deeds|
  {
    if from < |deeds| && deeds[|deeds| - 1].Submit? && deeds[|deeds| - 1].answer == BeforeReplay(Io) then
      |deeds| - from - 1
    else
      |deeds| - from
  }

  /** What was submitted from `from` on comes off the front of `packets`, and `left` is the rest. */
  ghost predicate Drained(deeds: seq<Deed>, from: nat, packets: seq<Packet>, left: seq<Packet>)
  {
    Submitting(deeds, from, packets) && left == packets[TakenOff(deeds, from)..]
  }

  lemma NothingDrained(deeds: seq<Deed>, packets: seq<Packet>)
    ensures Drained(deeds, |deeds|, packets, packets) && TakenOff(deeds, |deeds|) == 0
  {
  }

  /** One more submission, after which the packet is off the queue or back at its head. */
  lemma DrainedMore(deeds: seq<Deed>, from: nat, packets: seq<Packet>, left: seq<Packet>, answer: Submitted)
    requires Drained(deeds, from, packets, left) && left != [] && TakenOff(deeds, from) == |deeds| - from
    ensures Drained(deeds + [Submit(left[0], answer)], from, packets, if answer == BeforeReplay(Io) then left else left[1..])
  {
    var more := deeds + [Submit(left[0], answer)];
    assert forall k | 0 <= k < |deeds| :: more[k] == deeds[k];
    assert more[|deeds|] == Submit(left[0], answer);
    assert TakenOff(more, from) == |deeds| - from + if answer == BeforeReplay(Io) then 0 else 1;
  }

  /** With nothing left, a packet that joins the queue is submitted next. */
  lemma DrainedThen(deeds: seq<Deed>, from: nat, packets: seq<Packet>, deed: Deed)
    requires Drained(deeds, from, packets, []) && TakenOff(deeds, from) == |deeds| - from && deed.Submit?
    ensures var lost := deed.answer == BeforeReplay(Io);
      && Drained(deeds + [deed], from, packets + [deed.packet], if lost then [deed.packet] else [])
      && TakenOff(deeds + [deed], from) == |deeds| - from + if lost then 0 else 1
  {
    assert (packets + [deed.packet])[TakenOff(deeds, from)..] == [deed.packet];
    DrainedMore(deeds, from, packets + [deed.packet], [deed.packet], deed.answer);
  }

  /** Since `before` the queue was drained down to `left`, and what the transport took is off it while it is `free`. */
  ghost predicate Emptied(before: seq<Deed>, deeds: seq<Deed>, packets: seq<Packet>, left: seq<Packet>, free: bool)
  {
    && before <= deeds && Drained(deeds, |before|, packets, left)
    && (free ==> left == [] && TakenOff(deeds, |before|) == |deeds| - |before|)
  }

  lemma EmptiedOn(before: seq<Deed>, done: seq<Deed>, after: seq<Deed>, packets: seq<Packet>, left: seq<Packet>,
                  more: seq<Packet>, end: seq<Packet>, wasFree: bool, free: bool)
    requires Emptied(before, done, packets, left, wasFree) && Emptied(done, after, more + left, end, free)
    requires |after| - |done| == |more| && (free || more != [] ==> wasFree)
    ensures before <= done <= after && Emptied(before, after, packets + more, end, free)
  {
    DrainedOn(before, done, after, packets, left, more, end);
  }

  lemma EmptiedThen(before: seq<Deed>, done: seq<Deed>, packets: seq<Packet>, deed: Deed, free: bool)
    requires Emptied(before, done, packets, [], true) && deed.Submit? && (free ==> deed.answer != BeforeReplay(Io))
    ensures before <= done
    ensures Emptied(before, done + [deed], packets + [deed.packet], if deed.answer == BeforeReplay(Io) then [deed.packet] else [], free)
  {
    DrainedThen(done, |before|, packets, deed);
  }

  lemma EmptiedShows(before: seq<Deed>, deeds: seq<Deed>, packets: seq<Packet>, left: seq<Packet>, free: bool)
    requires Emptied(before, deeds, packets, left, free)
    ensures before <= deeds && (free ==> left == []) && packets + [] == packets
  {
  }

  /** Draining goes on with `more` at the queue's end, provided nothing was left before it. */
  lemma DrainedOn(before: seq<Deed>, done: seq<Deed>, after: seq<Deed>, packets: seq<Packet>, left: seq<Packet>,
                  more: seq<Packet>, end: seq<Packet>)
    requires before <= done <= after && Drained(done, |before|, packets, left) && Drained(after, |done|, more + left, end)
    requires if more == [] then after == done else left == [] && TakenOff(done, |before|) == |done| - |before|
    requires |after| - |done| == |more|
    ensures Drained(after, |before|, packets + more, end)
    ensures TakenOff(done, |before|) == |done| - |before| && TakenOff(after, |done|) == |after| - |done| ==>
      TakenOff(after, |before|) == |after| - |before|
  {
    assert forall k | 0 <= k < |done| :: after[k] == done[k];
    if more == [] {
      assert packets + more == packets && more + left == left;
    } else {
      assert more + left == more;
      var all := packets + more;
      assert |packets| == |done| - |before| && TakenOff(after, |before|) == |done| - |before| + TakenOff(after, |done|);
      forall k | |done| <= k < |after| ensures all[k - |before|] == after[k].packet {
        assert all[k - |before|] == more[k - |done|];
      }
      assert all[TakenOff(after, |before|)..] == more[TakenOff(after, |done|)..];
    }
  }

  /** The forwarding engine: it hands out packets that are never keep-alives. */
  class Forwarder {
    /** Everything it has handed out. */
    ghost var handed: seq<Packet>
    /** What it answered each time it was asked. */
    ghost var answers: seq<Option<Packet>>

    constructor ()
      ensures handed == [] && answers == []
    {
      handed, answers := [], [];
    }

    method TryOutbound() returns (packet: Option<Packet>)
      modifies this
      ensures packet.Some? ==> packet.value.header != KEEP_ALIVE && handed == old(handed) + [packet.value]
      ensures packet.None? ==> handed == old(handed)
      ensures answers == old(answers) + [packet]
    {
      packet := None;
      if * {
        var header: byte :| 5 <= header <= PORT_FORWARD_DATA;
        var payload: seq<byte> :| true;
        packet := Some(Packet(header, payload));
        handed := handed + [packet.value];
      }
      answers := answers + [packet];
    }
  }

  class Outbound {
    const connection: Connection
    const forwarder: Forwarder
    var pending: seq<Packet>
    var stopping: bool
    /** The session data produced so far, in order. */
    ghost var produced: seq<Packet>

    ghost predicate InOrder()
      reads this`pending, this`produced, connection, connection.writer`log
    {
      Data(connection.Log()) + Data(pending) == produced
    }

    ghost predicate Valid()
      reads this, connection, connection.writer
    {
      connection.Valid() && (!stopping ==> InOrder())
    }

    constructor (connection: Connection, forwarder: Forwarder)
      requires connection.Valid()
      ensures Valid() && this.connection == connection && this.forwarder == forwarder && pending == [] && !stopping
      ensures produced == Data(connection.Log())
    {
      this.connection, this.forwarder := connection, forwarder;
      pending, stopping := [], false;
      produced := Data(connection.Log());
      new;
      assert Data(connection.Log()) + [] == Data(connection.Log());
    }

    /** A packet of the session is queued. */
    method PushBack(packet: Packet)
      requires Valid() && packet.header != KEEP_ALIVE
      modifies this`pending, this`produced
      ensures Valid() && pending == old(pending) + [packet] && produced == old(produced) + [packet]
    {
      hide Data, Connection.Valid, Connection.Log;
      DataAppend(pending, [packet]);
      DataOne(packet);
      Regroup(Data(connection.Log()), Data(pending), [packet]);
      pending := pending + [packet];
      produced := produced + [packet];
    }

    /** `input`. */
    method Input(bytes: seq<byte>)
      requires Valid()
      modifies this`pending, this`produced
      ensures Valid()
      ensures pending == old(pending) + InputPackets(Chunks(bytes))
      ensures produced == old(produced) + InputPackets(Chunks(bytes))
    {
      hide Connection.Valid, Connection.Log, Chunks, Data;
      var chunks := Chunks(bytes);
      for i := 0 to |chunks|
        invariant Valid() && pending == old(pending) + InputPackets(chunks[..i])
        invariant produced == old(produced) + InputPackets(chunks[..i])
      {
        assert InputPackets(chunks[..i + 1]) == InputPackets(chunks[..i]) + [InputPacket(chunks[i])];
        PushBack(InputPacket(chunks[i]));
      }
      assert chunks[..|chunks|] == chunks;
    }

    /** A keep-alive goes ahead of everything queued. */
    method PushProbe(payload: seq<byte>)
      requires Valid()
      modifies this`pending
      ensures Valid() && pending == [Packet(KEEP_ALIVE, payload)] + old(pending)
    {
      hide Data, Connection.Valid, Connection.Log;
      var probe := Packet(KEEP_ALIVE, payload);
      DataAppend([probe], pending);
      DataOne(probe);
      assert [] + Data(pending) == Data(pending);
      pending := [probe] + pending;
    }

    /** `stop`: what is queued is dropped. */
    method Stop()
      requires Valid()
      modifies this`pending, this`stopping
      ensures Valid() && stopping && (!old(stopping) ==> pending == [])
    {
      if !stopping {
        pending, stopping := [], true;
      }
    }

    /** `send`: nothing back when the replay log has the packet, the packet when it goes first on the next transport. */
    method Send(packet: Packet) returns (back: Option<Packet>, failed: bool)
      requires connection.Valid()
      modifies connection, connection.writer
      ensures connection.Valid()
      ensures failed ==> back.None? && connection.Log() <= old(connection.Log()) + [packet]
      ensures !failed && back.None? ==> connection.Log() == old(connection.Log()) + [packet]
      ensures !failed && back.Some? ==>
        back == Some(packet) && connection.Log() == old(connection.Log()) && !connection.writer.connected
      ensures |connection.deeds| == |old(connection.deeds)| + 1 && old(connection.deeds) <= connection.deeds
      ensures var deed := connection.deeds[|old(connection.deeds)|];
        && deed.Submit? && deed.packet == packet && (failed <==> GivesUp(deed))
        && (back.Some? <==> deed.answer == BeforeReplay(Io))
      ensures failed <==> RefusedSince(connection.deeds, |old(connection.deeds)|)
      ensures connection.writer.connected ==> old(connection.writer.connected)
      ensures old(connection.transfers) <= connection.transfers
      ensures !old(connection.pendingLive) ==>
        (packet.header == PORT_FORWARD_DATA || packet.header == TERMINAL_BUFFER <==>
           !(|connection.transfers| > |old(connection.transfers)| && connection.transfers[|old(connection.transfers)|].Probed?))
    {
      hide RefusedSince;
      var probed := packet.header != PORT_FORWARD_DATA && packet.header != TERMINAL_BUFFER;
      var answer := connection.StartWritePacketOwned(packet, probed);
      RefusedNow(old(connection.deeds), Submit(packet, answer));
      if answer.Accepted? {
        return None, false;
      }
      if !Ended(answer.error) {
        return None, true;
      }
      if answer.ReplayOwned? {
        return None, false;
      }
      connection.Disconnect();
      back, failed := Some(packet), false;
    }

    /** The writing loop over `pending`: in order, until the transport is busy or lost. */
    method DrainPending() returns (failed: bool)
      requires Valid()
      modifies this`pending, connection, connection.writer
      ensures connection.Valid() && (!failed ==> Valid())
      ensures !failed && connection.writer.connected && !connection.pendingLive ==> pending == []
      ensures old(connection.deeds) <= connection.deeds
      ensures failed <==> RefusedSince(connection.deeds, |old(connection.deeds)|)
      ensures Drained(connection.deeds, |old(connection.deeds)|, old(pending), pending)
      ensures old(connection.transfers) <= connection.transfers
      ensures connection.writer.connected ==> TakenOff(connection.deeds, |old(connection.deeds)|) == |connection.deeds| - |old(connection.deeds)|
      ensures if old(connection.writer.connected && !connection.pendingLive && pending != []) then
          connection.deeds != old(connection.deeds)
        else
          && connection.deeds == old(connection.deeds) && pending == old(pending)
          && connection.writer.connected == old(connection.writer.connected) && connection.pendingLive == old(connection.pendingLive)
    {
      hide Data, Connection.Log, BackedWriter.Valid, RefusedSince, Drained;
      failed := false;
      RefusedNow(connection.deeds, Attempt(Fatal));
      NothingDrained(connection.deeds, pending);
      while connection.writer.connected && !connection.pendingLive && pending != []
        invariant Valid() && old(connection.deeds) <= connection.deeds && !RefusedSince(connection.deeds, |old(connection.deeds)|)
        invariant |connection.deeds| > |old(connection.deeds)| ==> old(connection.writer.connected && !connection.pendingLive && pending != [])
        invariant |connection.deeds| == |old(connection.deeds)| ==>
          && pending == old(pending) && connection.writer.connected == old(connection.writer.connected)
          && connection.pendingLive == old(connection.pendingLive)
        invariant Drained(connection.deeds, |old(connection.deeds)|, old(pending), pending)
        invariant TakenOff(connection.deeds, |old(connection.deeds)|) == |connection.deeds| - |old(connection.deeds)|
        invariant old(connection.transfers) <= connection.transfers
        decreases |pending|, connection.writer.connected
      {
        ghost var done := connection.deeds;
        var packet := pending[0];
        assert pending == [packet] + pending[1..];
        MoveFirst(connection.Log(), packet, pending[1..]);
        pending := pending[1..];
        var back;
        back, failed := Send(packet);
        RefusedLater(old(connection.deeds), done, connection.deeds);
        DrainedMore(done, |old(connection.deeds)|, old(pending), [packet] + pending, connection.deeds[|done|].answer);
        assert connection.deeds == done + [connection.deeds[|done|]];
        if failed {
          return;
        }
        if back.Some? {
          pending := [packet] + pending;
          return;
        }
      }
    }

    /** One packet of the forwarder, with nothing else waiting: submitted, and first in the queue when the transport never took it. */
    method ForwardOne() returns (packet: Option<Packet>, failed: bool, ghost answer: Submitted)
      requires Valid() && !stopping && connection.writer.connected && !connection.pendingLive && pending == []
      modifies this`pending, this`produced, connection, connection.writer, forwarder
      ensures connection.Valid() && (!failed ==> Valid())
      ensures forwarder.answers == old(forwarder.answers) + [packet] && old(connection.transfers) <= connection.transfers
      ensures failed <==> RefusedSince(connection.deeds, |old(connection.deeds)|)
      ensures packet.None? ==>
        && !failed && pending == [] && connection.deeds == old(connection.deeds)
        && forwarder.handed == old(forwarder.handed) && produced == old(produced)
      ensures packet.Some? ==>
        && forwarder.handed == old(forwarder.handed) + [packet.value] && produced == old(produced) + [packet.value]
        && connection.deeds == old(connection.deeds) + [Submit(packet.value, answer)]
        && pending == (if answer == BeforeReplay(Io) then [packet.value] else [])
      ensures pending != [] ==> !connection.writer.connected && !failed
    {
      hide Data, Connection.Log, BackedWriter.Valid, RefusedSince;
      RefusedNow(connection.deeds, Attempt(Fatal));
      answer, failed := Accepted, false;
      packet := forwarder.TryOutbound();
      if packet.Some? {
        Taken(connection.Log(), packet.value);
        produced := produced + [packet.value];
        var back;
        back, failed := Send(packet.value);
        answer := connection.deeds[|old(connection.deeds)|].answer;
        if back.Some? {
          pending := [packet.value] + pending;
        }
      }
    }

    /** Forwarding packets are taken only once nothing else waits; one that could not be sent goes first. */
    method DrainForwarder(limit: nat) returns (failed: bool, ghost got: seq<Packet>)
      requires Valid() && !stopping
      requires connection.writer.connected && !connection.pendingLive ==> pending == []
      modifies this`pending, this`produced, connection, connection.writer, forwarder
      ensures connection.Valid() && (!failed ==> Valid())
      ensures forwarder.handed == old(forwarder.handed) + got && produced == old(produced) + got
      ensures old(forwarder.answers) <= forwarder.answers && |forwarder.answers| <= |old(forwarder.answers)| + limit
      ensures |connection.deeds| == |old(connection.deeds)| + |got|
      ensures failed <==> RefusedSince(connection.deeds, |old(connection.deeds)|)
      ensures !failed && connection.writer.connected && !connection.pendingLive ==>
        Exhausted(old(forwarder.answers), forwarder.answers, limit)
      ensures Emptied(old(connection.deeds), connection.deeds, got + old(pending), pending,
                      !failed && connection.writer.connected && !connection.pendingLive)
      ensures old(connection.transfers) <= connection.transfers
      ensures !old(connection.writer.connected && !connection.pendingLive) ==>
        && got == [] && connection.writer.connected == old(connection.writer.connected)
        && connection.pendingLive == old(connection.pendingLive)
    {
      hide Data, Connection.Log, Connection.Valid, Connection.HasRoom, BackedWriter.Valid, RefusedSince, Drained, TakenOff;
      failed, got := false, [];
      RefusedNow(connection.deeds, Attempt(Fatal));
      assert got + pending == pending;
      NothingDrained(connection.deeds, pending);
      for i := 0 to limit
        invariant Valid() && !failed && pending == old(pending) && |got| <= i
        invariant connection.writer.connected && !connection.pendingLive ==> pending == []
        invariant forwarder.handed == old(forwarder.handed) + got && produced == old(produced) + got
        invariant old(forwarder.answers) <= forwarder.answers && |forwarder.answers| == |old(forwarder.answers)| + i
        invariant old(connection.transfers) <= connection.transfers
        invariant Sending(old(connection.deeds), connection.deeds, got)
        invariant Drained(connection.deeds, |old(connection.deeds)|, got + old(pending), pending)
        invariant TakenOff(connection.deeds, |old(connection.deeds)|) == |got|
        invariant if i > 0 then old(connection.writer.connected && !connection.pendingLive) else
          connection.writer.connected == old(connection.writer.connected) && connection.pendingLive == old(connection.pendingLive)
      {
        if !connection.writer.connected || connection.pendingLive {
          return;
        }
        ghost var done := connection.deeds;
        var packet;
        ghost var answer;
        packet, failed, answer := ForwardOne();
        if packet.None? {
          return;
        }
        SendingMore(old(connection.deeds), done, got, Submit(packet.value, answer));
        got := got + [packet.value];
        if failed || pending != [] {
          return;
        }
      }
    }

    /**
      The writing part of one turn of the loop; the probe and the volume
      acknowledgement (`acked` when its turn came) are keep-alives. What is
      submitted is the front of one queue, in order: the probe, what was queued,
      what the forwarder handed out, the acknowledgement.
     */
    method Pump(probe: Option<seq<byte>>, ack: Option<seq<byte>>, limit: nat)
      returns (failed: bool, ghost got: seq<Packet>, ghost acked: bool)
      requires Valid() && limit <= OUTBOUND_BATCH
      modifies this`pending, this`produced, connection, connection.writer, forwarder
      ensures connection.Valid() && (!failed ==> Valid())
      ensures forwarder.handed == old(forwarder.handed) + got && produced == old(produced) + got
      ensures old(connection.deeds) <= connection.deeds && old(forwarder.answers) <= forwarder.answers
      ensures failed <==> RefusedSince(connection.deeds, |old(connection.deeds)|)
      ensures !failed && connection.writer.connected && !connection.pendingLive ==>
        && (acked <==> ack.Some? && !stopping)
        && (!stopping ==> Exhausted(old(forwarder.answers), forwarder.answers, limit))
      ensures |forwarder.answers| <= |old(forwarder.answers)| + limit
      ensures stopping ==> forwarder.answers == old(forwarder.answers)
      ensures acked ==> ack.Some? && !stopping
      ensures var free := Free(old(connection.writer.connected), old(connection.pendingLive), connection.transfers, |old(connection.transfers)|);
        && Emptied(old(connection.deeds), connection.deeds, ProbeFirst(probe, free && !stopping) + old(pending)
             + got + AckLast(ack, acked), pending, !failed && connection.writer.connected && !connection.pendingLive)
        && (free && ProbeFirst(probe, !stopping) + old(pending) != [] ==> connection.deeds != old(connection.deeds))
    {
      hide *;
      acked := false;
      failed, got := WriteSession(probe, limit);
      ghost var done, transfers := connection.deeds, connection.transfers;
      ghost var free := Free(old(connection.writer.connected), old(connection.pendingLive), transfers, |old(connection.transfers)|);
      ghost var queued := ProbeFirst(probe, free && !stopping) + old(pending) + got;
      AckIs(ack);
      EmptiedShows(old(connection.deeds), done, queued, pending, !failed && connection.writer.connected && !connection.pendingLive);
      if !failed && connection.writer.connected && !connection.pendingLive && !stopping && ack.Some? {
        acked := true;
        ghost var answer;
        failed, answer := SendAck(ack.value);
        RefusedLater(old(connection.deeds), done, connection.deeds);
        EmptiedThen(old(connection.deeds), done, queued, Submit(Packet(KEEP_ALIVE, ack.value), answer),
                    !failed && connection.writer.connected && !connection.pendingLive);
      }
      FreeKept(old(connection.writer.connected), old(connection.pendingLive), old(connection.transfers), transfers, connection.transfers);
    }

    /** The part of the turn before the acknowledgement. */
    method WriteSession(probe: Option<seq<byte>>, limit: nat) returns (failed: bool, ghost got: seq<Packet>)
      requires Valid() && limit <= OUTBOUND_BATCH
      modifies this`pending, this`produced, connection, connection.writer, forwarder
      ensures connection.Valid() && (!failed ==> Valid())
      ensures forwarder.handed == old(forwarder.handed) + got && produced == old(produced) + got
      ensures old(forwarder.answers) <= forwarder.answers && |forwarder.answers| <= |old(forwarder.answers)| + limit
      ensures failed <==> RefusedSince(connection.deeds, |old(connection.deeds)|)
      ensures !failed && connection.writer.connected && !connection.pendingLive && !stopping ==>
        Exhausted(old(forwarder.answers), forwarder.answers, limit)
      ensures stopping ==> forwarder.answers == old(forwarder.answers)
      ensures old(connection.transfers) <= connection.transfers
      ensures old(connection.pendingLive) ==> old(connection.transfers) < connection.transfers
      ensures var free := Free(old(connection.writer.connected), old(connection.pendingLive), connection.transfers, |old(connection.transfers)|);
        && Emptied(old(connection.deeds), connection.deeds, ProbeFirst(probe, free && !stopping) + old(pending) + got, pending,
             !failed && connection.writer.connected && !connection.pendingLive)
        && (free && ProbeFirst(probe, !stopping) + old(pending) != [] ==> connection.deeds != old(connection.deeds))
    {
      hide Data, Connection.Log, Connection.Valid, Connection.HasRoom, BackedWriter.Valid, RefusedSince, Emptied, Free, Exhausted;
      got := [];
      failed := Begin(probe);
      ghost var done, left, transfers := connection.deeds, pending, connection.transfers;
      ghost var wasFree := !failed && connection.writer.connected && !connection.pendingLive;
      ghost var free := Free(old(connection.writer.connected), old(connection.pendingLive), transfers, |old(connection.transfers)|);
      ghost var queued := ProbeFirst(probe, free && !stopping) + old(pending);
      EmptiedShows(old(connection.deeds), done, queued, left, wasFree);
      if !failed && !stopping {
        failed, got := DrainForwarder(limit);
        EmptiedOn(old(connection.deeds), done, connection.deeds, queued, left, got, pending,
                  wasFree, !failed && connection.writer.connected && !connection.pendingLive);
        RefusedLater(old(connection.deeds), done, connection.deeds);
      }
      FreeKept(old(connection.writer.connected), old(connection.pendingLive), old(connection.transfers), transfers, connection.transfers);
    }

    /** The rest of a started frame, the probe, and what is queued. */
    method Begin(probe: Option<seq<byte>>) returns (failed: bool)
      requires Valid()
      modifies this`pending, connection, connection.writer
      ensures connection.Valid() && (!failed ==> Valid())
      ensures failed <==> RefusedSince(connection.deeds, |old(connection.deeds)|)
      ensures old(connection.transfers) <= connection.transfers
      ensures old(connection.pendingLive) ==> old(connection.transfers) < connection.transfers
      ensures var free := Free(old(connection.writer.connected), old(connection.pendingLive), connection.transfers, |old(connection.transfers)|);
        && Emptied(old(connection.deeds), connection.deeds, ProbeFirst(probe, free && !stopping) + old(pending), pending,
             !failed && connection.writer.connected && !connection.pendingLive)
        && (free && ProbeFirst(probe, !stopping) + old(pending) != [] ==> connection.deeds != old(connection.deeds))
    {
      hide Data, Connection.Log, BackedWriter.Valid, RefusedSince, Drained;
      var _ := connection.AdvanceWrite();
      ghost var transfers := connection.transfers;
      assert [] + pending == pending;
      if connection.writer.connected && !connection.pendingLive && probe.Some? && !stopping {
        PushProbe(probe.value);
      }
      failed := DrainPending();
      assert |transfers| > |old(connection.transfers)| ==>
          transfers[|old(connection.transfers)|] == connection.transfers[|old(connection.transfers)|];
    }

    method SendAck(payload: seq<byte>) returns (failed: bool, ghost answer: Submitted)
      requires Valid() && pending == []
      modifies this`pending, connection, connection.writer
      ensures connection.Valid() && (!failed ==> Valid())
      ensures connection.deeds == old(connection.deeds) + [Submit(Packet(KEEP_ALIVE, payload), answer)]
      ensures pending == if answer == BeforeReplay(Io) then [Packet(KEEP_ALIVE, payload)] else []
      ensures failed <==> RefusedSince(connection.deeds, |old(connection.deeds)|)
      ensures connection.writer.connected ==> pending == []
      ensures old(connection.transfers) <= connection.transfers
    {
      hide Data, Connection.Log, BackedWriter.Valid, RefusedSince;
      var packet := Packet(KEEP_ALIVE, payload);
      var back;
      KeepAliveAside(connection.Log(), packet);
      back, failed := Send(packet);
      answer := connection.deeds[|old(connection.deeds)|].answer;
      if back.Some? {
        PushProbe(payload);
      }
    }
  }

  /** The transport is there, and takes new frames once the kernel has the rest of a started one. */
  ghost predicate Free(connected: bool, pendingLive: bool, transfers: seq<Transfer>, n: nat)
  {
    connected && (pendingLive ==> n < |transfers| && transfers[n] == Advanced(Whole))
  }

  lemma FreeKept(connected: bool, pendingLive: bool, before: seq<Transfer>, transfers: seq<Transfer>, after: seq<Transfer>)
    requires before <= transfers <= after && (pendingLive ==> before < transfers)
    ensures Free(connected, pendingLive, after, |before|) == Free(connected, pendingLive, transfers, |before|)
  {
  }

  ghost function AckLast(ack: Option<seq<byte>>, acked: bool): seq<Packet>
  {
    if ack.Some? && acked then [Packet(KEEP_ALIVE, ack.value)] else []
  }

  lemma AckIs(ack: Option<seq<byte>>)
    ensures AckLast(ack, true) == if ack.Some? then [Packet(KEEP_ALIVE, ack.value)] else []
    ensures AckLast(ack, false) == []
  {
  }

  ghost function ProbeFirst(probe: Option<seq<byte>>, wanted: bool): seq<Packet>
  {
    if probe.Some? && wanted then [Packet(KEEP_ALIVE, probe.value)] else []
  }

  /** The forwarder was asked as often as allowed, or has nothing more. */
  ghost predicate Exhausted(before: seq<Option<Packet>>, answers: seq<Option<Packet>>, limit: nat)
  {
    |answers| == |before| + limit || (|answers| > |before| && answers[|answers| - 1].None?)
  }

  /** Each packet in `got` was submitted, and none was refused for good. */
  ghost predicate Sending(before: seq<Deed>, deeds: seq<Deed>, got: seq<Packet>)
  {
    before <= deeds && |deeds| - |before| == |got| && !RefusedSince(deeds, |before|)
  }

  lemma SendingMore(before: seq<Deed>, deeds: seq<Deed>, got: seq<Packet>, deed: Deed)
    requires Sending(before, deeds, got) && deed.Submit?
    requires Drained(deeds, |before|, got + [], []) && TakenOff(deeds, |before|) == |got|
    ensures RefusedSince(deeds + [deed], |before|) <==> RefusedSince(deeds + [deed], |deeds|)
    ensures before <= deeds + [deed]
    ensures var lost := deed.answer == BeforeReplay(Io);
      && Drained(deeds + [deed], |before|, got + [deed.packet] + [], if lost then [deed.packet] else [])
      && TakenOff(deeds + [deed], |before|) == |got| + if lost then 0 else 1
  {
    RefusedLater(before, deeds, deeds + [deed]);
    assert got + [] == got && got + [deed.packet] + [] == got + [deed.packet];
    DrainedThen(deeds, |before|, got, deed);
  }

  lemma Regroup(a: seq<Packet>, b: seq<Packet>, c: seq<Packet>)
    ensures a + (b + c) == a + b + c
  {
  }

  lemma MoveFirst(log: seq<Packet>, packet: Packet, rest: seq<Packet>)
    ensures Data(log + [packet]) + Data(rest) == Data(log) + Data([packet] + rest)
  {
    hide Data;
    DataAppend(log, [packet]);
    DataAppend([packet], rest);
    Regroup(Data(log), Data([packet]), Data(rest));
  }

  /** A packet taken from the forwarder with nothing else waiting is the last produced. */
  lemma Taken(log: seq<Packet>, packet: Packet)
    requires packet.header != KEEP_ALIVE
    ensures Data(log + [packet]) + Data([]) == Data(log) + Data([]) + [packet]
    ensures Data(log) + Data([packet] + []) == Data(log) + Data([]) + [packet]
  {
    assert [packet] + [] == [packet];
    DataAppend(log, [packet]);
    DataOne(packet);
  }

  lemma KeepAliveAside(log: seq<Packet>, packet: Packet)
    requires packet.header == KEEP_ALIVE
    ensures Data(log + [packet]) == Data(log)
  {
    DataAppend(log, [packet]);
    DataOne(packet);
    assert Data(log) + [] == Data(log);
  }

  datatype Event =
    | Typed(bytes: seq<byte>)
    | Resized(payload: seq<byte>)
    | Turned(probe: Option<seq<byte>>, ack: Option<seq<byte>>, limit: nat)
    | Reconnecting
    | Stopping

  /** What an event produced: input and resizes as they came in, forwarding packets as they were handed out. */
  ghost predicate ProducedBy(event: Event, more: seq<Packet>, handed: seq<Packet>)
  {
    match event
    case Typed(bytes) => more == InputPackets(Chunks(bytes)) && handed == []
    case Resized(payload) => more == [Packet(TERMINAL_INFO, payload)] && handed == []
    case Turned(_, _, _) => more == handed
    case _ => more == [] && handed == []
  }

  ghost function Join(parts: seq<seq<Packet>>): seq<Packet>
  {
    if parts == [] then [] else Join(parts[..|parts| - 1]) + parts[|parts| - 1]
  }

  lemma JoinSnoc(parts: seq<seq<Packet>>, part: seq<Packet>, before: seq<Packet>)
    ensures before + Join(parts + [part]) == before + Join(parts) + part
  {
    assert (parts + [part])[..|parts|] == parts;
  }

  /**
    Every run: until it is stopped or fails for good, the replay log and the
    queue together hold exactly what was produced, in the order it was
    produced. `parts` is what each event produced, and `handed` what the
    forwarder handed out during it. It fails exactly when the connection refuses
    a packet for another reason than its own end.
   */
  method Run(q: Outbound, events: seq<Event>)
    returns (failed: bool, ghost parts: seq<seq<Packet>>, ghost handed: seq<seq<Packet>>)
    requires q.Valid() && !q.stopping
    modifies q, q.connection, q.connection.writer, q.forwarder
    ensures q.connection.Valid() && (!failed ==> q.Valid() && |parts| == |events|)
    ensures |parts| == |handed| <= |events| && forall i | 0 <= i < |parts| :: ProducedBy(events[i], parts[i], handed[i])
    ensures q.forwarder.handed == old(q.forwarder.handed) + Join(handed)
    ensures !failed && !q.stopping ==> Data(q.connection.Log()) + Data(q.pending) == old(q.produced) + Join(parts)
    ensures old(q.connection.deeds) <= q.connection.deeds
    ensures failed <==> RefusedSince(q.connection.deeds, |old(q.connection.deeds)|)
  {
    hide Data, Chunks, BackedWriter.Valid, Connection.Log, Join, ProducedBy, RefusedSince;
    RefusedNow(q.connection.deeds, Attempt(Fatal));
    failed, parts, handed := false, [], [];
    NothingYet(q.produced, q.forwarder.handed);
    for i := 0 to |events|
      invariant q.Valid() && !failed && |parts| == |handed| == i
      invariant q.produced == old(q.produced) + Join(parts)
      invariant q.forwarder.handed == old(q.forwarder.handed) + Join(handed)
      invariant forall k | 0 <= k < i :: ProducedBy(events[k], parts[k], handed[k])
      invariant old(q.connection.deeds) <= q.connection.deeds && !RefusedSince(q.connection.deeds, |old(q.connection.deeds)|)
    {
      ghost var more, out, acked;
      ghost var done := q.connection.deeds;
      failed, more, out, acked := Handle(q, events[i]);
      RefusedLater(old(q.connection.deeds), done, q.connection.deeds);
      JoinSnoc(parts, more, old(q.produced));
      JoinSnoc(handed, out, old(q.forwarder.handed));
      parts, handed := parts + [more], handed + [out];
      if failed {
        return;
      }
    }
  }

  lemma NothingYet(produced: seq<Packet>, handed: seq<Packet>)
    ensures produced + Join([]) == produced && handed + Join([]) == handed
  {
  }

  method Handle(q: Outbound, event: Event)
    returns (failed: bool, ghost more: seq<Packet>, ghost handed: seq<Packet>, ghost acked: bool)
    requires q.Valid()
    modifies q, q.connection, q.connection.writer, q.forwarder
    ensures q.connection.Valid() && (!failed ==> q.Valid())
    ensures q.produced == old(q.produced) + more && q.forwarder.handed == old(q.forwarder.handed) + handed
    ensures ProducedBy(event, more, handed)
    ensures q.stopping <==> old(q.stopping) || event.Stopping?
    ensures old(q.connection.deeds) <= q.connection.deeds
    ensures failed <==> RefusedSince(q.connection.deeds, |old(q.connection.deeds)|)
    ensures event.Turned? && event.limit <= OUTBOUND_BATCH ==>
      var free := Free(old(q.connection.writer.connected), old(q.connection.pendingLive), q.connection.transfers, |old(q.connection.transfers)|);
      && Drained(q.connection.deeds, |old(q.connection.deeds)|,
           ProbeFirst(event.probe, free && !q.stopping) + old(q.pending) + handed + AckLast(event.ack, acked), q.pending)
      && (!failed && q.connection.writer.connected && !q.connection.pendingLive ==>
            (q.stopping || Exhausted(old(q.forwarder.answers), q.forwarder.answers, event.limit)) && q.pending == [] && (acked <==> event.ack.Some? && !q.stopping))
    ensures event.Typed? || event.Resized? ==> q.pending == old(q.pending) + more && q.connection.deeds == old(q.connection.deeds)
  {
    hide Data, Chunks, BackedWriter.Valid, Connection.Log, RefusedSince, Drained, Free;
    RefusedNow(q.connection.deeds, Attempt(Fatal));
    failed, handed, acked := false, [], false;
    match event {
      case Typed(bytes) => q.Input(bytes);
      case Resized(payload) => q.PushBack(Packet(TERMINAL_INFO, payload));
      case Turned(probe, ack, limit) =>
        if limit <= OUTBOUND_BATCH {
          failed, handed, acked := q.Pump(probe, ack, limit);
        }
      case Reconnecting =>
        var outcome := q.connection.Reconnect();
        RefusedNow(old(q.connection.deeds), Attempt(outcome));
      case Stopping => q.Stop();
    }
    more := q.produced[|old(q.produced)|..];
  }
}
