/**
  One direction of a session across any number of broken transports: what the
  reader hands out is always the beginning of what the writer was given
  (`backed_reader.rs`, `connection_recovery.rs`, `connection.rs`).
 */
module Reconnect {
  import opened Bytes
  import opened Replay

  /** What arrives: a frame some writer of this session sealed, or bytes that do not authenticate. */
  datatype Wire = Sealed(frame: Frame) | Noise

  datatype ReadItem = Got(packet: Packet) | NeedMore | Broken

  /** A frame opens under the reader's next nonce only. */
  function Opens(w: Wire, nonce: nat): Option<Packet>
  {
    if w.Sealed? && w.frame.nonce == nonce then Some(w.frame.packet) else None
  }

  /** All of `items` open, one after another, starting with `nonce`. */
  ghost predicate AllOpen(items: seq<Wire>, nonce: nat)
  {
    forall i | 0 <= i < |items| :: items[i].Sealed? && items[i].frame.nonce == nonce + i
  }

  ghost function Opened(items: seq<Wire>): seq<Packet>
    requires forall i | 0 <= i < |items| :: items[i].Sealed?
  {
    seq(|items|, i requires 0 <= i < |items| => items[i].frame.packet)
  }

  class BackedReader {
    var nonce: nat
    var partial: seq<Wire>
    var replay: seq<Packet>
    var sequence: nat
    var connected: bool
    /** Every packet that authenticated, and every packet handed to the session, in order. */
    ghost var accepted: seq<Packet>
    ghost var delivered: seq<Packet>

    ghost predicate Counts()
      reads this`nonce, this`sequence, this`accepted
    {
      sequence == nonce == |accepted|
    }

    ghost predicate Valid()
      reads this
    {
      Counts() && delivered + replay == accepted
    }

    constructor (connected: bool)
      ensures Valid() && accepted == [] && partial == [] && this.connected == connected
    {
      nonce, partial, replay, sequence, this.connected := 0, [], [], 0, connected;
      accepted, delivered := [], [];
    }

    /** What the next read comes to: the catchup first, then whether the next frame opens. */
    ghost function Due(): ReadItem
      reads this`connected, this`replay, this`partial, this`nonce
    {
      if !connected then NeedMore
      else if replay != [] then Got(replay[0])
      else if partial == [] then NeedMore
      else match Opens(partial[0], nonce)
        case Some(packet) => Got(packet)
        case None => Broken
    }

    method Feed(items: seq<Wire>)
      modifies this`partial
      ensures partial == old(partial) + items
    {
      partial := partial + items;
    }

    /** `pop_live`: the next frame off the wire, past the replay queue. */
    method PopLive() returns (item: ReadItem)
      requires Counts()
      modifies this`nonce, this`partial, this`sequence, this`accepted
      ensures Counts()
      ensures item.NeedMore? <==> !connected || old(partial) == []
      ensures item.NeedMore? ==> partial == old(partial)
      ensures !item.NeedMore? ==> partial == old(partial)[1..]
      ensures !item.Got? ==> accepted == old(accepted) && nonce == old(nonce)
      ensures item.Got? ==>
        && Opens(old(partial)[0], old(nonce)) == Some(item.packet)
        && accepted == old(accepted) + [item.packet] && nonce == old(nonce) + 1
      ensures item.Broken? ==> Opens(old(partial)[0], nonce).None?
    {
      if !connected || partial == [] {
        return NeedMore;
      }
      var plain := Opens(partial[0], nonce);
      partial := partial[1..];
      if plain.None? {
        return Broken;
      }
      nonce, sequence := nonce + 1, sequence + 1;
      accepted := accepted + [plain.value];
      item := Got(plain.value);
    }

    /** `pop`: catchup first, then the wire. */
    method Pop() returns (item: ReadItem)
      requires Valid()
      modifies this`nonce, this`partial, this`sequence, this`accepted, this`replay, this`delivered
      ensures Valid() && item == old(Due())
      ensures item.Got? ==> delivered == old(delivered) + [item.packet]
      ensures !item.Got? ==> delivered == old(delivered) && accepted == old(accepted) && replay == old(replay)
      ensures item.NeedMore? ==> partial == old(partial)
      ensures item.Got? && old(replay) != [] ==>
        replay == old(replay)[1..] && accepted == old(accepted) && partial == old(partial)
      ensures item.Got? && old(replay) == [] ==>
        replay == [] && accepted == old(accepted) + [item.packet] && partial == old(partial)[1..]
      ensures item.Broken? ==> partial == old(partial)[1..]
    {
      if !connected {
        return NeedMore;
      }
      if replay != [] {
        item := Got(replay[0]);
        assert delivered + replay == delivered + [replay[0]] + replay[1..];
        delivered := delivered + [replay[0]];
        replay := replay[1..];
        return;
      }
      item := PopLive();
      if item.Got? {
        assert delivered + [item.packet] + replay == delivered + replay + [item.packet];
        delivered := delivered + [item.packet];
      }
    }

    /** `revive`: decode the whole catchup first; on any failure nothing has happened. */
    method Revive(catchup: seq<Wire>) returns (ok: bool)
      requires Valid()
      modifies this`nonce, this`partial, this`sequence, this`accepted, this`replay, this`connected
      ensures Valid()
      ensures ok <==> AllOpen(catchup, old(nonce))
      ensures ok ==> connected && partial == [] && accepted == old(accepted) + Opened(catchup)
      ensures !ok ==>
        && nonce == old(nonce) && partial == old(partial) && accepted == old(accepted)
        && replay == old(replay) && connected == old(connected)
    {
      var decoded: seq<Packet> := [];
      for i := 0 to |catchup|
        invariant AllOpen(catchup[..i], nonce)
        invariant decoded == Opened(catchup[..i])
      {
        var plain := Opens(catchup[i], nonce + i);
        if plain.None? {
          return false;
        }
        decoded := decoded + [plain.value];
        assert catchup[..i + 1] == catchup[..i] + [catchup[i]];
      }
      assert catchup[..|catchup|] == catchup;
      assert delivered + (replay + decoded) == accepted + decoded;
      partial, replay := [], replay + decoded;
      nonce, sequence := nonce + |catchup|, sequence + |catchup|;
      accepted := accepted + decoded;
      connected := true;
      ok := true;
    }

    method Invalidate()
      requires Valid()
      modifies this`partial, this`connected
      ensures Valid() && partial == [] && !connected
    {
      partial, connected := [], false;
    }

    /**
      `authenticate_peer`: wait for one live packet and put it behind the
      catchup. `arrivals` are the reads until the transport fails or the
      deadline passes.
     */
    method AuthenticatePeer(arrivals: seq<seq<Wire>>) returns (ok: bool)
      requires Valid()
      modifies this`nonce, this`partial, this`sequence, this`accepted, this`replay, this`connected
      ensures Valid()
      ensures var items := old(partial) + Bundle(arrivals);
        ok <==> old(connected) && items != [] && Opens(items[0], old(nonce)).Some?
      ensures var items := old(partial) + Bundle(arrivals);
        ok ==> connected && LeftUnread(arrivals, partial, items[1..]) && Accepts(old(accepted), accepted, items[0], old(nonce))
      ensures !ok ==> !connected && partial == [] && accepted == old(accepted) && replay == old(replay)
    {
      hide Bundle;
      var i := 0;
      ok := false;
      NothingBundled(arrivals);
      assert partial + [] == partial;
      ghost var items := partial + Bundle(arrivals);
      while i <= |arrivals|
        invariant 0 <= i <= |arrivals| && Valid() && !ok && replay == old(replay) && connected == old(connected)
        invariant accepted == old(accepted) && nonce == old(nonce)
        invariant partial + Bundle(arrivals[i..]) == items
        decreases |arrivals| - i
      {
        ghost var before := partial;
        var item := PopLive();
        match item
        case Got(packet) =>
          assert before[0] == items[0];
          assert delivered + (replay + [packet]) == delivered + replay + [packet];
          assert partial + Bundle(arrivals[i..]) == items[1..] && LeftUnread(arrivals, partial, items[1..]);
          replay := replay + [packet];
          return true;
        case Broken =>
          assert before[0] == items[0];
          Invalidate();
          return false;
        case NeedMore =>
          NextBundled(arrivals, i);
          if i == |arrivals| {
            Invalidate();
            return false;
          }
          assert partial + (arrivals[i] + Bundle(arrivals[i + 1..])) == partial + arrivals[i] + Bundle(arrivals[i + 1..]);
          Feed(arrivals[i]);
          i := i + 1;
      }
    }
  }

  ghost predicate Accepts(before: seq<Packet>, after: seq<Packet>, w: Wire, nonce: nat)
  {
    Opens(w, nonce).Some? && after == before + [Opens(w, nonce).value]
  }

  /** Everything the reads brought. */
  ghost function Bundle(arrivals: seq<seq<Wire>>): seq<Wire>
  {
    if arrivals == [] then [] else arrivals[0] + Bundle(arrivals[1..])
  }

  /** What is decoded next, followed by some of the last reads, is the rest of the stream. */
  ghost predicate LeftUnread(arrivals: seq<seq<Wire>>, partial: seq<Wire>, rest: seq<Wire>)
  {
    exists i | 0 <= i <= |arrivals| :: partial + Bundle(arrivals[i..]) == rest
  }

  lemma NothingBundled(arrivals: seq<seq<Wire>>)
    ensures Bundle([]) == [] && arrivals[0..] == arrivals
  {
  }

  lemma NextBundled(arrivals: seq<seq<Wire>>, i: nat)
    requires i <= |arrivals|
    ensures i < |arrivals| ==> Bundle(arrivals[i..]) == arrivals[i] + Bundle(arrivals[i + 1..])
    ensures i == |arrivals| ==> Bundle(arrivals[i..]) == []
  {
    if i < |arrivals| {
      assert arrivals[i..][1..] == arrivals[i + 1..];
    }
  }

  // ---------------------------------------------------------------------
  // A writer, the reader at the other end, and everything between them.

  ghost function PacketsOf(log: seq<Frame>): (packets: seq<Packet>)
    ensures |packets| == |log|
  {
    seq(|log|, i requires 0 <= i < |log| => log[i].packet)
  }

  /** Only frames the writer sealed can authenticate. */
  ghost predicate Authentic(log: seq<Frame>, items: seq<Wire>)
  {
    forall w | w in items :: Genuine(log, w)
  }

  ghost predicate Genuine(log: seq<Frame>, w: Wire)
  {
    w.Sealed? ==> w.frame.nonce < |log| && log[w.frame.nonce] == w.frame
  }

  lemma LogGrows(before: seq<Frame>, after: seq<Frame>, items: seq<Wire>, n: nat)
    requires before <= after && n <= |before| && Authentic(before, items)
    ensures Authentic(after, items) && PacketsOf(after[..n]) == PacketsOf(before[..n])
    ensures |after| == |before| + 1 ==> PacketsOf(after) == PacketsOf(before) + [after[|before|].packet]
  {
    assert after[..n] == before[..n];
  }

  /** The only frame that opens next is the next frame written. */
  lemma AcceptedNext(log: seq<Frame>, before: seq<Packet>, after: seq<Packet>, w: Wire)
    requires |before| <= |log| && before == PacketsOf(log[..|before|])
    requires Genuine(log, w) && Accepts(before, after, w, |before|)
    ensures |after| <= |log| && after == PacketsOf(log[..|after|])
  {
    assert log[..|after|] == log[..|before|] + [w.frame];
  }

  lemma CatchupInStep(log: seq<Frame>, before: seq<Packet>, items: seq<Wire>)
    requires |before| <= |log| && before == PacketsOf(log[..|before|])
    requires Authentic(log, items) && AllOpen(items, |before|)
    ensures |before| + |items| <= |log|
    ensures before + Opened(items) == PacketsOf(log[..|before| + |items|])
  {
    if items != [] {
      assert Genuine(log, items[|items| - 1]);
    }
    forall i | 0 <= i < |items|
      ensures Opened(items)[i] == PacketsOf(log[..|before| + |items|])[|before| + i]
    {
      assert Genuine(log, items[i]);
    }
  }

  lemma CatchupIsGenuine(log: seq<Frame>, from: nat, items: seq<Wire>)
    requires from + |items| == |log| && forall i | 0 <= i < |log| :: log[i].nonce == i
    requires forall i | 0 <= i < |items| :: items[i] == Sealed(log[from + i])
    ensures Authentic(log, items) && AllOpen(items, from)
  {
  }

  /**
    What the network hands the reader: a copy of any frame it ever carried, or
    damaged bytes. It may lose, repeat, delay and reorder frames at will.
   */
  datatype Arrival = Copy(index: nat) | Damage

  function Arrived(wire: seq<Frame>, a: Arrival): Wire
  {
    if a.Copy? && a.index < |wire| then Sealed(wire[a.index]) else Noise
  }

  function ArrivedAll(wire: seq<Frame>, arrivals: seq<Arrival>): seq<Wire>
  {
    seq(|arrivals|, i requires 0 <= i < |arrivals| => Arrived(wire, arrivals[i]))
  }

  function ArrivedReads(wire: seq<Frame>, arrivals: seq<seq<Arrival>>): seq<seq<Wire>>
  {
    seq(|arrivals|, i requires 0 <= i < |arrivals| => ArrivedAll(wire, arrivals[i]))
  }

  ghost predicate Carried(log: seq<Frame>, wire: seq<Frame>)
  {
    forall i | 0 <= i < |wire| :: Genuine(log, Sealed(wire[i]))
  }

  lemma {:induction false} ReadsAreAuthentic(log: seq<Frame>, wire: seq<Frame>, arrivals: seq<seq<Arrival>>)
    requires Carried(log, wire)
    ensures Authentic(log, Bundle(ArrivedReads(wire, arrivals)))
  {
    if arrivals != [] {
      assert ArrivedReads(wire, arrivals)[1..] == ArrivedReads(wire, arrivals[1..]);
      ReadsAreAuthentic(log, wire, arrivals[1..]);
    }
  }

  /** What may happen, in any order and any number of times. */
  datatype Event =
    | Write(packet: Packet)
    | Arrive(arrivals: seq<Arrival>)
    | Read
    | Proof(batches: seq<seq<Arrival>>)
    | Acked(position: nat)
    | WriterLost
    | ReaderLost
    | WriterRevived
    | Catchup(arrivals: seq<Arrival>)
    | CatchupSent(position: nat)
    | Handshake

  /** What an event comes to. */
  datatype Answer = Wrote(outcome: Outcome) | Gave(item: ReadItem) | Ended(ok: bool) | Noted

  function Written(event: Event, answer: Answer): seq<Packet>
  {
    if event.Write? && answer.Wrote? && !answer.outcome.Skipped? then [event.packet] else []
  }

  function GivenOut(answer: Answer): seq<Packet>
  {
    if answer.Gave? && answer.item.Got? then [answer.item.packet] else []
  }

  /** The packets whose write was answered with anything but a skip, in order. */
  function AllWritten(events: seq<Event>, answers: seq<Answer>): seq<Packet>
    requires |events| == |answers|
  {
    if events == [] then [] else
    var last := |events| - 1;
    AllWritten(events[..last], answers[..last]) + Written(events[last], answers[last])
  }

  /** The packets the reads gave out, in order. */
  function AllGiven(answers: seq<Answer>): seq<Packet>
  {
    if answers == [] then [] else AllGiven(answers[..|answers| - 1]) + GivenOut(answers[|answers| - 1])
  }

  lemma AnswersSnoc(events: seq<Event>, answers: seq<Answer>, answer: Answer)
    requires |answers| < |events|
    ensures var n := |answers|;
      && AllWritten(events[..n + 1], answers + [answer]) == AllWritten(events[..n], answers) + Written(events[n], answer)
      && AllGiven(answers + [answer]) == AllGiven(answers) + GivenOut(answer)
  {
    var n := |answers|;
    assert events[..n + 1][..n] == events[..n] && (answers + [answer])[..n] == answers;
  }

  /** What the two ends and the network hold. */
  datatype View = View(
    writing: bool, log: seq<Frame>, wire: seq<Frame>,
    reading: bool, partial: seq<Wire>, replay: seq<Packet>, delivered: seq<Packet>)

  /** What a write, an arrival, a read and an acknowledgement leave behind. */
  ghost function Moved(view: View, event: Event, answer: Answer): View
  {
    match event
    case Write(packet) =>
      if answer.Wrote? && answer.outcome.Skipped? then view else
      var frame := Frame(|view.log|, packet);
      view.(log := view.log + [frame], wire := if view.writing then view.wire + [frame] else view.wire)
    case Arrive(arrivals) => view.(partial := view.partial + ArrivedAll(view.wire, arrivals))
    case Read =>
      if answer == Gave(Broken) then view.(reading := false, partial := [])
      else if GivenOut(answer) == [] then view
      else if view.replay != [] then view.(replay := view.replay[1..], delivered := view.delivered + GivenOut(answer))
      else if view.partial != [] then view.(partial := view.partial[1..], delivered := view.delivered + GivenOut(answer))
      else view
    case _ => view
  }

  class Session {
    const writer: BackedWriter
    const reader: BackedReader
    /** Every frame the network has carried. */
    var wire: seq<Frame>

    ghost predicate Valid()
      reads this, writer, reader
    {
      && writer.Valid() && reader.Valid()
      && InStep()
      && Authentic(writer.log, reader.partial) && Carried(writer.log, wire)
    }

    ghost function TheView(): View
      reads this, writer, reader
    {
      View(writer.connected, writer.log, wire, reader.connected, reader.partial, reader.replay, reader.delivered)
    }

    lemma Seen()
      requires Valid()
      ensures reader.Due() == DueIn(TheView())
    {
    }

    /** The reader has accepted exactly the first packets written, and has acknowledged no more. */
    ghost predicate InStep()
      reads writer, reader
    {
      && |reader.accepted| <= |writer.log|
      && reader.accepted == PacketsOf(writer.log[..|reader.accepted|])
      && writer.highestAck <= |reader.accepted|
    }

    constructor ()
      ensures Valid() && fresh(writer) && fresh(reader)
      ensures writer.log == [] && wire == [] && reader.delivered == reader.replay == [] && Settled(TheView())
    {
      writer := new BackedWriter(true);
      reader := new BackedReader(true);
      wire := [];
    }

    /** Nothing is delivered out of order, twice, or without having been written. */
    lemma DeliveredIsPrefix()
      requires Valid()
      ensures reader.delivered + reader.replay == PacketsOf(writer.log[..reader.sequence])
      ensures reader.delivered <= PacketsOf(writer.log)
    {
      assert reader.accepted <= PacketsOf(writer.log);
    }

    method WriteOne(packet: Packet) returns (outcome: Outcome)
      requires Valid()
      modifies writer, this`wire
      ensures Valid() && old(writer.log) <= writer.log
      ensures outcome.Skipped? <==> !old(writer.Admits(|packet.payload|))
      ensures TheView() == Moved(old(TheView()), Write(packet), Wrote(outcome))
      ensures !outcome.Skipped? ==> PacketsOf(writer.log) == PacketsOf(old(writer.log)) + [packet]
      ensures outcome.Skipped? ==> writer.log == old(writer.log)
    {
      hide WireBytes, BeyondHardCap, BeyondConnectedCap, BackedWriter.Valid, BackedWriter.Admits, BackedWriter.Floor;
      outcome := writer.WritePacket(packet);
      LogGrows(old(writer.log), writer.log, reader.partial, |reader.accepted|);
      if outcome.Send? {
        wire := wire + [outcome.frame];
      }
    }

    /** The session loop reads; a frame that does not open takes the transport down. */
    method ReadOne() returns (item: ReadItem)
      requires Valid()
      modifies reader
      ensures Valid() && item == old(reader.Due()) && TheView() == Moved(old(TheView()), Read, Gave(item))
      ensures reader.delivered == old(reader.delivered) + GivenOut(Gave(item))
    {
      hide BackedWriter.Holds, BackedWriter.Justified;
      item := reader.Pop();
      if reader.accepted != old(reader.accepted) {
        AcceptedNext(writer.log, old(reader.accepted), reader.accepted, old(reader.partial)[0]);
      }
      if item.Broken? {
        reader.Invalidate();
      }
    }

    /** The network hands the reader what it likes. */
    method ArriveSome(arrivals: seq<Arrival>)
      requires Valid()
      modifies reader
      ensures Valid() && TheView() == Moved(old(TheView()), Arrive(arrivals), Noted) && reader.sequence == old(reader.sequence)
    {
      hide BackedWriter.Valid;
      reader.Feed(ArrivedAll(wire, arrivals));
    }

    /** An acknowledgement of a position the reader has reached. */
    method TakeAck(position: nat)
      requires Valid() && position <= reader.sequence
      modifies writer
      ensures Valid() && TheView() == old(TheView()) && (writer.connected ==> writer.acknowledged == Some(position))
    {
      hide WireBytes, BeyondHardCap, BeyondConnectedCap, BackedWriter.Valid;
      InRange();
      writer.Acknowledge(position);
    }

    method Prove(arrivals: seq<seq<Wire>>) returns (ok: bool)
      requires Valid() && Authentic(writer.log, Bundle(arrivals))
      modifies reader
      ensures Valid() && reader.delivered == old(reader.delivered) && (!ok ==> !reader.connected)
      ensures var items := old(reader.partial) + Bundle(arrivals);
        ok <==> old(reader.connected) && items != [] && Opens(items[0], old(reader.nonce)).Some?
    {
      hide BackedWriter.Valid, Bundle;
      ok := reader.AuthenticatePeer(arrivals);
      if ok {
        ghost var items := old(reader.partial) + Bundle(arrivals);
        ghost var i :| 0 <= i <= |arrivals| && reader.partial + Bundle(arrivals[i..]) == items[1..];
        assert forall k | 0 <= k < |reader.partial| :: reader.partial[k] == items[1..][k] == items[k + 1];
        assert items[0] in items;
        AcceptedNext(writer.log, old(reader.accepted), reader.accepted, items[0]);
      }
    }

    /** Whatever catchup arrives, it is taken whole and in step, or not at all. */
    method TakeCatchup(items: seq<Wire>) returns (ok: bool)
      requires Valid() && Authentic(writer.log, items)
      modifies reader
      ensures Valid() && reader.delivered == old(reader.delivered)
      ensures ok ==> reader.connected && reader.partial == [] && |reader.accepted| == |old(reader.accepted)| + |items|
      ensures !ok ==>
        reader.connected == old(reader.connected) && reader.partial == old(reader.partial) && reader.replay == old(reader.replay)
      ensures ok <==> AllOpen(items, old(reader.nonce))
    {
      hide BackedWriter.Valid;
      ok := reader.Revive(items);
      if ok {
        CatchupInStep(writer.log, old(reader.accepted), items);
      }
    }

    /**
      `run_recovery_handshake`: the reader names its position, the writer
      answers with everything since. It succeeds exactly when the position
      fits its wire field and the frames are still held, and then nothing
      written is missing any more.
     */
    method RunHandshake() returns (ok: bool)
      requires Valid()
      modifies writer, reader, this`wire
      ensures Valid() && writer.log == old(writer.log) && reader.delivered == old(reader.delivered)
      ensures ok <==> old(reader.sequence) <= MAX_WIRE_SEQUENCE && old(writer.Floor()) <= old(reader.sequence)
      ensures ok ==> writer.connected && reader.connected && reader.partial == [] && reader.sequence == |writer.log|
      ensures ok ==> reader.delivered + reader.replay == PacketsOf(writer.log)
      ensures ok ==> wire == old(wire) + writer.log[old(reader.sequence)..]
      ensures !ok ==> TheView() == old(TheView())
    {
      hide WireBytes, BeyondHardCap, BeyondConnectedCap, BackedWriter.Justified;
      if reader.sequence > MAX_WIRE_SEQUENCE {
        return false;
      }
      var answer := writer.Recover(reader.sequence);
      if !answer.Recovered? {
        return false;
      }
      var items := seq(|answer.frames|, i requires 0 <= i < |answer.frames| => Sealed(answer.frames[i]));
      CatchupIsGenuine(writer.log, reader.sequence, items);
      wire := wire + answer.frames;
      ok := TakeCatchup(items);
      writer.Revive();
      assert writer.log[..|writer.log|] == writer.log;
    }

    /** The writer's half of a handshake that fails after the catchup went out. */
    method SendCatchup(position: nat) returns (ok: bool)
      requires Valid()
      modifies this`wire
      ensures Valid() && (ok <==> writer.Floor() <= position <= |writer.log|)
      ensures wire == if ok then old(wire) + writer.log[position..] else old(wire)
    {
      hide WireBytes, BeyondHardCap, BackedWriter.Justified;
      var answer := writer.Recover(position);
      ok := answer.Recovered?;
      if ok {
        wire := wire + answer.frames;
      }
    }

    lemma SettledNow()
      requires Valid() && writer.connected && reader.connected && reader.partial == [] && reader.sequence == |writer.log|
      ensures Settled(TheView()) && |reader.delivered| + |reader.replay| == |writer.log|
    {
    }

    /** Recovery never fails a reader that is within the hard cap, however the session went. */
    lemma HandshakeAlwaysPossible()
      requires Valid() && !BeyondHardCap(writer.log, reader.sequence)
      ensures writer.Floor() <= reader.sequence
    {
      hide WireBytes, BeyondHardCap, BackedWriter.Valid;
      InRange();
      writer.RecoveryAlwaysPossible(reader.sequence);
    }

    lemma InRange()
      requires Valid()
      ensures reader.sequence == |reader.accepted| && reader.sequence <= |writer.log|
    {
    }

    /** Reading on after a handshake hands out everything that was written. */
    method DrainReplay()
      requires Valid() && reader.connected && reader.delivered + reader.replay == PacketsOf(writer.log)
      modifies reader
      ensures Valid() && reader.delivered == PacketsOf(writer.log)
    {
      hide BackedWriter.Valid;
      while reader.replay != []
        invariant Valid() && reader.connected && reader.accepted == PacketsOf(writer.log)
        decreases |reader.replay|
      {
        var item := reader.Pop();
      }
      assert reader.delivered + [] == reader.delivered;
    }
  }

  /** One event of a session. */
  method Step(s: Session, event: Event) returns (answer: Answer)
    requires s.Valid()
    modifies s, s.writer, s.reader
    ensures s.Valid()
    ensures PacketsOf(s.writer.log) == old(PacketsOf(s.writer.log)) + Written(event, answer)
    ensures s.reader.delivered == old(s.reader.delivered) + GivenOut(answer)
    ensures event.Write? ==> answer.Wrote? && (answer.outcome.Skipped? <==> !old(s.writer.Admits(|event.packet.payload|)))
    ensures event.Read? ==> answer == Gave(old(s.reader.Due()))
    ensures event.Proof? ==>
      var items := old(s.reader.partial) + Bundle(ArrivedReads(old(s.wire), event.batches));
      answer == Ended(old(s.reader.connected) && items != [] && Opens(items[0], old(s.reader.nonce)).Some?)
    ensures event.Catchup? ==> answer == Ended(AllOpen(ArrivedAll(old(s.wire), event.arrivals), old(s.reader.nonce)))
    ensures event.CatchupSent? ==> answer == Ended(old(s.writer.Floor()) <= event.position <= |old(s.writer.log)|)
    ensures event.Write? || event.Arrive? || event.Read? || event.Acked? ==> s.TheView() == Moved(old(s.TheView()), event, answer)
    ensures event.Acked? && event.position <= old(s.reader.sequence) && s.writer.connected ==> s.writer.acknowledged == Some(event.position)
    ensures event.WriterLost? ==> !s.writer.connected
    ensures event.ReaderLost? ==> !s.reader.connected
    ensures event.WriterRevived? ==> s.writer.connected
    ensures event.Handshake? ==>
      answer == Ended(old(s.reader.sequence) <= MAX_WIRE_SEQUENCE && old(s.writer.Floor()) <= old(s.reader.sequence))
  {
    hide BackedWriter.Valid;
    answer := Noted;
    match event
    case Write(packet) =>
      var outcome := s.WriteOne(packet);
      answer := Wrote(outcome);
    case Arrive(arrivals) =>
      s.ArriveSome(arrivals);
    case Read =>
      var item := s.ReadOne();
      answer := Gave(item);
    case Proof(batches) =>
      ReadsAreAuthentic(s.writer.log, s.wire, batches);
      var ok := s.Prove(ArrivedReads(s.wire, batches));
      answer := Ended(ok);
    case Acked(position) =>
      if position <= s.reader.sequence {
        s.TakeAck(position);
      }
    case WriterLost =>
      s.writer.Invalidate();
    case ReaderLost =>
      s.reader.Invalidate();
    case WriterRevived =>
      s.writer.Revive();
    case Catchup(arrivals) =>
      var ok := s.TakeCatchup(ArrivedAll(s.wire, arrivals));
      answer := Ended(ok);
    case CatchupSent(position) =>
      var ok := s.SendCatchup(position);
      answer := Ended(ok);
    case Handshake =>
      var ok := s.RunHandshake();
      answer := Ended(ok);
  }

  // ---------------------------------------------------------------------
  // A transport that stays up.

  /** Since a moment: packets written, frames that arrived, packets given out. */
  datatype Flow = Flow(written: nat, arrived: nat, given: nat)

  /** Copies of the frames from `index` on, each once and in order. */
  ghost predicate InSequence(arrivals: seq<Arrival>, index: nat)
  {
    forall i | 0 <= i < |arrivals| :: arrivals[i] == Copy(index + i)
  }

  /**
    The next event while the transport stays up. `base` frames had been carried
    and `waiting` packets were accepted but not read before.
   */
  ghost function Flows(base: nat, waiting: nat, flow: Flow, event: Event): Option<Flow>
  {
    match event
    case Write(_) => Some(flow.(written := flow.written + 1))
    case Arrive(arrivals) =>
      if InSequence(arrivals, base + flow.arrived) && flow.arrived + |arrivals| <= flow.written
      then Some(flow.(arrived := flow.arrived + |arrivals|)) else None
    case Read => Some(if flow.given < waiting + flow.arrived then flow.(given := flow.given + 1) else flow)
    case Acked(_) => Some(flow)
    case _ => None
  }

  ghost function FlowAfter(base: nat, waiting: nat, events: seq<Event>): Option<Flow>
  {
    if events == [] then Some(Flow(0, 0, 0)) else
    match FlowAfter(base, waiting, events[..|events| - 1])
    case None => None
    case Some(flow) => Flows(base, waiting, flow, events[|events| - 1])
  }

  lemma FlowSnoc(base: nat, waiting: nat, events: seq<Event>, i: nat)
    requires i < |events| && FlowAfter(base, waiting, events[..i + 1]).Some?
    ensures FlowAfter(base, waiting, events[..i]).Some?
    ensures FlowAfter(base, waiting, events[..i + 1])
         == Flows(base, waiting, FlowAfter(base, waiting, events[..i]).value, events[i])
  {
    assert events[..i + 1][..i] == events[..i];
  }

  lemma {:induction false} FlowPrefix(base: nat, waiting: nat, events: seq<Event>, i: nat)
    requires FlowAfter(base, waiting, events).Some? && i <= |events|
    ensures FlowAfter(base, waiting, events[..i]).Some?
    decreases |events|
  {
    if i < |events| {
      FlowPrefix(base, waiting, events[..|events| - 1], i);
      assert events[..|events| - 1][..i] == events[..i];
    } else {
      assert events[..i] == events;
    }
  }

  function Reads(n: nat): (events: seq<Event>)
    ensures |events| == n
  {
    if n == 0 then [] else Reads(n - 1) + [Read]
  }

  /** As many reads as packets that have arrived take them all. */
  lemma {:induction false} EnoughReads(base: nat, waiting: nat, events: seq<Event>, n: nat)
    requires FlowAfter(base, waiting, events).Some?
    ensures FlowAfter(base, waiting, events + Reads(n)).Some?
    ensures var flow, after := FlowAfter(base, waiting, events).value, FlowAfter(base, waiting, events + Reads(n)).value;
      && after.written == flow.written && after.arrived == flow.arrived
      && after.given == if flow.given + n <= waiting + flow.arrived then flow.given + n
                        else if flow.given <= waiting + flow.arrived then waiting + flow.arrived else flow.given
    decreases n
  {
    if n == 0 {
      assert events + Reads(n) == events;
    } else {
      EnoughReads(base, waiting, events, n - 1);
      var all := events + Reads(n);
      assert all[..|all| - 1] == events + Reads(n - 1) && all[|all| - 1] == Read;
    }
  }

  lemma {:induction false} FlowBounds(base: nat, waiting: nat, events: seq<Event>)
    requires FlowAfter(base, waiting, events).Some?
    ensures var flow := FlowAfter(base, waiting, events).value;
      flow.given <= waiting + flow.arrived && flow.arrived <= flow.written
  {
    if events != [] {
      FlowBounds(base, waiting, events[..|events| - 1]);
    }
  }

  /** Both ends are up, all written since is on the wire, and what arrived of it was accepted or waits in order. */
  ghost predicate InFlow(view: View, first: nat, base: nat, flow: Flow)
  {
    var sequence := |view.delivered| + |view.replay|;
    && view.writing && view.reading
    && |view.log| == first + flow.written && |view.wire| == base + flow.written && view.wire[base..] == view.log[first..]
    && flow.arrived <= flow.written && sequence + |view.partial| == first + flow.arrived
    && (forall i | 0 <= i < |view.partial| :: view.partial[i] == Sealed(view.log[sequence + i]))
    && (forall i | 0 <= i < |view.log| :: view.log[i].nonce == i)
  }

  /** What a read comes to, seen from outside. */
  ghost function DueIn(view: View): ReadItem
  {
    if !view.reading then NeedMore
    else if view.replay != [] then Got(view.replay[0])
    else if view.partial == [] then NeedMore
    else match Opens(view.partial[0], |view.delivered|)
      case Some(packet) => Got(packet)
      case None => Broken
  }

  /** In flow, with `given` packets read since, of those that waited or arrived. */
  ghost predicate InStream(view: View, first: nat, base: nat, waiting: nat, flow: Flow)
  {
    && InFlow(view, first, base, flow) && view.writing
    && |view.delivered| + waiting == first + flow.given && flow.given <= waiting + flow.arrived
  }

  lemma FlowStarts(view: View, events: seq<Event>)
    ensures FlowAfter(|view.wire|, |view.replay|, events[..0]) == Some(Flow(0, 0, 0))
    ensures Settled(view) ==> InStream(view, |view.log|, |view.wire|, |view.replay|, Flow(0, 0, 0))
  {
  }

  /** While the transport stays up, a read gives a packet out exactly when one has arrived. */
  lemma FlowMoves(view: View, first: nat, base: nat, waiting: nat, flow: Flow, event: Event, answer: Answer)
    requires InStream(view, first, base, waiting, flow) && Flows(base, waiting, flow, event).Some?
    requires event.Write? ==> answer.Wrote? && !answer.outcome.Skipped?
    requires event.Read? ==> answer == Gave(DueIn(view))
    ensures event.Write? || event.Arrive? || event.Read? || event.Acked?
    ensures InStream(Moved(view, event, answer), first, base, waiting, Flows(base, waiting, flow, event).value)
  {
    hide InFlow;
    match event
    case Write(packet) => FlowWrites(view, first, base, flow, packet, answer);
    case Arrive(arrivals) => FlowArrives(view, first, base, flow, arrivals, answer);
    case Read => FlowReads(view, first, base, waiting, flow);
    case Acked(_) =>
  }

  lemma FlowWrites(view: View, first: nat, base: nat, flow: Flow, packet: Packet, answer: Answer)
    requires InFlow(view, first, base, flow) && answer.Wrote? && !answer.outcome.Skipped?
    ensures InFlow(Moved(view, Write(packet), answer), first, base, flow.(written := flow.written + 1))
    ensures Moved(view, Write(packet), answer).delivered == view.delivered
  {
    var moved := Moved(view, Write(packet), answer);
    assert moved.wire[base..] == view.wire[base..] + [Frame(|view.log|, packet)];
    assert moved.log[first..] == view.log[first..] + [Frame(|view.log|, packet)];
  }

  lemma FlowArrives(view: View, first: nat, base: nat, flow: Flow, arrivals: seq<Arrival>, answer: Answer)
    requires InFlow(view, first, base, flow)
    requires InSequence(arrivals, base + flow.arrived) && flow.arrived + |arrivals| <= flow.written
    ensures InFlow(Moved(view, Arrive(arrivals), answer), first, base, flow.(arrived := flow.arrived + |arrivals|))
    ensures Moved(view, Arrive(arrivals), answer).delivered == view.delivered
  {
    hide ArrivedAll;
    CarriedInSequence(view, first, base, flow.arrived, arrivals);
    assert |ArrivedAll(view.wire, arrivals)| == |arrivals| by { ArrivedLength(view.wire, arrivals); }
  }

  lemma ArrivedLength(wire: seq<Frame>, arrivals: seq<Arrival>)
    ensures |ArrivedAll(wire, arrivals)| == |arrivals|
  {
  }

  lemma FlowReads(view: View, first: nat, base: nat, waiting: nat, flow: Flow)
    requires InFlow(view, first, base, flow)
    requires |view.delivered| + waiting == first + flow.given && flow.given <= waiting + flow.arrived
    ensures var moved := Moved(view, Read, Gave(DueIn(view)));
      var given := if flow.given < waiting + flow.arrived then flow.given + 1 else flow.given;
      InFlow(moved, first, base, flow.(given := given)) && |moved.delivered| + waiting == first + given
  {
  }

  lemma CarriedInSequence(view: View, first: nat, base: nat, arrived: nat, arrivals: seq<Arrival>)
    requires InSequence(arrivals, base + arrived)
    requires base <= |view.wire| && first <= |view.log| && view.wire[base..] == view.log[first..]
    requires arrived + |arrivals| <= |view.wire| - base
    ensures forall i | 0 <= i < |arrivals| :: ArrivedAll(view.wire, arrivals)[i] == Sealed(view.log[first + arrived + i])
  {
    forall i | 0 <= i < |arrivals| ensures ArrivedAll(view.wire, arrivals)[i] == Sealed(view.log[first + arrived + i]) {
      assert view.wire[base..][arrived + i] == view.log[first..][arrived + i];
    }
  }

  /** Both ends are up and the reader has accepted all that was written. */
  ghost predicate Settled(view: View)
  {
    && view.writing && view.reading && view.partial == []
    && |view.delivered| + |view.replay| == |view.log|
    && forall i | 0 <= i < |view.log| :: view.log[i].nonce == i
  }

  lemma NothingAnswered()
    ensures AllWritten([], []) == [] && AllGiven([]) == []
  {
  }

  lemma Joined(a: seq<Packet>, b: seq<Packet>, c: seq<Packet>)
    ensures a + (b + c) == a + b + c
  {
  }

  /** Any events, from any state; from a settled one the flow of an unbroken transport is followed exactly. */
  method RunOn(s: Session, events: seq<Event>) returns (answers: seq<Answer>)
    requires s.Valid()
    modifies s, s.writer, s.reader
    ensures s.Valid() && |answers| == |events|
    ensures PacketsOf(s.writer.log) == old(PacketsOf(s.writer.log)) + AllWritten(events, answers)
    ensures s.reader.delivered == old(s.reader.delivered) + AllGiven(answers)
    ensures var flow := FlowAfter(|old(s.wire)|, |old(s.reader.replay)|, events);
      old(Settled(s.TheView())) && flow.Some? ==> |AllWritten(events, answers)| == flow.value.written && |AllGiven(answers)| == flow.value.given
  {
    hide Session.Valid, Written, GivenOut, PacketsOf, Moved, InFlow, FlowAfter, Flows, DueIn, Settled, AllWritten, AllGiven;
    NothingAnswered();
    answers := [];
    ghost var log, delivered := PacketsOf(s.writer.log), s.reader.delivered;
    ghost var first, base, waiting := |s.writer.log|, |s.wire|, |s.reader.replay|;
    ghost var steady := Settled(s.TheView()) && FlowAfter(base, waiting, events).Some?;
    assert log + [] == log && delivered + [] == delivered;
    FlowStarts(s.TheView(), events);
    for i := 0 to |events|
      invariant s.Valid() && |answers| == i
      invariant PacketsOf(s.writer.log) == log + AllWritten(events[..i], answers)
      invariant s.reader.delivered == delivered + AllGiven(answers)
      invariant steady ==> FlowAfter(base, waiting, events[..i]).Some?
      invariant steady ==> InStream(s.TheView(), first, base, waiting, FlowAfter(base, waiting, events[..i]).value)
    {
      ghost var view := s.TheView();
      if steady {
        FlowPrefix(base, waiting, events, i + 1);
        FlowSnoc(base, waiting, events, i);
      }
      s.Seen();
      var answer := Step(s, events[i]);
      if steady {
        FlowMoves(view, first, base, waiting, FlowAfter(base, waiting, events[..i]).value, events[i], answer);
      }
      AnswersSnoc(events, answers, answer);
      Joined(log, AllWritten(events[..i], answers), Written(events[i], answer));
      Joined(delivered, AllGiven(answers), GivenOut(answer));
      answers := answers + [answer];
    }
    assert events[..|events|] == events;
    if steady {
      FlowCounts(s.TheView(), first, base, waiting, FlowAfter(base, waiting, events).value);
    }
  }

  lemma FlowCounts(view: View, first: nat, base: nat, waiting: nat, flow: Flow)
    requires InStream(view, first, base, waiting, flow)
    ensures |view.log| == first + flow.written && |view.delivered| + waiting == first + flow.given
  {
  }

  /**
    Every run: however the transport breaks, whatever the network repeats,
    reorders or damages, what the reads gave out is a prefix of what the
    writes took, and a handshake can complete it as long as the unread part
    is within the hard cap. While the transport stays up and frames arrive once
    and in order, each read gives out a packet exactly when one has arrived, so
    enough reads give out all that was written.
   */
  method Run(events: seq<Event>) returns (s: Session, answers: seq<Answer>)
    ensures fresh(s) && fresh(s.writer) && fresh(s.reader) && s.Valid() && |answers| == |events|
    ensures PacketsOf(s.writer.log) == AllWritten(events, answers) && s.reader.delivered == AllGiven(answers)
    ensures AllGiven(answers) <= AllWritten(events, answers)
    ensures s.reader.delivered + s.reader.replay == PacketsOf(s.writer.log[..s.reader.sequence])
    ensures !BeyondHardCap(s.writer.log, s.reader.sequence) ==> s.writer.Floor() <= s.reader.sequence
    ensures var flow := FlowAfter(0, 0, events);
      flow.Some? ==>
        && |AllWritten(events, answers)| == flow.value.written && |AllGiven(answers)| == flow.value.given
        && (flow.value.given == flow.value.written ==> AllGiven(answers) == AllWritten(events, answers))
  {
    hide Session.Valid, BeyondHardCap, Written, GivenOut;
    s := new Session();
    answers := RunOn(s, events);
    assert [] + AllWritten(events, answers) == AllWritten(events, answers) && [] + AllGiven(answers) == AllGiven(answers);
    s.InRange();
    s.DeliveredIsPrefix();
    if !BeyondHardCap(s.writer.log, s.reader.sequence) {
      s.HandshakeAlwaysPossible();
    }
  }

  function PacketBytes(packets: seq<Packet>): nat
  {
    if packets == [] then 0 else HEADER_LEN + |packets[0].payload| + MAC_LEN + PacketBytes(packets[1..])
  }

  /** No more than the replay buffer always holds. */
  predicate WithinCap(packets: seq<Packet>)
  {
    |packets| <= MAX_BACKUP_PACKETS && PacketBytes(packets) <= MAX_BACKUP_BYTES
  }

  lemma {:induction false} PacketBytesOnWire(log: seq<Frame>)
    ensures PacketBytes(PacketsOf(log)) == WireBytes(log)
  {
    if log != [] {
      PacketBytesOnWire(log[1..]);
      assert PacketsOf(log)[1..] == PacketsOf(log[1..]);
    }
  }

  lemma CapKept(log: seq<Frame>, i: nat)
    requires WithinCap(PacketsOf(log)) && i <= |log|
    ensures !BeyondHardCap(log, i) && |log| <= MAX_BACKUP_PACKETS
  {
    hide WireBytes, PacketsOf;
    PacketBytesOnWire(log);
    WireBytesGrow(log, 0, i);
    assert log[0..] == log;
  }

  /**
    Nothing is lost: whatever happened before, once a handshake succeeds and the
    transport stays up, and every frame sent since arrives once and in order, as
    many reads as there are packets give out all that was ever written. Up to
    64 MiB and 262144 packets the handshake always succeeds.
   */
  method RunRecovered(before: seq<Event>, after: seq<Event>, count: nat)
    returns (s: Session, first: seq<Answer>, ok: bool, base: nat, waiting: nat, second: seq<Answer>)
    ensures |first| == |before| && |second| == |after| + count
    ensures WithinCap(AllWritten(before, first)) ==> ok
    ensures ok ==> waiting == |AllWritten(before, first)| - |AllGiven(first)|
    ensures var flow := FlowAfter(base, waiting, after);
      ok && flow.Some? && flow.value.arrived == flow.value.written && count >= waiting + flow.value.written ==>
        AllGiven(first) + AllGiven(second) == AllWritten(before, first) + AllWritten(after + Reads(count), second)
  {
    hide Session.Valid, BeyondHardCap, Written, GivenOut, FlowAfter, Flows, AllWritten, AllGiven, PacketsOf, WithinCap;
    s, first := Run(before);
    s.InRange();
    if WithinCap(AllWritten(before, first)) {
      CapKept(s.writer.log, s.reader.sequence);
    }
    ok := s.RunHandshake();
    base, waiting := |s.wire|, |s.reader.replay|;
    ghost var settled := s.TheView();
    if ok {
      s.SettledNow();
    }
    second := RunOn(s, after + Reads(count));
    if ok && FlowAfter(base, waiting, after).Some? {
      EnoughReads(base, waiting, after, count);
      FlowBounds(base, waiting, after);
      s.DeliveredIsPrefix();
    }
  }
}
