/** The runtime of a local session: its peers, the passenger and the shell they share (`local_session.rs`). */
module LocalSessions {
  import opened Bytes
  import opened ExitMarkers
  import Framing
  import opened LocalQueue
  import opened Passengers
  import opened Replay
  import OwnedWrite

  const FAILURE := 0x8000_0003

  datatype Peer = Peer(
    control: bool, output: seq<byte>, closing: bool, attached: bool, pendingSession: Option<(nat, seq<byte>)>)

  /** `reply`: refused when the peer does not read. */
  function Reply(peer: Peer, bytes: seq<byte>): Option<Peer>
  {
    if |peer.output| + |bytes| > Framing.MAX_REPLY then None else Some(peer.(output := peer.output + bytes))
  }

  /** The peers once `peer` was told `bytes`, or lost because it does not read. */
  function Replied(peers: map<nat, Peer>, id: nat, peer: Peer, bytes: seq<byte>): map<nat, Peer>
  {
    if |peer.output| + |bytes| <= Framing.MAX_REPLY then peers[id := peer.(output := peer.output + bytes)] else peers - {id}
  }

  /** A mux reply made of 32-bit words. */
  function WordFrame(words: seq<nat>): seq<byte>
    requires forall i | 0 <= i < |words| :: words[i] < Framing.U32
  {
    Framing.MuxFrame(Framing.Words(words))
  }

  function FailureFrame(request: nat): seq<byte>
    requires request < Framing.U32
  {
    var message := Ascii("shared shell unavailable or busy");
    Framing.MuxFrame(Framing.Words([FAILURE, request]) + Framing.Be32(|message|) + message)
  }

  type Word = x: int | 0 <= x < Framing.U32

  /** What a peer can be told. */
  datatype Answer = Hello | Refused(request: Word) | Open(request: Word, session: Word) | Exit(session: Word, status: Word)

  function Encoded(answer: Answer): seq<byte>
  {
    match answer
    case Hello => WordFrame([HELLO, 4])
    case Refused(request) => FailureFrame(request)
    case Open(request, session) => WordFrame([OPENED, request, session])
    case Exit(session, status) => WordFrame([EXIT, session, status])
  }

  /** The answers on the wire: length, opcode, and the words in the order the peer reads them. */
  lemma AnswersAsBytes(request: Word, session: Word, status: Word)
    ensures Encoded(Hello) == Framing.Be32(8) + Framing.Be32(1) + Framing.Be32(4)
    ensures Encoded(Open(request, session))
         == Framing.Be32(12) + Framing.Be32(0x8000_0006) + Framing.Be32(request) + Framing.Be32(session)
    ensures Encoded(Exit(session, status))
         == Framing.Be32(12) + Framing.Be32(0x8000_0004) + Framing.Be32(session) + Framing.Be32(status)
    ensures Encoded(Refused(request))[4..12] == Framing.Be32(0x8000_0003) + Framing.Be32(request)
  {
    hide Framing.Be32;
    TwoWords(HELLO, 4);
    ThreeWords(OPENED, request, session);
    ThreeWords(EXIT, session, status);
    TwoWords(FAILURE, request);
  }

  lemma TwoWords(a: Word, b: Word)
    ensures Framing.Words([a, b]) == Framing.Be32(a) + Framing.Be32(b)
  {
    hide Framing.Be32;
    assert [a, b][1..] == [b] && [b][1..] == [];
    assert Framing.Words([b]) == Framing.Be32(b) + Framing.Words([]);
  }

  lemma ThreeWords(a: Word, b: Word, c: Word)
    ensures Framing.Words([a, b, c]) == Framing.Be32(a) + Framing.Be32(b) + Framing.Be32(c)
  {
    hide Framing.Be32;
    TwoWords(b, c);
    assert [a, b, c][1..] == [b, c];
    assert Framing.Be32(a) + (Framing.Be32(b) + Framing.Be32(c)) == Framing.Be32(a) + Framing.Be32(b) + Framing.Be32(c);
  }

  ghost function Rendered(answers: seq<Answer>): seq<byte>
  {
    if answers == [] then [] else Rendered(answers[..|answers| - 1]) + Encoded(answers[|answers| - 1])
  }

  lemma RenderedMore(answers: seq<Answer>, answer: Answer)
    ensures Rendered(answers + [answer]) == Rendered(answers) + Encoded(answer)
  {
    assert (answers + [answer])[..|answers|] == answers;
  }

  ghost predicate Exited(answers: seq<Answer>)
  {
    exists k | 0 <= k < |answers| :: answers[k].Exit?
  }

  /** An EXIT is the last thing a peer is told, names its own session, and carries the status its own session ended with. */
  ghost predicate ExitsOwn(said: map<nat, seq<Answer>>, trace: seq<ShellEvent>)
  {
    forall id, k | id in said && 0 <= k < |said[id]| && said[id][k].Exit? ::
      k == |said[id]| - 1 && said[id][k].session == id && Finished(Some(id), said[id][k].status) in trace
  }

  /** The bytes a peer has and those that wait for it make up its answers, and only a closed session was told its exit. */
  ghost predicate Faithful(peer: Peer, answers: seq<Answer>, received: seq<byte>)
  {
    received + peer.output == Rendered(answers) && (Exited(answers) ==> peer.attached && peer.closing)
  }

  /** Which session a peer waits for is not among its answers. */
  lemma FaithfulAsking(peer: Peer, answers: seq<Answer>, received: seq<byte>, asked: Option<(nat, seq<byte>)>)
    requires Faithful(peer, answers, received)
    ensures Faithful(peer.(pendingSession := asked), answers, received)
    ensures !peer.attached || !peer.closing ==> !Exited(answers)
    ensures peer.attached ==> Faithful(peer.(closing := true), answers, received)
    ensures !peer.attached ==> Faithful(peer.(attached := true), answers, received)
  {
  }

  lemma FaithfulNew(control: bool)
    ensures Faithful(Peer(control, if control then [] else Encoded(Hello), false, false, None), if control then [] else [Hello], [])
  {
    RenderedMore([], Hello);
  }

  lemma FaithfulFlushed(peer: Peer, answers: seq<Answer>, received: seq<byte>, count: nat)
    requires Faithful(peer, answers, received) && count <= |peer.output|
    ensures Faithful(peer.(output := peer.output[count..]), answers, received + peer.output[..count])
  {
    assert received + peer.output[..count] + peer.output[count..] == received + peer.output;
  }

  lemma FaithfulAnswered(peer: Peer, answers: seq<Answer>, received: seq<byte>, answer: Answer)
    requires Faithful(peer, answers, received) && !Exited(answers)
    ensures !answer.Exit? ==> Faithful(peer.(output := peer.output + Encoded(answer)), answers + [answer], received)
    ensures peer.attached ==> Faithful(peer.(output := peer.output + Encoded(answer), closing := true), answers + [answer], received)
  {
    hide Rendered, Encoded;
    RenderedMore(answers, answer);
    assert received + (peer.output + Encoded(answer)) == received + peer.output + Encoded(answer);
    assert forall k | 0 <= k < |answers| :: (answers + [answer])[k] == answers[k];
  }

  lemma ExitsOwnLater(said: map<nat, seq<Answer>>, trace: seq<ShellEvent>, event: ShellEvent)
    requires ExitsOwn(said, trace)
    ensures ExitsOwn(said, trace + [event])
  {
  }

  lemma ExitsOwnNew(said: map<nat, seq<Answer>>, trace: seq<ShellEvent>, id: nat, answers: seq<Answer>)
    requires ExitsOwn(said, trace) && (answers == [] || answers == [Hello])
    ensures ExitsOwn(said[id := answers], trace)
  {
  }

  lemma ExitsOwnAnswered(said: map<nat, seq<Answer>>, trace: seq<ShellEvent>, id: nat, answer: Answer)
    requires ExitsOwn(said, trace) && id in said && !Exited(said[id])
    requires answer.Exit? ==> answer.session == id && Finished(Some(id), answer.status) in trace
    ensures ExitsOwn(said[id := said[id] + [answer]], trace)
    ensures Exited(said[id] + [answer]) <==> answer.Exit?
  {
    var more := said[id] + [answer];
    assert forall k | 0 <= k < |said[id]| :: more[k] == said[id][k];
    assert more[|said[id]|] == answer;
  }

  /** The line that runs a command in a subshell and prints its status behind the marker. */
  function CommandLine(marker: seq<byte>, command: seq<byte>): seq<byte>
  {
    Ascii("(eval '") + EscapeQuotes(command) + Ascii("'); printf '\\n") + marker + Ascii("%d\\n' $?\n")
  }

  /** What a non-blocking write or read of the passenger's descriptors comes to. */
  datatype FlushResult = Wrote(count: nat) | Again | FlushError

  datatype InputResult = Bytes(bytes: seq<byte>) | Eof | Nothing | InputError

  class Runtime {
    const queue: Outbound
    var peers: map<nat, Peer>
    var nextId: nat
    var passenger: Passenger?
    var primaryFinished: bool
    var primaryStatus: nat
    ghost var trace: seq<ShellEvent>
    /** Everything a peer was told, and the part of it that reached its socket. */
    ghost var said: map<nat, seq<Answer>>
    ghost var received: map<nat, seq<byte>>

    /** The peer has the shell. */
    ghost predicate Holds(id: nat)
      reads this`passenger
    {
      passenger != null && passenger.peer == Some(id)
    }

    ghost function TheShell(): Shell
      reads this`passenger, passenger
    {
      if passenger == null then Free else Held(passenger.peer, passenger.MarkerText(), passenger.packets, passenger.flushed, passenger.failed, passenger.orphaned)
    }

    ghost predicate PassengerValid()
      reads this`passenger, passenger, if passenger == null then {} else {passenger.marker}
    {
      passenger != null ==> passenger.Valid()
    }

    /** Peer numbers are never given out twice, and a peer is attached and open exactly while it has the shell. */
    ghost predicate PeersValid()
      reads this`peers, this`nextId, this`passenger
    {
      && nextId < Framing.U32
      && (forall id | id in peers ::
            id < nextId && (peers[id].attached && !peers[id].closing <==> Holds(id)))
      && (passenger != null && passenger.peer.Some? ==> passenger.peer.value < nextId)
    }

    /** A peer's socket and its queued output make up the answers it was given, and nothing follows an EXIT. */
    ghost predicate RepliesValid()
      reads this`peers, this`nextId, this`said, this`received
    {
      && (forall id | id in said :: id < nextId)
      && (forall id | id in peers ::
            id in said && id in received && Faithful(peers[id], said[id], received[id]))
    }

    ghost predicate Valid()
      reads this, passenger, if passenger == null then {} else {passenger.marker}
      reads queue, queue.connection, queue.connection.writer
    {
      && queue.Valid() && PassengerValid() && PeersValid() && RepliesValid() && ExitsOwn(said, trace)
      && ShellAfter(trace) == Some(TheShell())
    }

    /** The master's own terminal is the first passenger unless the primary session is over. */
    constructor (queue: Outbound, primary: bool)
      requires queue.Valid()
      ensures Valid() && this.queue == queue && peers == map[] && nextId == 1 && primaryFinished == !primary
      ensures if primary then fresh(passenger) && passenger.marker == null else passenger == null
      ensures trace == if primary then [Admitted(None, None)] else []
    {
      this.queue := queue;
      peers, nextId, primaryFinished, primaryStatus := map[], 1, !primary, 0;
      passenger := null;
      trace, said, received := [], map[], map[];
      new;
      hide *;
      StartsValid();
      if primary {
        AdmitPrimary();
      }
    }

    lemma StartsValid()
      requires queue.Valid() && peers == map[] && nextId == 1 && passenger == null
      requires trace == [] && said == map[] && received == map[]
      ensures Valid()
    {
      hide Outbound.Valid, ShellAfter, ExitsOwn, Faithful;
      NobodyYet();
    }

    method AdmitPrimary()
      requires Valid() && passenger == null
      modifies this`passenger, this`trace
      ensures Valid() && fresh(passenger) && passenger.marker == null
      ensures trace == old(trace) + [Admitted(None, None)]
    {
      hide Outbound.Valid, ShellAfter, ExitsOwn, RepliesValid, Passenger.Valid;
      Note(Admitted(None, None), Free);
      passenger := new Passenger(None, null);
    }

    /** `accept`: the next number, never an old one. */
    method Accept(control: bool) returns (ok: bool)
      requires Valid()
      modifies this`peers, this`nextId, this`said, this`received
      ensures Valid()
      ensures ok <==> |old(peers)| >= MAX_CLIENTS || old(nextId) + 1 < Framing.U32
      ensures !ok || |old(peers)| >= MAX_CLIENTS ==> peers == old(peers) && nextId == old(nextId)
      ensures ok && |old(peers)| < MAX_CLIENTS ==>
        && old(nextId) !in old(peers) && nextId == old(nextId) + 1
        && peers == old(peers)[old(nextId) := Peer(control, if control then [] else Encoded(Hello), false, false, None)]
    {
      hide ShellAfter, Outbound.Valid, PassengerValid, PeersValid, RepliesValid, ExitsOwn;
      ok := true;
      if |peers| >= MAX_CLIENTS {
        return;
      }
      var id := nextId;
      if nextId + 1 >= Framing.U32 {
        return false;
      }
      Add(id, control);
    }

    method Add(id: nat, control: bool)
      requires PeersValid() && RepliesValid() && ExitsOwn(said, trace) && id == nextId && nextId + 1 < Framing.U32
      modifies this`peers, this`nextId, this`said, this`received
      ensures PeersValid() && RepliesValid() && ExitsOwn(said, trace)
      ensures nextId == old(nextId) + 1 && id !in old(peers)
      ensures peers == old(peers)[id := Peer(control, if control then [] else Encoded(Hello), false, false, None)]
    {
      hide Faithful, ExitsOwn, Encoded;
      nextId := nextId + 1;
      var greeting := if control then [] else Encoded(Hello);
      peers := peers[id := Peer(control, greeting, false, false, None)];
      FaithfulNew(control);
      ExitsOwnNew(said, trace, id, if control then [] else [Hello]);
      said, received := said[id := if control then [] else [Hello]], received[id := []];
    }

    /** `reply`, and the loss of a peer that does not read. */
    method Tell(id: nat, peer: Peer, answer: Answer) returns (ok: bool)
      requires PeersValid() && RepliesValid() && ExitsOwn(said, trace) && id in peers && !answer.Exit?
      requires !peer.attached && peers[id].(pendingSession := peer.pendingSession) == peer
      modifies this`peers, this`said
      ensures PeersValid() && RepliesValid() && ExitsOwn(said, trace)
      ensures ok <==> |peer.output| + |Encoded(answer)| <= Framing.MAX_REPLY
      ensures peers == Replied(old(peers), id, peer, Encoded(answer))
    {
      hide Faithful, ExitsOwn, Encoded;
      var told := Reply(peer, Encoded(answer));
      ok := told.Some?;
      if ok {
        FaithfulAsking(peers[id], said[id], received[id], peer.pendingSession);
        FaithfulAnswered(peer, said[id], received[id], answer);
        ExitsOwnAnswered(said, trace, id, answer);
        said := said[id := said[id] + [answer]];
        peers := peers[id := told.value];
      } else {
        peers := peers - {id};
      }
    }

    /** A peer's bytes reach its socket. */
    method FlushPeer(id: nat, count: nat)
      requires Valid() && id in peers && count <= |peers[id].output|
      modifies this`peers, this`received
      ensures Valid() && peers == old(peers)[id := old(peers)[id].(output := old(peers)[id].output[count..])]
      ensures id in old(received) && received == old(received)[id := old(received)[id] + old(peers)[id].output[..count]]
    {
      hide ShellAfter, Outbound.Valid, Passenger.Valid, Faithful, ExitsOwn;
      FaithfulFlushed(peers[id], said[id], received[id], count);
      received := received[id := received[id] + peers[id].output[..count]];
      peers := peers[id := peers[id].(output := peers[id].output[count..])];
    }

    /** A peer asks for a session; its descriptors follow. */
    method RequestSession(id: nat, request: nat, command: seq<byte>)
      requires Valid() && id in peers && !peers[id].control && !peers[id].attached && request < Framing.U32
      modifies this`peers, this`said
      ensures Valid()
      ensures peers == if |queue.pending| + 16 <= MAX_PENDING
                       then old(peers)[id := old(peers)[id].(pendingSession := Some((request, command)))]
                       else Replied(old(peers), id, old(peers)[id], Encoded(Refused(request)))
    {
      hide ShellAfter, Outbound.Valid, Passenger.Valid, ExitsOwn, Faithful, Encoded;
      var peer := peers[id];
      if |queue.pending| + 16 > MAX_PENDING {
        var _ := Tell(id, peer, Refused(request));
        return;
      }
      FaithfulAsking(peer, said[id], received[id], Some((request, command)));
      peers := peers[id := peer.(pendingSession := Some((request, command)))];
    }

    /**
      The descriptors of a requested session are complete: the peer gets the
      shell if nobody has it, and a command goes out wrapped in its marker.
     */
    method OpenSession(id: nat, noShell: bool, key: seq<byte>)
      requires Valid() && id in peers && !peers[id].attached && !peers[id].closing && COLON !in key
      requires peers[id].pendingSession.Some? && peers[id].pendingSession.value.0 < Framing.U32
      modifies this`peers, this`passenger, this`trace, this`said, queue`pending, queue`produced
      ensures Valid()
      ensures var (request, command) := old(peers)[id].pendingSession.value;
        var peer := old(peers)[id].(pendingSession := None);
        var open := Encoded(Open(request, id));
        var free := old(passenger) == null && !noShell && |old(queue.pending)| + 16 <= MAX_PENDING;
        if free && |peer.output| + |open| <= Framing.MAX_REPLY then
          && passenger != null && fresh(passenger) && passenger.peer == Some(id) && passenger.packets == []
          && passenger.MarkerText() == (if command == [] then None else Some(MarkerFor(key)))
          && (passenger.marker != null ==> fresh(passenger.marker))
          && peers == old(peers)[id := peer.(attached := true, output := peer.output + open)]
          && trace == old(trace) + [Admitted(Some(id), passenger.MarkerText())]
          && queue.produced == old(queue.produced)
               + (if command == [] then [] else InputPackets(Chunks(CommandLine(MarkerFor(key), command))))
        else
          && passenger == old(passenger) && trace == old(trace) && queue.produced == old(queue.produced)
          && peers == Replied(old(peers), id, peer, if free then open else Encoded(Refused(request)))
    {
      hide ShellAfter, Outbound.Valid, Passenger.Valid, MarkerFor, CommandLine, Chunks, ExitsOwn, Faithful, Encoded, Next;
      var peer := peers[id];
      var (request, command) := peer.pendingSession.value;
      peer := peer.(pendingSession := None);
      if passenger != null || noShell || |queue.pending| + 16 > MAX_PENDING {
        var _ := Tell(id, peer, Refused(request));
        return;
      }
      var ok := Tell(id, peer, Open(request, id));
      if ok {
        Grant(id, key, command);
      }
    }

    method Grant(id: nat, key: seq<byte>, command: seq<byte>)
      requires Valid() && passenger == null && id in peers && !peers[id].attached && !peers[id].closing && COLON !in key
      modifies this`peers, this`passenger, this`trace, queue`pending, queue`produced
      ensures Valid() && peers == old(peers)[id := old(peers)[id].(attached := true)]
      ensures fresh(passenger) && passenger.peer == Some(id) && passenger.packets == []
      ensures passenger.marker != null ==> fresh(passenger.marker)
      ensures trace == old(trace) + [Admitted(Some(id), passenger.MarkerText())]
      ensures passenger.MarkerText() == if command == [] then None else Some(MarkerFor(key))
      ensures queue.produced == old(queue.produced)
        + if command == [] then [] else InputPackets(Chunks(CommandLine(MarkerFor(key), command)))
    {
      hide ShellAfter, Outbound.Valid, Passenger.Valid, MarkerFor, CommandLine, Chunks, ExitsOwn, Faithful, Next;
      var text: Option<seq<byte>> := if command == [] then None else Some(MarkerFor(key));
      Admit(id, key, text);
      FaithfulAsking(peers[id], said[id], received[id], None);
      peers := peers[id := peers[id].(attached := true)];
      if command != [] {
        queue.Input(CommandLine(MarkerFor(key), command));
      }
    }

    /** The next event of the shell. */
    ghost method Note(event: ShellEvent, shell: Shell)
      requires ShellAfter(trace) == Some(shell) && ExitsOwn(said, trace)
      modifies this`trace
      ensures trace == old(trace) + [event] && ShellAfter(trace) == Next(shell, event) && ExitsOwn(said, trace)
    {
      RunStep(trace, event, shell);
      ExitsOwnLater(said, trace, event);
      trace := trace + [event];
    }

    method Admit(id: nat, key: seq<byte>, text: Option<seq<byte>>)
      requires passenger == null && ShellAfter(trace) == Some(Free) && ExitsOwn(said, trace)
      requires text.Some? ==> text.value == MarkerFor(key) && COLON !in key
      modifies this`passenger, this`trace
      ensures fresh(passenger) && passenger.Valid() && passenger.peer == Some(id) && passenger.packets == []
      ensures passenger.MarkerText() == text && (passenger.marker != null ==> fresh(passenger.marker))
      ensures trace == old(trace) + [Admitted(Some(id), text)] && ShellAfter(trace) == Some(TheShell())
      ensures ExitsOwn(said, trace)
    {
      hide ShellAfter, MarkerFor, ExitsOwn;
      var marker: ExitMarker? := null;
      if text.Some? {
        MarkerIsBorderless(key);
        marker := new ExitMarker(MarkerFor(key));
      }
      passenger := new Passenger(Some(id), marker);
      Note(Admitted(Some(id), text), Free);
    }

    /** `stop`: queued packets are dropped and nothing more is read; the shell stays with its passenger. */
    method Stop()
      requires Valid()
      modifies queue`pending, queue`stopping, passenger
      ensures Valid() && queue.stopping && (passenger != null && !old(queue.stopping) ==> !passenger.readInput)
      ensures !old(queue.stopping) ==> queue.pending == []
    {
      hide ShellAfter, Outbound.Valid, Passenger.Valid, PeersValid;
      if !queue.stopping {
        queue.Stop();
        if passenger != null {
          passenger.CloseInput();
        }
      }
    }

    /** A peer goes away: a marked command keeps the shell, an open terminal gives it back. */
    method LosePeer(id: nat)
      requires Valid() && id in peers
      modifies this`peers, this`passenger, this`trace, passenger
      ensures Valid() && peers == old(peers) - {id}
      ensures !old(Holds(id)) ==> passenger == old(passenger) && trace == old(trace)
      ensures !old(Holds(id)) && passenger != null ==> passenger.readInput == old(passenger.readInput)
      ensures old(Holds(id)) && old(passenger).marker != null ==>
        passenger == old(passenger) && passenger.orphaned && !passenger.readInput && trace == old(trace) + [Orphaned(Some(id))]
      ensures old(Holds(id)) && old(passenger).marker == null ==>
        passenger == null && trace == old(trace) + [Left(Some(id))]
    {
      hide ShellAfter, Outbound.Valid, Passenger.Valid, ExitsOwn, Faithful, TheShell;
      peers := peers - {id};
      if passenger != null && passenger.peer == Some(id) {
        Unseat(id);
      }
    }

    /** The peer that has the shell is gone. */
    method Unseat(id: nat)
      requires PassengerValid() && Holds(id) && ShellAfter(trace) == Some(TheShell()) && ExitsOwn(said, trace)
      modifies this`passenger, this`trace, passenger
      ensures PassengerValid() && ShellAfter(trace) == Some(TheShell()) && ExitsOwn(said, trace)
      ensures old(passenger).marker != null ==>
        passenger == old(passenger) && passenger.orphaned && !passenger.readInput && trace == old(trace) + [Orphaned(Some(id))]
      ensures old(passenger).marker == null ==> passenger == null && trace == old(trace) + [Left(Some(id))]
    {
      hide ShellAfter, Passenger.Valid, ExitsOwn;
      if passenger.marker != null {
        Note(Orphaned(Some(id)), TheShell());
        passenger.Orphan();
      } else {
        Note(Left(Some(id)), TheShell());
        passenger := null;
      }
    }

    /** `output`: the shell printed something; a passenger whose output does not fit fails. */
    method Output(bytes: seq<byte>)
      requires Valid()
      modifies this`trace, passenger, if passenger == null then {} else {passenger.marker}
      ensures Valid()
      ensures passenger != null ==> passenger.packets == old(passenger.packets) + [bytes]
      ensures trace == old(trace) + [Heard(bytes)] + if passenger != null && passenger.failed && !old(passenger.failed) then [Failed] else []
      ensures passenger != null ==>
        (passenger.failed <==>
           || old(passenger.failed)
           || (!old(passenger.orphaned)
               && |Shown(passenger.MarkerText(), passenger.packets)| - |passenger.flushed| > Framing.MAX_REPLY))
      ensures passenger != null && !passenger.failed ==> passenger.readInput == old(passenger.readInput)
    {
      hide ShellAfter, Outbound.Valid, ExitMarker.Valid, ExitsOwn, RepliesValid, PeersValid;
      hide Passenger.Scans, Shown, Earned;
      Note(Heard(bytes), TheShell());
      if passenger != null {
        var ok := passenger.Receive(bytes);
        if !ok {
          Note(Failed, TheShell());
          passenger.Fail();
        }
      }
    }

    /**
      `pump_passenger`: move bytes both ways; exactly when the status is known and
      all output is out, the shell is free again and the peer learns the status.
     */
    method PumpPassenger(flush: FlushResult, size: Option<seq<byte>>, input: InputResult) returns (ended: Option<nat>)
      requires Valid() && (input.Bytes? ==> 0 < |input.bytes| <= INPUT_CHUNK)
      modifies this`peers, this`passenger, this`trace, this`said, this`primaryFinished, this`primaryStatus
      modifies passenger, queue`pending, queue`produced
      ensures Valid()
      ensures old(passenger) == null ==>
        ended.None? && passenger == null && trace == old(trace) && peers == old(peers) && queue.produced == old(queue.produced)
      ensures old(passenger) != null ==>
        var p := old(passenger);
        var report := SizeReport(size, |old(queue.pending)|, queue.stopping);
        var asks := ReadsInput(old(p.readInput), old(p.status), |old(queue.pending)| + |report|);
        var broke := Breaks(old(p.queued), flush, asks, input);
        && p.failed == (old(p.failed) || broke)
        && (p.readInput <==> old(p.readInput) && !broke && !(asks && input.Eof?))
        && p.queued == (if broke then [] else Rest(old(p.queued), flush))
        && p.status == (if broke && p.marker == null then Some(FAILED_STATUS) else old(p.status))
        && (ended.Some? <==> p.status.Some? && p.queued == [])
        && (ended.Some? ==> passenger == null && ended.value == if p.failed then FAILED_STATUS else p.status.value)
        && (ended.None? ==> passenger == p && peers == old(peers))
        && trace == old(trace) + [Flushed(Gone(old(p.queued), flush))] + (if broke then [Failed] else [])
                  + (if ended.Some? then [Finished(p.peer, ended.value)] else [])
        && p.flushed == old(p.flushed) + Gone(old(p.queued), flush)
        && (ended.Some? ==> ended.value <= FAILED_STATUS && Told(old(peers), peers, p.peer, ended.value))
        && (ended.Some? && p.peer.None? ==> primaryFinished && primaryStatus == ended.value)
        && queue.produced == old(queue.produced) + report + InputPackets(Chunks(InputTaken(asks, input)))
    {
      hide ShellAfter, Outbound.Valid, ExitMarker.Valid, Told, Passenger.Valid, PeersValid, RepliesValid, ExitsOwn;
      hide Chunks, InputTaken, SizeReport, ReadsInput, Breaks, Rest, Gone;
      ended := None;
      if passenger == null {
        return;
      }
      var typed := Serve(flush, size, input);
      if passenger.status.Some? && passenger.queued == [] {
        var status := Finish();
        ended := Some(status);
      }
      queue.Input(typed);
    }

    /** Move bytes both ways, and note what reached the passenger and whether it failed. */
    method Serve(flush: FlushResult, size: Option<seq<byte>>, input: InputResult) returns (typed: seq<byte>)
      requires Valid() && passenger != null && (input.Bytes? ==> 0 < |input.bytes| <= INPUT_CHUNK)
      modifies this`trace, queue`pending, queue`produced
      modifies passenger`queued, passenger`flushed, passenger`readInput, passenger`failed, passenger`orphaned, passenger`status
      ensures Valid()
      ensures var p := passenger;
        var report := SizeReport(size, |old(queue.pending)|, queue.stopping);
        var asks := ReadsInput(old(p.readInput), old(p.status), |old(queue.pending)| + |report|);
        var broke := Breaks(old(p.queued), flush, asks, input);
        && p.failed == (old(p.failed) || broke)
        && (p.readInput <==> old(p.readInput) && !broke && !(asks && input.Eof?))
        && p.queued == (if broke then [] else Rest(old(p.queued), flush))
        && p.status == (if broke && p.marker == null then Some(FAILED_STATUS) else old(p.status))
        && p.flushed == old(p.flushed) + Gone(old(p.queued), flush)
        && trace == old(trace) + [Flushed(Gone(old(p.queued), flush))] + (if broke then [Failed] else [])
        && typed == InputTaken(asks, input)
        && queue.pending == old(queue.pending) + report && queue.produced == old(queue.produced) + report
    {
      hide ShellAfter, Outbound.Valid, Passenger.Valid, PeersValid, RepliesValid, ExitsOwn;
      hide InputTaken, SizeReport, ReadsInput, Breaks, Rest, Gone;
      ghost var shell, gone := TheShell(), Gone(passenger.queued, flush);
      var broke;
      typed, broke := Exchange(passenger, queue, flush, size, input);
      Note(Flushed(gone), shell);
      if broke {
        Note(Failed, shell.(flushed := shell.flushed + gone));
      }
    }

    method Finish() returns (status: nat)
      requires Valid() && passenger != null && passenger.status.Some? && passenger.queued == []
      modifies this`peers, this`passenger, this`trace, this`said, this`primaryFinished, this`primaryStatus
      ensures Valid() && passenger == null && status <= FAILED_STATUS
      ensures status == if old(passenger.failed) then FAILED_STATUS else old(passenger.status).value
      ensures trace == old(trace) + [Finished(old(passenger).peer, status)]
      ensures Told(old(peers), peers, old(passenger).peer, status)
      ensures old(passenger).peer.None? ==> primaryFinished && primaryStatus == status
      ensures old(passenger).peer.Some? ==> primaryFinished == old(primaryFinished) && primaryStatus == old(primaryStatus)
    {
      hide ShellAfter, Outbound.Valid, Passenger.Valid, ExitsOwn, PeersValid, RepliesValid, Told;
      status := if passenger.failed then FAILED_STATUS else passenger.status.value;
      NoteEnd(status);
      Release(status);
    }

    /** The shell is free again; the peer that had it learns the status if it is still there. */
    method Release(status: Word)
      requires PeersValid() && RepliesValid() && ExitsOwn(said, trace)
      requires passenger != null && Finished(passenger.peer, status) in trace
      modifies this`peers, this`passenger, this`said, this`primaryFinished, this`primaryStatus
      ensures PeersValid() && RepliesValid() && ExitsOwn(said, trace) && passenger == null
      ensures Told(old(peers), peers, old(passenger).peer, status)
      ensures old(passenger).peer.None? ==> primaryFinished && primaryStatus == status
      ensures old(passenger).peer.Some? ==> primaryFinished == old(primaryFinished) && primaryStatus == old(primaryStatus)
    {
      hide ExitsOwn, RepliesValid, Told;
      var peer := passenger.peer;
      passenger := null;
      if peer.Some? {
        if peer.value in peers {
          CloseWith(peer.value, status);
        }
      } else {
        primaryFinished, primaryStatus := true, status;
      }
      NobodyTold(old(peers), peers, peer, status);
    }

    ghost method NoteEnd(status: nat)
      requires PassengerValid() && passenger != null && passenger.status.Some? && passenger.queued == []
      requires ShellAfter(trace) == Some(TheShell()) && ExitsOwn(said, trace)
      requires status == if passenger.failed then FAILED_STATUS else passenger.status.value
      modifies this`trace
      ensures trace == old(trace) + [Finished(passenger.peer, status)] && ShellAfter(trace) == Some(Free)
      ensures ExitsOwn(said, trace) && status <= FAILED_STATUS
    {
      hide ShellAfter, Passenger.Valid, ExitsOwn, Earned, Shown;
      StatusEarned(passenger);
      AllServed(passenger);
      Note(Finished(passenger.peer, status), TheShell());
    }

    /** The peer's session is over: its EXIT is queued if there is room, and the peer is closed. */
    method CloseWith(id: nat, status: Word)
      requires RepliesValid() && ExitsOwn(said, trace) && id in peers && peers[id].attached && !peers[id].closing
      requires nextId < Framing.U32 && Finished(Some(id), status) in trace
      modifies this`peers, this`said
      ensures RepliesValid() && ExitsOwn(said, trace) && id < Framing.U32
      ensures Told(old(peers), peers, Some(id), status) && peers.Keys == old(peers).Keys
      ensures forall other | other in peers ::
        (peers[other].attached && !peers[other].closing <==> other != id && old(peers)[other].attached && !old(peers)[other].closing)
    {
      hide ExitsOwn, Faithful, WordFrame;
      var exit := Exit(id, status);
      var answer := Reply(peers[id], Encoded(exit));
      FaithfulAsking(peers[id], said[id], received[id], peers[id].pendingSession);
      if answer.Some? {
        FaithfulAnswered(peers[id], said[id], received[id], exit);
        ExitsOwnAnswered(said, trace, id, exit);
        said := said[id := said[id] + [exit]];
      }
      var told := if answer.Some? then answer.value else peers[id];
      peers := peers[id := told.(closing := true)];
    }
  }

  lemma NobodyYet()
    ensures ShellAfter([]) == Some(Free) && ExitsOwn(map[], [])
  {
  }

  /** The peer that had the shell, if it is still there, gets the status and is closed; no other peer changes. */
  ghost predicate Told(before: map<nat, Peer>, after: map<nat, Peer>, peer: Option<nat>, status: nat)
    requires status < Framing.U32
  {
    if peer.Some? && peer.value in before && peer.value < Framing.U32 then
      var id := peer.value;
      var exit := WordFrame([EXIT, id, status]);
      var kept := if |before[id].output| + |exit| > Framing.MAX_REPLY then before[id].output else before[id].output + exit;
      after == before[id := before[id].(output := kept, closing := true)]
    else
      after == before
  }

  lemma NobodyTold(before: map<nat, Peer>, after: map<nat, Peer>, peer: Option<nat>, status: Word)
    ensures after == before && (peer.None? || peer.value !in before) ==> Told(before, after, peer, status)
  {
  }

  lemma AllServed(p: Passenger)
    requires p.Valid() && p.queued == []
    ensures p.orphaned || p.flushed == Shown(p.MarkerText(), p.packets)
  {
    assert p.flushed + [] == p.flushed;
  }

  lemma PassengerParts(p: Passenger)
    requires p.Valid()
    ensures p.Scans() && p.Bounded()
  {
  }

  /** A status is at most 255, and it is the passenger's own. */
  lemma StatusEarned(p: Passenger)
    requires p.Valid() && p.status.Some?
    ensures var status := if p.failed then FAILED_STATUS else p.status.value;
      status <= FAILED_STATUS && Earned(p.MarkerText(), p.packets, p.failed, status)
  {
    hide ScanAll, Shown;
    if p.marker != null {
      ScanIsOwn(p.marker.marker, p.packets);
      var i :| StatusLineAt(p.marker.marker, Flatten(p.packets), i, p.status.value);
    }
  }

  /** What a write takes of the queued output, and what it leaves. */
  function Gone(queued: seq<byte>, flush: FlushResult): seq<byte>
  {
    if !flush.Wrote? then [] else if flush.count < |queued| then queued[..flush.count] else queued
  }

  function Rest(queued: seq<byte>, flush: FlushResult): seq<byte>
  {
    queued[|Gone(queued, flush)|..]
  }

  /** The queued output meets the passenger's descriptor. */
  method FlushOutput(p: Passenger, flush: FlushResult) returns (failed: bool)
    requires p.Valid()
    modifies p`queued, p`flushed
    ensures p.Valid() && p.queued == Rest(old(p.queued), flush)
    ensures p.flushed == old(p.flushed) + Gone(old(p.queued), flush)
    ensures failed <==> old(p.queued) != [] && (flush == FlushError || flush == Wrote(0))
  {
    hide Shown, ScanAll;
    ghost var queued := p.queued;
    assert p.flushed + queued == p.flushed + Gone(queued, flush) + Rest(queued, flush);
    p.flushed := p.flushed + Gone(queued, flush);
    failed := false;
    if p.queued == [] {
      return;
    }
    match flush
    case Wrote(count) =>
      if count == 0 {
        failed := true;
      }
      p.queued := if count < |p.queued| then p.queued[count..] else [];
    case Again =>
    case FlushError => failed := true;
  }

  /** A changed terminal size is reported while there is room and the session runs. */
  function SizeReport(size: Option<seq<byte>>, pending: nat, stopping: bool): seq<Packet>
  {
    if size.Some? && pending < MAX_PENDING && !stopping then [Packet(OwnedWrite.TERMINAL_INFO, size.value)] else []
  }

  /** Input is read until it ends or the status is known, while there is room. */
  predicate ReadsInput(readInput: bool, status: Option<nat>, pending: nat)
  {
    readInput && status.None? && pending < MAX_PENDING
  }

  function InputTaken(asks: bool, input: InputResult): seq<byte>
  {
    if asks && input.Bytes? then input.bytes else []
  }

  /** The exchange fails: output was due and could not be written, or input was due and could not be read. */
  predicate Breaks(queued: seq<byte>, flush: FlushResult, asks: bool, input: InputResult)
  {
    || (queued != [] && (flush == FlushError || flush == Wrote(0)))
    || (asks && input.InputError?)
  }

  /** Output to the passenger, its terminal size and its input; any error makes it fail. */
  method Exchange(p: Passenger, q: Outbound, flush: FlushResult, size: Option<seq<byte>>, input: InputResult)
    returns (typed: seq<byte>, broke: bool)
    requires p.Valid() && q.Valid() && (input.Bytes? ==> 0 < |input.bytes| <= INPUT_CHUNK)
    modifies p`queued, p`flushed, p`readInput, p`failed, p`orphaned, p`status, q`pending, q`produced
    ensures p.Valid() && q.Valid()
    ensures var report := SizeReport(size, |old(q.pending)|, old(q.stopping));
      var asks := ReadsInput(old(p.readInput), old(p.status), |old(q.pending)| + |report|);
      && q.pending == old(q.pending) + report && q.produced == old(q.produced) + report
      && typed == InputTaken(asks, input) && broke == Breaks(old(p.queued), flush, asks, input)
      && (p.readInput <==> old(p.readInput) && !broke && !(asks && input.Eof?))
    ensures p.failed == (old(p.failed) || broke) && p.orphaned == (old(p.orphaned) || broke)
    ensures p.queued == if broke then [] else Rest(old(p.queued), flush)
    ensures p.flushed == old(p.flushed) + Gone(old(p.queued), flush)
    ensures p.status == if broke && p.marker == null then Some(FAILED_STATUS) else old(p.status)
  {
    hide Outbound.Valid, Passenger.Valid, Passenger.Scans, Passenger.Bounded, Gone, Rest, ReadsInput, InputTaken, SizeReport;
    broke := FlushOutput(p, flush);
    ReportSize(q, size);
    var unread;
    typed, unread := TakeInput(p, |q.pending|, input);
    broke := broke || unread;
    if broke {
      PassengerParts(p);
      p.Fail();
    }
  }

  method ReportSize(q: Outbound, size: Option<seq<byte>>)
    requires q.Valid()
    modifies q`pending, q`produced
    ensures q.Valid()
    ensures var report := SizeReport(size, |old(q.pending)|, q.stopping);
      q.pending == old(q.pending) + report && q.produced == old(q.produced) + report
  {
    hide Outbound.Valid;
    if size.Some? && |q.pending| < MAX_PENDING && !q.stopping {
      q.PushBack(Packet(OwnedWrite.TERMINAL_INFO, size.value));
    }
  }

  /** The passenger's input. */
  method TakeInput(p: Passenger, pending: nat, input: InputResult) returns (typed: seq<byte>, failed: bool)
    requires p.Valid()
    modifies p`readInput
    ensures p.Valid() && typed == InputTaken(ReadsInput(old(p.readInput), p.status, pending), input)
    ensures failed <==> ReadsInput(old(p.readInput), p.status, pending) && input.InputError?
    ensures p.readInput <==> old(p.readInput) && !(ReadsInput(old(p.readInput), p.status, pending) && input.Eof?)
  {
    hide Passenger.Valid;
    typed, failed := [], false;
    if p.readInput && p.status.None? && pending < MAX_PENDING {
      match input
      case Bytes(bytes) => typed := bytes;
      case Eof => p.CloseInput();
      case Nothing =>
      case InputError => failed := true;
    }
  }

  datatype Action =
    | Connects(control: bool)
    | Flushes(id: nat, count: nat)
    | Asks(id: nat, request: nat, command: seq<byte>)
    | Opens(id: nat, noShell: bool, key: seq<byte>)
    | Leaves(id: nat)
    | Prints(bytes: seq<byte>)
    | Stops
    | Pumps(flush: FlushResult, size: Option<seq<byte>>, input: InputResult)

  /** Everything the shell printed during the actions, packet by packet. */
  ghost function Printed(actions: seq<Action>): seq<seq<byte>>
  {
    if actions == [] then []
    else Printed(actions[..|actions| - 1]) + PrintedBy(actions[|actions| - 1])
  }

  function PrintedBy(action: Action): seq<seq<byte>>
  {
    if action.Prints? then [action.bytes] else []
  }

  /** Of at most three new events only the first may be heard. */
  lemma HeardNext(before: seq<ShellEvent>, after: seq<ShellEvent>)
    requires before <= after && |after| <= |before| + 3
    requires forall k | |before| < k < |after| :: !after[k].Heard?
    ensures PacketsSince(after, 0)
         == PacketsSince(before, 0) + if |after| > |before| && after[|before|].Heard? then [after[|before|].bytes] else []
    decreases |after|
  {
    hide PacketsSince;
    var n := |after| - 1;
    if |after| == |before| {
      assert after == before;
    } else {
      assert after == after[..n] + [after[n]];
      HeardNext(before, after[..n]);
      PacketsSnoc(after[..n], after[n]);
    }
  }

  /** What the present state lets happen. */
  ghost predicate Possible(r: Runtime, action: Action)
    reads r, r.passenger
  {
    match action
    case Connects(_) => |r.peers| < MAX_CLIENTS && r.nextId + 1 < Framing.U32
    case Flushes(id, count) => id in r.peers && count <= |r.peers[id].output|
    case Asks(id, request, _) => id in r.peers && !r.peers[id].control && !r.peers[id].attached && request < Framing.U32
    case Opens(id, _, key) =>
      && id in r.peers && !r.peers[id].attached && !r.peers[id].closing && COLON !in key
      && r.peers[id].pendingSession.Some? && r.peers[id].pendingSession.value.0 < Framing.U32
    case Leaves(id) => id in r.peers
    case Stops => true
    case Prints(_) => true
    case Pumps(_, _, input) => r.passenger != null && (input.Bytes? ==> 0 < |input.bytes| <= INPUT_CHUNK)
  }

  /** Where an action leaves the peers, `waiting` packets being queued for the server. */
  ghost predicate PeersMoved(action: Action, before: map<nat, Peer>, nextId: nat, waiting: nat, after: map<nat, Peer>)
  {
    match action
    case Connects(control) => after == before[nextId := Peer(control, if control then [] else Encoded(Hello), false, false, None)]
    case Flushes(id, count) =>
      id in before && count <= |before[id].output| && after == before[id := before[id].(output := before[id].output[count..])]
    case Asks(id, request, command) =>
      waiting + 16 <= MAX_PENDING ==>
        id in before && after == before[id := before[id].(pendingSession := Some((request, command)))]
    case Opens(id, _, _) => id in after ==> after[id].pendingSession.None?
    case Leaves(id) => after == before - {id}
    case Pumps(_, _, _) => true
    case _ => after == before
  }

  ghost predicate NextIs(before: seq<ShellEvent>, after: seq<ShellEvent>, event: ShellEvent)
  {
    |before| < |after| && after[|before|] == event
  }

  /** One action; what is not possible in the present state does not happen. */
  method Act(r: Runtime, action: Action)
    requires r.Valid()
    modifies r, r.passenger, if r.passenger == null then {} else {r.passenger.marker}
    modifies r.queue`pending, r.queue`produced, r.queue`stopping
    ensures r.Valid() && old(r.trace) <= r.trace
    ensures PacketsSince(r.trace, 0) == old(PacketsSince(r.trace, 0)) + PrintedBy(action)
    ensures r.passenger != null && r.passenger != old(r.passenger) ==>
      fresh(r.passenger) && (r.passenger.marker != null ==> fresh(r.passenger.marker))
    ensures old(Possible(r, action)) ==> PeersMoved(action, old(r.peers), old(r.nextId), |r.queue.pending|, r.peers)
    ensures action.Stops? ==> r.queue.stopping
    ensures action.Prints? ==> NextIs(old(r.trace), r.trace, Heard(action.bytes))
    ensures action.Pumps? && old(Possible(r, action)) ==>
      NextIs(old(r.trace), r.trace, Flushed(Gone(old(if r.passenger == null then [] else r.passenger.queued), action.flush)))
    ensures !old(Possible(r, action)) ==> r.peers == old(r.peers) && r.trace == old(r.trace) && r.passenger == old(r.passenger)
  {
    hide ShellAfter, Outbound.Valid, Passenger.Valid, Runtime.PeersValid, Runtime.PassengerValid, Runtime.RepliesValid;
    hide ExitsOwn, Told, Chunks, CommandLine, Breaks, Rest, Gone, Shown, SizeReport, ReadsInput, InputTaken, PacketsSince;
    hide Runtime.Valid, Encoded;
    ghost var before := r.trace;
    match action {
      case Connects(control) => var _ := r.Accept(control);
      case Flushes(id, count) =>
        if id in r.peers && count <= |r.peers[id].output| { r.FlushPeer(id, count); }
      case Asks(id, request, command) =>
        if id in r.peers && !r.peers[id].control && !r.peers[id].attached && request < Framing.U32 {
          r.RequestSession(id, request, command);
        }
      case Opens(id, noShell, key) =>
        if id in r.peers && !r.peers[id].attached && !r.peers[id].closing && COLON !in key
           && r.peers[id].pendingSession.Some? && r.peers[id].pendingSession.value.0 < Framing.U32 {
          r.OpenSession(id, noShell, key);
        }
      case Leaves(id) => if id in r.peers { r.LosePeer(id); }
      case Stops => r.Stop();
      case Prints(bytes) => r.Output(bytes);
      case Pumps(flush, size, input) =>
        if input.Bytes? ==> 0 < |input.bytes| <= INPUT_CHUNK { var _ := r.PumpPassenger(flush, size, input); }
    }
    HeardNext(before, r.trace);
  }

  /**
    Every run of a local session follows the shell's rules: one passenger at a
    time, and none after a marked command before that command's own status, all of
    what the shell printed being heard in order. What a peer was sent and what
    waits for it are its answers, and an EXIT among them is its last, ends that
    peer's own session, and carries the status that session printed, or 255
    exactly if the session failed.
   */
  method RunLocal(queue: Outbound, primary: bool, actions: seq<Action>) returns (r: Runtime)
    requires queue.Valid()
    modifies queue`pending, queue`produced, queue`stopping
    ensures r.Valid() && ShellAfter(r.trace).Some? && PacketsSince(r.trace, 0) == Printed(actions)
    ensures forall i, j, m: seq<byte> | 0 <= i < j < |r.trace| && Apart(r.trace, i, j, m) :: Separated(r.trace, i, j, m)
    ensures forall a, b | a in r.peers && b in r.peers :: HasShell(r.peers[a]) && HasShell(r.peers[b]) ==> a == b
    ensures forall id | id in r.peers ::
      id in r.said && id in r.received && r.received[id] + r.peers[id].output == Rendered(r.said[id])
    ensures forall id, k | id in r.said && 0 <= k < |r.said[id]| && r.said[id][k].Exit? ::
      k == |r.said[id]| - 1 && r.said[id][k].session == id && ExitDue(r.trace, id, r.said[id][k].status)
    ensures forall k | 0 <= k < |r.trace| && r.trace[k].Finished? :: exists i: nat | i < k :: EndsWith(r.trace, i, k)
    ensures r.passenger != null ==> exists i: nat :: Keeps(r.trace, i) && Serving(r.trace, i, r.passenger.queued)
  {
    hide Outbound.Valid, ShellAfter, Rendered, Encoded, EndsWith, Keeps;
    r := new Runtime(queue, primary);
    PacketsSnoc([], Admitted(None, None));
    assert [] + [Admitted(None, None)] == [Admitted(None, None)];
    for i := 0 to |actions|
      invariant PacketsSince(r.trace, 0) == Printed(actions[..i])
      invariant r.Valid() && r.queue == queue && fresh(r)
      invariant r.passenger != null ==> fresh(r.passenger) && (r.passenger.marker != null ==> fresh(r.passenger.marker))
    {
      Act(r, actions[i]);
      assert actions[..i + 1][..i] == actions[..i];
    }
    assert actions[..|actions|] == actions;
    forall i, j, m: seq<byte> | 0 <= i < j < |r.trace| && Apart(r.trace, i, j, m) ensures Separated(r.trace, i, j, m) {
      NoneAdmittedBeforeOwnStatus(r.trace, i, j, m);
    }
    forall k | 0 <= k < |r.trace| && r.trace[k].Finished? ensures exists i: nat | i < k :: EndsWith(r.trace, i, k) {
      EveryEndIsEarned(r.trace, k);
    }
    if r.passenger != null {
      NowServing(r);
    }
    forall id, k | id in r.said && 0 <= k < |r.said[id]| && r.said[id][k].Exit?
      ensures ExitDue(r.trace, id, r.said[id][k].status)
    {
      var n :| 0 <= n < |r.trace| && r.trace[n] == Finished(Some(id), r.said[id][k].status);
      EveryEndIsEarned(r.trace, n);
    }
  }

  /** Whoever event `i` admitted has received, or has waiting, exactly what it is to see, unless nobody reads for it. */
  ghost predicate Serving(trace: seq<ShellEvent>, i: nat, queued: seq<byte>)
    requires Keeps(trace, i)
  {
    OrphanedSince(trace, i) || FlushedSince(trace, i) + queued == Shown(trace[i].marker, PacketsSince(trace, i))
  }

  /** A session of this peer was admitted and ended with this status, which was due to it. */
  ghost predicate ExitDue(trace: seq<ShellEvent>, id: nat, status: nat)
  {
    exists i: nat, k: nat | i < k < |trace| :: EndsWith(trace, i, k) && trace[k] == Finished(Some(id), status)
  }

  lemma NowServing(r: Runtime)
    requires r.Valid() && r.passenger != null
    ensures exists i: nat :: Keeps(r.trace, i) && Serving(r.trace, i, r.passenger.queued)
  {
    hide Outbound.Valid, ShellAfter, ScanAll, PacketsSince, FlushedSince, OrphanedSince, FailedSince, Keeps, ExitsOwn;
    var i := Admission(r.trace);
    assert Serving(r.trace, i, r.passenger.queued);
  }

  ghost predicate HasShell(peer: Peer)
  {
    peer.attached && !peer.closing
  }

  /** Event `i` admits a command with marker `m`, and event `j` admits somebody later. */
  ghost predicate Apart(trace: seq<ShellEvent>, i: int, j: int, m: seq<byte>)
    requires 0 <= i < j < |trace|
  {
    trace[i].Admitted? && trace[i].marker == Some(m) && trace[j].Admitted?
  }

  /** The command ended in between, after its own status line. */
  ghost predicate Separated(trace: seq<ShellEvent>, i: int, j: int, m: seq<byte>)
    requires 0 <= i < j < |trace|
  {
    exists k | i < k < j :: trace[k].Finished? && HasStatusLine(m, Flatten(PacketsSince(trace[..k], i)))
  }
}
