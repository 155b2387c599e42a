/** The console the session loop writes itself (`client_output.rs`, `client_output_interrupt.rs`). */
module DirectConsoles {
  import opened Bytes
  import opened ConsoleQueue
  import Modes = TerminalModes
  import Streams = TerminalStreams
  import opened Ttys

  const WRITE_SLICES := 64
  const SPARE_BUFFERS := 4

  datatype ErrorKind = WriteZero | WriteFailed | InvalidInput | BrokenPipe

  datatype Admission = Admitted | Full | Failed(error: ErrorKind)

  /** The part of a packet discard mode can hold at all: its end. */
  function Tail(mode: FlowControl, input: seq<byte>): (tail: seq<byte>)
    ensures mode.Discard? || |input| <= OUTPUT_BYTES ==> |tail| <= OUTPUT_BYTES
  {
    if |input| > OUTPUT_BYTES then input[|input| - OUTPUT_BYTES..] else input
  }

  /** After an interrupt cut a line short, everything up to the next newline is dropped. */
  function AfterSkip(skip: bool, bytes: seq<byte>): (rest: Option<seq<byte>>)
    ensures rest.Some? ==> |rest.value| <= |bytes|
  {
    var k := IndexOf(bytes, NEWLINE);
    if !skip then Some(bytes)
    else if k == |bytes| then None
    else Some(bytes[k + 1..])
  }

  lemma TailIsTheEnd(mode: FlowControl, input: seq<byte>)
    ensures Tail(mode, input) == input[|input| - |Tail(mode, input)|..]
    ensures |Tail(mode, input)| == if |input| <= OUTPUT_BYTES then |input| else OUTPUT_BYTES
  {
  }

  /** A cut line takes the next bytes down to its newline with it, and nothing when no line was cut. */
  lemma SkipEndsAtNewline(skip: bool, bytes: seq<byte>)
    ensures !skip ==> AfterSkip(skip, bytes) == Some(bytes)
    ensures skip ==> (AfterSkip(skip, bytes).None? <==> NEWLINE !in bytes)
    ensures skip && NEWLINE in bytes ==>
      exists k | 0 <= k < |bytes| ::
        bytes[k] == NEWLINE && NEWLINE !in bytes[..k] && AfterSkip(skip, bytes) == Some(bytes[k + 1..])
  {
    var k := IndexOf(bytes, NEWLINE);
    assert k < |bytes| ==> bytes[k] == NEWLINE && NEWLINE !in bytes[..k];
  }

  /** Admission drops the `evicted` oldest unstarted packets, no more than it must, and appends `packet`. */
  ghost predicate AdmittedPacket(
      mode: FlowControl, before: Ledger, oldest: nat, evicted: nat, packet: seq<byte>, after: Ledger)
  {
    && oldest + evicted <= |before.waiting|
    && (!mode.Discard? ==> evicted == 0)
    && (evicted > 0 ==> Crowded(DropFrom(before, oldest, evicted - 1), |packet|))
    && Packets(after) == Packets(DropFrom(before, oldest, evicted)) + if packet == [] then [] else [packet]
  }

  datatype Decision = Reject(kind: ErrorKind) | Swallow | Hold | Admit(packet: seq<byte>)

  class DirectConsole {
    const mode: FlowControl
    const stream: Streams.TerminalStream
    const modes: Modes.TerminalModeState
    const tty: Tty
    var queue: seq<Entry>
    var bytes: nat
    var stopping: bool
    var error: Option<ErrorKind>
    var cursorReports: nat
    var progress: nat
    var skipUntilNewline: bool
    var waitingForCapacity: bool
    var spare: nat

    /** The bytes the console has taken, the packets behind them, and whether a write error ended it. */
    ghost var console: seq<byte>
    ghost var ledger: Ledger
    ghost var broken: bool
    /** Cursor reports the session loop has collected. */
    ghost var collected: nat

    /** The stream and the mode tracker have observed exactly the console. */
    ghost predicate Observed()
      reads this`console, stream, modes
    {
      && Streams.ValidStream(stream.v, stream.View())
      && Streams.Same(stream.View(), Streams.Run(stream.v, Streams.FRESH, console))
      && modes.View() == Modes.Track(Modes.FRESH, console)
    }

    /** The books, with `owed` bytes already written but not yet taken off the queue. */
    ghost predicate Books(owed: nat)
      reads this`queue, this`bytes, this`stopping, this`cursorReports, this`spare
      reads this`console, this`ledger, this`broken, this`collected, this`error
    {
      && (broken ==> stopping && queue == [])
      && (error.Some? ==> broken)
      && (!broken ==> Mirrors(ledger, queue))
      && console == OnConsole(ledger)
      && bytes + owed == |UnsentAll(queue)|
      && WithinBounds(mode, queue)
      && cursorReports + collected == Modes.CountRequests(ledger.done)
      && spare <= SPARE_BUFFERS
    }

    ghost predicate Consistent()
      reads this, stream, modes
    {
      Books(0) && Observed()
    }

    /** The books are about what the console was really given. */
    ghost predicate Valid()
      reads this, stream, modes, tty
    {
      Consistent() && tty.shown == console
    }

    constructor (mode: FlowControl, v: Streams.Words)
      ensures Valid() && this.mode == mode && fresh(stream) && fresh(modes) && fresh(tty)
      ensures ledger == Ledger([], [], 0) && !broken && !stopping && error.None? && collected == 0
      ensures !skipUntilNewline && !waitingForCapacity && spare == 0
    {
      this.mode := mode;
      stream := new Streams.TerminalStream(v);
      modes := new Modes.TerminalModeState();
      tty := new Tty();
      queue, bytes, stopping, error := [], 0, false, None;
      cursorReports, progress, skipUntilNewline, waitingForCapacity, spare := 0, 0, false, false, 0;
      console, ledger, broken, collected := [], Ledger([], [], 0), false, 0;
    }

    lemma QueueFacts()
      requires Books(0) && !broken
      ensures Mirrors(ledger, queue) && bytes == |UnsentAll(queue)|
      ensures |ledger.waiting| == |queue| && Oldest(queue) <= |queue|
    {
      LedgerLength(ledger, queue);
    }

    lemma BrokenQueue()
      requires Books(0)
      ensures broken ==> stopping && queue == []
    {
    }

    /** `fail`: stop admission; the rest of the queue can never be written. */
    method Fail(kind: ErrorKind)
      requires Consistent() && !broken
      modifies this`error, this`stopping, this`queue, this`bytes, this`broken
      ensures Consistent() && broken && stopping && queue == [] && error == Some(kind)
    {
      hide Mirrors, OnConsole, WithinBounds, UnsentAll, Modes.CountRequests, Observed;
      EmptyQueue(mode);
      error := Some(kind);
      stopping := true;
      queue := [];
      bytes := 0;
      broken := true;
    }

    /** Feed bytes the console took to the stream and the mode tracker. */
    method Observe(written: seq<byte>)
      requires Observed()
      modifies stream, modes, this`console
      ensures console == old(console) + written && Observed()
    {
      ghost var before := stream.View();
      stream.Observe(written);
      modes.Observe(written);
      ObservedMore(stream.v, before, stream.View(), console, written);
      Modes.TrackAppend(Modes.FRESH, console, written);
      console := console + written;
    }

    /** `retire_delivered`: a packet counts its cursor request once all of it is on the console. */
    method RetireDelivered()
      requires spare <= SPARE_BUFFERS
      requires forall i | 1 <= i < |queue| :: queue[i].sent != |queue[i].bytes|
      modifies this`queue, this`cursorReports, this`spare
      ensures queue == Retired(old(queue))
      ensures spare == if old(queue != [] && queue[0].sent == |queue[0].bytes| && spare < SPARE_BUFFERS) then old(spare) + 1 else old(spare)
      ensures cursorReports == old(cursorReports)
        + if old(queue != [] && queue[0].sent == |queue[0].bytes| && Modes.ContainsCursorRequest(queue[0].bytes))
          then 1 else 0
    {
      while queue != [] && queue[0].sent == |queue[0].bytes|
        invariant spare <= SPARE_BUFFERS
        invariant queue == old(queue) || queue == Retired(old(queue))
        invariant queue == old(queue) ==> cursorReports == old(cursorReports) && spare == old(spare)
        invariant queue != old(queue) ==>
          && spare == old(if spare < SPARE_BUFFERS then spare + 1 else spare)
          && old(queue[0].sent == |queue[0].bytes|)
          && cursorReports == old(cursorReports) + if old(Modes.ContainsCursorRequest(queue[0].bytes)) then 1 else 0
        decreases |queue|
      {
        var entry := queue[0];
        queue := queue[1..];
        if Modes.ContainsCursorRequest(entry.bytes) {
          cursorReports := cursorReports + 1;
        }
        if spare < SPARE_BUFFERS {
          spare := spare + 1;
        }
      }
    }

    /** Account `k` bytes of the front entry. */
    method TakeFront(k: nat, ghost owed: nat)
      requires Books(owed) && Observed() && !broken
      requires queue != [] && 0 < k <= |Unsent(queue[0])| && k <= owed
      modifies this`queue, this`cursorReports, this`spare, this`console, this`ledger, stream, modes
      ensures Books(owed - k) && Observed()
      ensures console == old(console) + old(Unsent(queue[0]))[..k]
      ensures UnsentAll(queue) == old(UnsentAll(queue))[k..]
      ensures Packets(ledger) == old(Packets(ledger)) && old(ledger).done <= ledger.done
    {
      hide OnConsole, WithinBounds, UnsentAll, Modes.CountRequests, Modes.ContainsCursorRequest, Packets, Unsent;
      hide Mirrors, Observed;
      AdvanceFront(ledger, queue, k);
      AdvanceKeepsPackets(ledger, k);
      AdvanceConsole(ledger, queue, k);
      AdvanceUnsent(queue, k);
      AdvanceBounds(mode, ledger, queue, k);
      WholeBehindFront(ledger, queue);
      Modes.CountRequestsSnoc(ledger.done, queue[0].bytes);
      Observe(Unsent(queue[0])[..k]);
      ledger := Advanced(ledger, k);
      queue := [queue[0].(sent := queue[0].sent + k)] + queue[1..];
      RetireDelivered();
    }

    /** `delivered`: account `count` bytes written from the front of the queue. */
    method Delivered(count: nat)
      requires Consistent() && !broken && count <= bytes
      modifies this`queue, this`bytes, this`cursorReports, this`spare, this`console, this`ledger, stream, modes
      ensures Consistent()
      ensures console == old(console) + old(UnsentAll(queue))[..count]
      ensures UnsentAll(queue) == old(UnsentAll(queue))[count..]
      ensures Packets(ledger) == old(Packets(ledger)) && old(ledger).done <= ledger.done
    {
      hide Books, UnsentAll, Packets, Observed, Moved;
      ghost var unsent := UnsentAll(queue);
      MovedNothing(console, unsent);
      Owe(count);
      var left := count;
      while left != 0
        invariant 0 <= left <= count && Books(left) && Observed() && !broken
        invariant Moved(old(console), unsent, count - left, console, UnsentAll(queue))
        invariant Packets(ledger) == old(Packets(ledger)) && old(ledger).done <= ledger.done
      {
        ghost var shown, rest := console, UnsentAll(queue);
        var k := DeliverSome(left);
        MovedMore(old(console), unsent, count - left, shown, rest, k);
        left := left - k;
      }
      MovedAll(old(console), unsent, count, console, UnsentAll(queue));
    }

    /** Account as much of the owed bytes as the front entry covers. */
    method DeliverSome(owed: nat) returns (k: nat)
      requires Books(owed) && Observed() && !broken && owed > 0
      modifies this`queue, this`cursorReports, this`spare, this`console, this`ledger, stream, modes
      ensures 0 < k <= owed && Books(owed - k) && Observed() && k <= |old(UnsentAll(queue))|
      ensures console == old(console) + old(UnsentAll(queue))[..k]
      ensures UnsentAll(queue) == old(UnsentAll(queue))[k..]
      ensures Packets(ledger) == old(Packets(ledger)) && old(ledger).done <= ledger.done
    {
      hide Books, UnsentAll, Packets, Observed, Unsent;
      OwedFront(owed);
      var size := |Unsent(queue[0])|;
      k := if size < owed then size else owed;
      TakeFront(k, owed);
    }

    /** Bytes written are taken off the counter before they are accounted to their packets. */
    method Owe(count: nat)
      requires Books(0) && !broken && count <= bytes
      modifies this`bytes
      ensures Books(count) && |UnsentAll(queue)| >= count
    {
      hide Mirrors, OnConsole, WithinBounds, UnsentAll, Modes.CountRequests;
      bytes := bytes - count;
    }

    lemma OwedFront(owed: nat)
      requires Books(owed) && !broken && owed > 0
      ensures queue != [] && 0 < |Unsent(queue[0])| <= |UnsentAll(queue)|
      ensures forall k | 0 <= k <= |Unsent(queue[0])| :: Unsent(queue[0])[..k] == UnsentAll(queue)[..k]
    {
      hide Mirrors, OnConsole, WithinBounds, UnsentAll, Modes.CountRequests, Unsent;
      FrontUnsent(ledger, queue);
    }

    /** One vectored write of the front of the queue: how much the console took, and whether that was all. */
    method WriteSlices() returns (took: nat, all: bool)
      requires Valid() && queue != []
      modifies this`queue, this`bytes, this`cursorReports, this`spare, this`console, this`ledger
      modifies this`error, this`stopping, this`broken, this`progress, stream, modes, tty
      ensures Valid() && !old(broken) && Packets(ledger) == old(Packets(ledger)) && old(ledger).done <= ledger.done
      ensures old(console) <= console && took == |console| - |old(console)|
      ensures |tty.calls| == |old(tty.calls)| + 1 && old(tty.calls) <= tty.calls
      ensures var call := tty.calls[|old(tty.calls)|];
        && call.offered != [] && call.offered <= old(UnsentAll(queue)) && took == |Took(call)|
        && (all <==> TakesAll(call)) && (broken <==> Spoils(call))
        && (broken ==> error == Some(if call.result == Refused then WriteFailed else WriteZero))
      ensures !broken ==> error == old(error) && stopping == old(stopping) && UnsentAll(queue) == old(UnsentAll(queue))[took..]
      ensures broken ==> stopping && queue == [] && |console| < |Flatten(Packets(ledger))|
      ensures progress == old(progress) + if took > 0 then 1 else 0
    {
      hide Books, Mirrors, UnsentAll, Packets, Observed, Slices, Flatten, Modes.CountRequests, Modes.Track;
      BrokenQueue();
      Conserved();
      QueueFacts();
      var n := if |queue| < WRITE_SLICES then |queue| else WRITE_SLICES;
      var slices := Slices(queue[..n]);
      var offered := |Flatten(slices)|;
      OfferedBytes(ledger, queue, n);
      ghost var unsent := UnsentAll(queue);
      var result := tty.WriteVectored(slices);
      took, all := 0, false;
      assert unsent[0..] == unsent;
      match result {
        case Wrote(count) =>
          if count == 0 {
            Fail(WriteZero);
            BrokenQueue();
            return;
          }
          progress := progress + 1;
          Delivered(count);
          took, all := count, count == offered;
        case Again =>
        case Refused =>
          Fail(WriteFailed);
          BrokenQueue();
      }
    }

    /** `write_queued`: write until the console stops taking all of it. */
    method WriteQueued() returns (progressed: bool)
      requires Valid()
      modifies this`queue, this`bytes, this`cursorReports, this`spare, this`console, this`ledger
      modifies this`error, this`stopping, this`broken, this`progress, stream, modes, tty
      ensures Valid() && Packets(ledger) == old(Packets(ledger))
      ensures old(console) <= console && (progressed <==> |old(console)| < |console|)
      ensures broken != old(broken) ==> broken && stopping && error.Some? && |console| < |Flatten(Packets(ledger))|
      ensures broken == old(broken) ==> error == old(error) && stopping == old(stopping)
      ensures old(ledger).done <= ledger.done
      ensures old(tty.calls) <= tty.calls && Drains(old(tty.calls), tty.calls)
      ensures tty.calls == old(tty.calls) <==> old(queue) == []
      ensures broken <==> old(broken) || Spoiled(tty.calls, |old(tty.calls)|)
      ensures queue != [] ==> !TakesAll(tty.calls[|tty.calls| - 1])
    {
      hide Books, UnsentAll, Packets, Observed, Spoiled, AllTaken, Drains, Flatten;
      progressed := false;
      NothingAsked(tty.calls);
      while queue != []
        invariant Valid() && broken == old(broken) && error == old(error) && stopping == old(stopping)
        invariant Packets(ledger) == old(Packets(ledger)) && old(ledger).done <= ledger.done
        invariant old(console) <= console && (progressed <==> |old(console)| < |console|)
        invariant AllTaken(old(tty.calls), tty.calls) && Drains(old(tty.calls), tty.calls)
        invariant !Spoiled(tty.calls, |old(tty.calls)|) && old(tty.calls) <= tty.calls
        invariant |tty.calls| == |old(tty.calls)| ==> queue == old(queue)
        invariant |tty.calls| > |old(tty.calls)| ==> old(queue) != []
        decreases |UnsentAll(queue)|
      {
        ghost var asked := tty.calls;
        var took, all := WriteSlices();
        assert tty.calls == asked + [tty.calls[|asked|]];
        OneMoreCall(old(tty.calls), asked, tty.calls[|asked|]);
        progressed := progressed || took > 0;
        if !all {
          return;
        }
      }
    }

    /** Queue a packet of which `sent` bytes are already on the console. */
    method Enqueue(packet: seq<byte>, sent: nat)
      requires Consistent() && !broken
      requires Pending(Entry(packet, sent)) && (queue != [] ==> sent == 0) && |queue| < OUTPUT_PACKETS
      requires bytes + |packet| <= OUTPUT_BYTES + if mode.Discard? then StartedBytes(queue) else 0
      modifies this`queue, this`bytes, this`spare, this`ledger, this`console, stream, modes
      ensures Consistent() && Packets(ledger) == old(Packets(ledger)) + [packet]
      ensures console == old(console) + packet[..sent] && queue == old(queue) + [Entry(packet, sent)]
      ensures spare == if old(spare) > 0 then old(spare) - 1 else 0
    {
      hide Mirrors, OnConsole, WithinBounds, UnsentAll, Modes.CountRequests, Packets, Observed, StartedBytes;
      LedgerFront(ledger, queue);
      PushBack(ledger, queue, packet, sent);
      PushConsole(ledger, packet, sent);
      PushedWithinBounds(mode, ledger, queue, packet, sent);
      Observe(packet[..sent]);
      if spare > 0 {
        spare := spare - 1;
      }
      bytes := bytes + (|packet| - sent);
      queue := queue + [Entry(packet, sent)];
      ledger := Pushed(ledger, packet, sent);
    }

    /** A packet the console refused to take any of. */
    method FailPacket(packet: seq<byte>, kind: ErrorKind)
      requires Consistent() && !broken && queue == []
      modifies this`error, this`stopping, this`queue, this`bytes, this`broken, this`ledger
      ensures Consistent() && broken && error == Some(kind) && stopping && queue == []
      ensures Packets(ledger) == old(Packets(ledger)) + [packet]
    {
      hide Mirrors, OnConsole, WithinBounds, UnsentAll, Modes.CountRequests, Packets, Observed;
      MirrorsEmpty(ledger);
      PushConsole(ledger, packet, 0);
      Fail(kind);
      ledger := Pushed(ledger, packet, 0);
    }

    /** A packet the console took whole. */
    method Displayed(packet: seq<byte>)
      requires Consistent() && !broken && queue == []
      modifies this`cursorReports, this`console, this`ledger, stream, modes
      ensures Consistent() && console == old(console) + packet
      ensures Packets(ledger) == old(Packets(ledger)) + [packet]
    {
      hide Mirrors, OnConsole, WithinBounds, UnsentAll, Modes.CountRequests, Packets, Observed;
      MirrorsEmpty(ledger);
      WrittenThrough(ledger, packet);
      Modes.CountRequestsSnoc(ledger.done, packet);
      Observe(packet);
      ledger := Ledger(ledger.done + [packet], [], 0);
      if Modes.ContainsCursorRequest(packet) {
        cursorReports := cursorReports + 1;
      }
    }

    /** `write_packet`: write an admitted packet through when nothing is ahead of it, queue what is left. */
    method WritePacket(packet: seq<byte>)
      requires Valid() && !broken && |packet| <= OUTPUT_BYTES && |queue| < OUTPUT_PACKETS
      requires bytes + |packet| <= OUTPUT_BYTES + if mode.Discard? then StartedBytes(queue) else 0
      modifies this`queue, this`bytes, this`cursorReports, this`spare, this`console, this`ledger
      modifies this`error, this`stopping, this`broken, this`progress, stream, modes, tty
      ensures Valid() && old(console) <= console
      ensures Packets(ledger) == old(Packets(ledger)) + if packet == [] then [] else [packet]
      ensures old(tty.calls) <= tty.calls && (broken <==> Spoiled(tty.calls, |old(tty.calls)|))
      ensures packet == [] || old(queue) != [] ==> tty.calls == old(tty.calls) && console == old(console)
      ensures packet != [] && old(queue) == [] ==> |tty.calls| == |old(tty.calls)| + 1
      ensures packet != [] && old(queue) == [] ==>
        var call := tty.calls[|old(tty.calls)|];
        && call.offered == packet && console == old(console) + Took(call) && (broken <==> Spoils(call))
        && (broken ==> error == Some(if call.result == Refused then WriteFailed else WriteZero))
        && progress == (old(progress) + if Took(call) == [] then 0 else 1)
        && (queue == [] <==> TakesAll(call) || Spoils(call))
      ensures !broken ==> error == old(error) && stopping == old(stopping)
      ensures broken ==> stopping
    {
      hide Books, Packets, Observed, StartedBytes, Spoiled;
      NothingAsked(tty.calls);
      if packet == [] {
        assert Packets(ledger) + [] == Packets(ledger);
        return;
      }
      var sent := 0;
      assert packet[..0] == [] && console + [] == console && packet[..|packet|] == packet;
      if queue == [] {
        var result := tty.Write(packet);
        OneMoreCall(old(tty.calls), old(tty.calls), Call(packet, result));
        match result {
          case Wrote(count) =>
            if count == 0 {
              FailPacket(packet, WriteZero);
              return;
            }
            progress := progress + 1;
            if count == |packet| {
              Displayed(packet);
              return;
            }
            sent := count;
          case Again =>
          case Refused =>
            FailPacket(packet, WriteFailed);
            return;
        }
      }
      Enqueue(packet, sent);
    }

    /** What an offered packet meets in the current state. */
    ghost function Decide(input: seq<byte>): Decision
      reads this
    {
      if !mode.Discard? && |input| > OUTPUT_BYTES then Reject(InvalidInput)
      else if error.Some? then Reject(error.value)
      else if stopping then Reject(BrokenPipe)
      else match AfterSkip(skipUntilNewline, Tail(mode, input))
        case None => Swallow
        case Some(packet) =>
          if Refuses(packet) then Hold else Decision.Admit(packet)
    }

    /** Outside discard mode a full queue refuses. */
    ghost predicate Refuses(packet: seq<byte>)
      reads this
    {
      !mode.Discard? && (bytes + |packet| > OUTPUT_BYTES || |queue| >= OUTPUT_PACKETS)
    }

    ghost predicate Untouched(l: Ledger, q: seq<Entry>, shown: seq<byte>, b: bool, skip: bool)
      reads this
    {
      ledger == l && queue == q && console == shown && broken == b && skipUntilNewline == skip
    }

    /** Evict the oldest packet none of which is on the console. */
    method EvictOne()
      requires Consistent() && !broken && Oldest(queue) < |queue|
      modifies this`queue, this`bytes, this`ledger
      ensures Consistent() && |queue| == |old(queue)| - 1 && Oldest(queue) == old(Oldest(queue))
      ensures Oldest(queue) < |old(ledger).waiting| && ledger == Evicted(old(ledger), Oldest(queue))
      ensures StartedBytes(queue) == old(StartedBytes(queue))
    {
      hide Mirrors, OnConsole, WithinBounds, UnsentAll, Modes.CountRequests, Packets, Observed, StartedBytes;
      LedgerLength(ledger, queue);
      EvictOldest(ledger, queue);
      EvictBounds(mode, ledger, queue);
      EvictConsole(ledger, Oldest(queue));
      var oldest := Oldest(queue);
      bytes := bytes - |Unsent(queue[oldest])|;
      queue := Without(queue, oldest);
      ledger := Evicted(ledger, oldest);
    }

    /** The eviction loop of discard mode: the fewest oldest unstarted packets go. */
    method MakeRoom(want: nat) returns (evicted: nat)
      requires Consistent() && !broken && mode.Discard? && want <= OUTPUT_BYTES
      modifies this`queue, this`bytes, this`ledger
      ensures Consistent() && |queue| < OUTPUT_PACKETS && bytes + want <= OUTPUT_BYTES + StartedBytes(queue)
      ensures old(Oldest(queue)) + evicted <= |old(ledger).waiting|
      ensures ledger == DropFrom(old(ledger), old(Oldest(queue)), evicted) && |queue| == |old(queue)| - evicted
      ensures evicted > 0 ==> Crowded(DropFrom(old(ledger), old(Oldest(queue)), evicted - 1), want)
    {
      hide Books, Mirrors, UnsentAll, Observed, StartedBytes, Crowded, DropFrom, Evicted;
      evicted := 0;
      ghost var at, start := Oldest(queue), ledger;
      QueueFacts();
      DropNone(ledger, at);
      while bytes + want > OUTPUT_BYTES || |queue| >= OUTPUT_PACKETS
        invariant Consistent() && !broken && Oldest(queue) == at
        invariant at + evicted <= |start.waiting| && |queue| == |start.waiting| - evicted == |old(queue)| - evicted
        invariant ledger == DropFrom(start, at, evicted)
        invariant evicted > 0 ==> Crowded(DropFrom(start, at, evicted - 1), want)
        decreases |queue|
      {
        QueueFacts();
        if Oldest(queue) >= |queue| {
          NothingToEvict(ledger, queue);
          break;
        }
        CrowdedQueue(ledger, queue, want);
        DropOneMore(start, at, evicted);
        EvictOne();
        evicted := evicted + 1;
      }
    }

    /** The admission branch of `try_write`, once the packet is known. */
    method Admit(packet: seq<byte>) returns (result: Admission, evicted: nat)
      requires Valid() && !broken && !stopping && |packet| <= OUTPUT_BYTES
      modifies this`queue, this`bytes, this`cursorReports, this`spare, this`console, this`ledger
      modifies this`error, this`stopping, this`broken, this`progress, stream, modes, tty
      modifies this`skipUntilNewline, this`waitingForCapacity
      ensures Valid() && old(console) <= console
      ensures result == if old(Refuses(packet)) then Full else Admitted
      ensures result == Full ==> waitingForCapacity
      ensures result == Full ==>
        Untouched(old(ledger), old(queue), old(console), old(broken), old(skipUntilNewline))
      ensures result == Admitted ==> !skipUntilNewline && !waitingForCapacity
      ensures result == Admitted ==>
        AdmittedPacket(mode, old(ledger), old(Oldest(queue)), evicted, packet, ledger)
      ensures !broken ==> error == old(error) && !stopping
      ensures old(tty.calls) <= tty.calls && (broken <==> Spoiled(tty.calls, |old(tty.calls)|))
      ensures result == Full || packet == [] ==> tty.calls == old(tty.calls)
      ensures result == Admitted && packet != [] && old(queue) == [] ==>
        |tty.calls| == |old(tty.calls)| + 1 && tty.calls[|old(tty.calls)|].offered == packet
    {
      hide Mirrors, OnConsole, WithinBounds, UnsentAll, Modes.CountRequests, Packets, Observed, StartedBytes, Crowded, Spoiled;
      evicted := 0;
      NothingAsked(tty.calls);
      LedgerLength(ledger, queue);
      DropNone(ledger, Oldest(queue));
      if mode.Discard? {
        evicted := MakeRoom(|packet|);
      } else if bytes + |packet| > OUTPUT_BYTES || |queue| >= OUTPUT_PACKETS {
        waitingForCapacity := true;
        return Full, 0;
      }
      skipUntilNewline := false;
      waitingForCapacity := false;
      WritePacket(packet);
      result := Admitted;
    }

    /** `try_write`: admit one packet without waiting. */
    method TryWrite(input: seq<byte>) returns (result: Admission, evicted: nat)
      requires Valid()
      modifies this`queue, this`bytes, this`cursorReports, this`spare, this`console, this`ledger
      modifies this`error, this`stopping, this`broken, this`progress, stream, modes, tty
      modifies this`skipUntilNewline, this`waitingForCapacity
      ensures Valid() && old(console) <= console
      ensures match old(Decide(input))
        case Reject(kind) =>
          && result == Failed(kind) && Untouched(old(ledger), old(queue), old(console), old(broken), old(skipUntilNewline))
          && (kind != InvalidInput ==> error.None?)
        case Swallow =>
          result == Admitted && Untouched(old(ledger), old(queue), old(console), old(broken), old(skipUntilNewline))
        case Hold =>
          && result == Full && waitingForCapacity
          && Untouched(old(ledger), old(queue), old(console), old(broken), old(skipUntilNewline))
        case Admit(packet) =>
          && result == Admitted && !skipUntilNewline && !waitingForCapacity
          && AdmittedPacket(mode, old(ledger), old(Oldest(queue)), evicted, packet, ledger)
          && (packet != [] && old(queue) == [] ==> |tty.calls| == |old(tty.calls)| + 1 && tty.calls[|old(tty.calls)|].offered == packet)
      ensures !old(Decide(input)).Admit? ==> tty.calls == old(tty.calls)
      ensures old(tty.calls) <= tty.calls && (broken <==> old(broken) || Spoiled(tty.calls, |old(tty.calls)|))
    {
      hide Mirrors, OnConsole, WithinBounds, UnsentAll, Modes.CountRequests, Packets, Observed, AdmittedPacket, Spoiled;
      evicted := 0;
      NothingAsked(tty.calls);
      if !mode.Discard? && |input| > OUTPUT_BYTES {
        return Failed(InvalidInput), 0;
      }
      var retained := Tail(mode, input);
      if error.Some? {
        result := Failed(error.value);
        error := None;
        return;
      }
      if stopping {
        return Failed(BrokenPipe), 0;
      }
      if skipUntilNewline {
        var newline := IndexOf(retained, NEWLINE);
        if newline == |retained| {
          return Admitted, 0;
        }
        retained := retained[newline + 1..];
      }
      result, evicted := Admit(retained);
    }

    /** The `retain_mut` loop of `interrupt`. */
    method Redistribute(kept: seq<byte>)
      requires AllStarted(queue)
      modifies this`queue
      ensures queue == Redistributed(old(queue), kept)
    {
      hide Redistributed, Refilled;
      var before, remaining := queue, kept;
      var left: seq<Entry> := [];
      for i := 0 to |before|
        invariant AllStarted(before[i..])
        invariant left + Redistributed(before[i..], remaining) == Redistributed(before, kept)
      {
        RedistributedStep(before[i..], remaining);
        assert before[i..][1..] == before[i + 1..] && before[i..][0] == before[i];
        var count := Share(before[i], remaining);
        if !(count == 0 && before[i].sent == 0) {
          left := left + [Refilled(before[i], remaining)];
        }
        remaining := remaining[count..];
      }
      RedistributedStep([], remaining);
      queue := left;
    }

    /** Hand `kept` back to the queue in place of its unsent bytes. */
    method Refill(kept: seq<byte>)
      requires Books(0) && |kept| <= |UnsentAll(queue)|
      modifies this`queue, this`bytes, this`cursorReports, this`spare, this`ledger
      ensures Books(0) && UnsentAll(queue) == kept
      ensures AllStarted(old(queue))
      ensures ledger == if broken then old(ledger) else Interrupted(old(ledger), old(queue), kept)
    {
      hide Mirrors, OnConsole, WithinBounds, Modes.CountRequests, Modes.ContainsCursorRequest, UnsentAll;
      hide Redistributed, Interrupted;
      ghost var before := queue;
      if broken {
        NothingBroken(kept);
      } else {
        InterruptBooks(mode, ledger, queue, kept);
      }
      Redistribute(kept);
      bytes := |kept|;
      RetireDelivered();
      if !broken {
        ledger := Interrupted(ledger, before, kept);
      }
    }

    /** `interrupt`: only what the filter keeps of the unsent bytes is still to be written. */
    method Interrupt() returns (dropped: nat)
      requires Valid()
      modifies this`queue, this`bytes, this`cursorReports, this`spare, this`ledger, this`skipUntilNewline
      ensures Valid()
      ensures var seen := Streams.Run(stream.v, Streams.FRESH, console);
        && UnsentAll(queue) == Streams.Kept(stream.v, seen, old(UnsentAll(queue)))
        && skipUntilNewline == (old(skipUntilNewline) || Streams.CutsLine(stream.v, seen, old(UnsentAll(queue))))
      ensures |UnsentAll(queue)| + dropped == |old(UnsentAll(queue))|
      ensures AllStarted(old(queue))
      ensures ledger == if broken then old(ledger) else Interrupted(old(ledger), old(queue), UnsentAll(queue))
    {
      hide Books, UnsentAll, Streams.Kept, Streams.CutsLine, Streams.Run, Streams.ValidStream, Interrupted, Observed;
      var unsent := UnsentAll(queue);
      FilterSeesConsole(unsent);
      var kept, skip := stream.Filter(unsent);
      Refill(kept);
      skipUntilNewline := skipUntilNewline || skip;
      dropped := |unsent| - |kept|;
    }

    /** The filter decides on the bytes the console has shown. */
    lemma FilterSeesConsole(unsent: seq<byte>)
      requires Observed()
      ensures Streams.ValidStream(stream.v, stream.View())
      ensures var seen := Streams.Run(stream.v, Streams.FRESH, console);
        && Streams.Kept(stream.v, stream.View(), unsent) == Streams.Kept(stream.v, seen, unsent)
        && Streams.CutsLine(stream.v, stream.View(), unsent) == Streams.CutsLine(stream.v, seen, unsent)
    {
      Streams.FreshIsValid(stream.v);
      Streams.SameRun(stream.v, Streams.FRESH, Streams.FRESH, console);
      Streams.FilterSame(stream.v, stream.View(), Streams.Run(stream.v, Streams.FRESH, console), unsent);
    }

    /** `take_cursor_reports`. */
    method TakeCursorReports() returns (reports: nat)
      requires Valid()
      modifies this`cursorReports, this`collected
      ensures Valid() && reports == old(cursorReports) && cursorReports == 0 && collected == old(collected) + reports
    {
      hide Mirrors, OnConsole, WithinBounds, UnsentAll, Modes.CountRequests, Observed;
      reports := cursorReports;
      collected := collected + cursorReports;
      cursorReports := 0;
    }

    /** `check_error`: an error is reported once. */
    method CheckError() returns (reported: Option<ErrorKind>)
      requires Valid()
      modifies this`error
      ensures Valid() && reported == old(error) && error.None?
    {
      hide Mirrors, OnConsole, WithinBounds, UnsentAll, Modes.CountRequests, Observed;
      reported := error;
      error := None;
    }

    /** Conservation, and what a broken console still guarantees. */
    lemma Conserved()
      requires Valid()
      ensures !broken ==> console + UnsentAll(queue) == Flatten(Packets(ledger))
      ensures console <= Flatten(Packets(ledger))
      ensures cursorReports + collected == Modes.CountRequests(ledger.done)
      ensures modes.View() == Modes.Track(Modes.FRESH, console)
      ensures bytes < 2 * OUTPUT_BYTES && (!mode.Discard? ==> bytes <= OUTPUT_BYTES) && |queue| <= OUTPUT_PACKETS
    {
      hide Mirrors, Modes.CountRequests, Modes.Track, Streams.Run, Streams.ValidStream;
      if !broken {
        Conservation(ledger, queue);
        PendingEntries(ledger, queue);
        BoundsAreReal(mode, queue);
      }
      ConsoleIsPrefix(ledger);
    }

    /**
      `finish_direct`: deliver the queue on completion. `polls` are the wakeups
      before the console stalls: whether stdout was ready for writing. It succeeds
      exactly if every packet is out; else an error was waiting, a write ended the
      console, or it was asked at every wakeup and never took all.
     */
    method Finish(stalled: bool, polls: seq<bool>) returns (failure: Option<ErrorKind>)
      requires Valid()
      modifies this`queue, this`bytes, this`cursorReports, this`spare, this`console, this`ledger
      modifies this`error, this`stopping, this`broken, this`progress, stream, modes, tty
      ensures Valid() && stopping && queue == [] && Packets(ledger) == old(Packets(ledger))
      ensures old(console) <= console && old(tty.calls) <= tty.calls
      ensures old(error).Some? ==> failure == old(error)
      ensures !old(broken) ==> (failure.None? <==> console == Flatten(Packets(ledger))) && broken == failure.Some?
      ensures old(broken) && old(error).None? ==> failure.None? && broken
      ensures !old(broken) && failure.Some? && !stalled && !Spoiled(tty.calls, |old(tty.calls)|) ==>
        failure == Some(BrokenPipe) && |tty.calls| - |old(tty.calls)| >= Wakeups(polls)
    {
      hide Packets, Observed, Flatten, UnsentAll, Books, Drains, Modes.CountRequests, Modes.Track, Spoiled;
      LeftOver();
      StopAdmitting();
      var i := 0;
      NothingAsked(tty.calls);
      NoWakeups(polls);
      while !stalled && i < |polls| && queue != [] && error.None?
        invariant i <= |polls| && Valid() && stopping && Packets(ledger) == old(Packets(ledger))
        invariant old(console) <= console && old(tty.calls) <= tty.calls
        invariant broken == old(broken) ==> error == old(error)
        invariant broken != old(broken) ==> broken && error.Some? && |console| < |Flatten(Packets(ledger))|
        invariant broken <==> old(broken) || Spoiled(tty.calls, |old(tty.calls)|)
        invariant |tty.calls| - |old(tty.calls)| >= Wakeups(polls[..i])
        decreases |polls| - i
      {
        ghost var asked := tty.calls;
        if polls[i] {
          var progressed := WriteQueued();
        } else {
          NothingAsked(asked);
        }
        SpoiledLater(old(tty.calls), asked, tty.calls);
        WakeupsNext(polls, i);
        i := i + 1;
      }
      assert polls[..|polls|] == polls;
      LeftOver();
      if error.Some? {
        failure := CheckError();
        return;
      }
      if queue != [] {
        Cancel();
        return Some(BrokenPipe);
      }
      failure := None;
    }

    lemma LeftOver()
      requires Valid()
      ensures (error.Some? ==> broken) && (broken ==> queue == [])
      ensures !broken ==> (queue == [] <==> console == Flatten(Packets(ledger)))
    {
      hide Packets, OnConsole, WithinBounds, Modes.CountRequests, Modes.Track, Streams.Run, Streams.ValidStream;
      Conserved();
      if !broken && queue != [] {
        FrontUnsent(ledger, queue);
      }
    }

    method StopAdmitting()
      requires Valid()
      modifies this`stopping
      ensures Valid() && stopping
    {
      hide Observed, OnConsole, Mirrors, Modes.CountRequests, UnsentAll, WithinBounds;
      stopping := true;
    }

    /** What is still queued at the end is dropped. */
    method Cancel()
      requires Valid() && stopping && queue != []
      modifies this`queue, this`bytes, this`broken
      ensures Valid() && queue == [] && broken
    {
      hide Observed, OnConsole, Modes.CountRequests;
      EmptyQueue(mode);
      queue := [];
      bytes := 0;
      broken := true;
    }
  }

  function Wakeups(polls: seq<bool>): nat
  {
    if polls == [] then 0 else Wakeups(polls[..|polls| - 1]) + if polls[|polls| - 1] then 1 else 0
  }

  lemma NoWakeups(polls: seq<bool>)
    ensures Wakeups(polls[..0]) == 0
  {
  }

  lemma WakeupsNext(polls: seq<bool>, i: nat)
    requires i < |polls|
    ensures Wakeups(polls[..i + 1]) == Wakeups(polls[..i]) + if polls[i] then 1 else 0
  {
    assert polls[..i + 1][..i] == polls[..i];
  }

  lemma ObservedMore(
      v: Streams.Words, before: Streams.Stream, after: Streams.Stream, console: seq<byte>, written: seq<byte>)
    requires Streams.ValidStream(v, before) && Streams.Same(before, Streams.Run(v, Streams.FRESH, console))
    requires Streams.Same(after, Streams.Run(v, before, written))
    ensures Streams.Same(after, Streams.Run(v, Streams.FRESH, console + written))
  {
    Streams.FreshIsValid(v);
    Streams.SameRun(v, Streams.FRESH, Streams.FRESH, console);
    Streams.SameRun(v, before, Streams.Run(v, Streams.FRESH, console), written);
    Streams.RunAppend(v, Streams.FRESH, console, written);
  }

  lemma LedgerFront(l: Ledger, queue: seq<Entry>)
    requires Mirrors(l, queue)
    ensures (l.waiting == [] <==> queue == []) && (queue == [] ==> l.partial == 0)
  {
  }

  lemma PushedWithinBounds(mode: FlowControl, l: Ledger, queue: seq<Entry>, packet: seq<byte>, sent: nat)
    requires Mirrors(l, queue) && Pending(Entry(packet, sent)) && (queue != [] ==> sent == 0)
    requires |queue| < OUTPUT_PACKETS
    requires |UnsentAll(queue)| + |packet| <= OUTPUT_BYTES + if mode.Discard? then StartedBytes(queue) else 0
    ensures WithinBounds(mode, queue + [Entry(packet, sent)])
  {
    PushBounds(mode, queue, packet, sent);
  }

  lemma LedgerLength(l: Ledger, queue: seq<Entry>)
    requires Mirrors(l, queue)
    ensures |l.waiting| == |queue| && Oldest(queue) <= |l.waiting| && (l.partial > 0 <==> Oldest(queue) == 1)
  {
  }

  lemma EvictConsole(l: Ledger, at: nat)
    requires at < |l.waiting| && (l.partial > 0 ==> at == 1)
    ensures OnConsole(Evicted(l, at)) == OnConsole(l)
  {
  }

  lemma CrowdedQueue(l: Ledger, queue: seq<Entry>, want: nat)
    requires Mirrors(l, queue)
    ensures Crowded(l, want) <==> |UnsentAll(queue)| + want > OUTPUT_BYTES || |queue| >= OUTPUT_PACKETS
  {
  }

  ghost predicate AllStarted(queue: seq<Entry>)
  {
    forall i | 0 <= i < |queue| :: queue[i].sent <= |queue[i].bytes|
  }

  lemma StartedEntries(l: Ledger, queue: seq<Entry>)
    requires Mirrors(l, queue)
    ensures AllStarted(queue)
  {
  }

  lemma NothingBroken(kept: seq<byte>)
    requires |kept| <= |UnsentAll([])|
    ensures kept == [] && Redistributed([], kept) == [] && UnsentAll([]) == []
  {
  }

  lemma RedistributedStep(queue: seq<Entry>, kept: seq<byte>)
    requires AllStarted(queue)
    ensures queue == [] ==> Redistributed(queue, kept) == []
    ensures queue != [] ==>
      var rest := Redistributed(queue[1..], kept[Share(queue[0], kept)..]);
      Redistributed(queue, kept)
      == if Share(queue[0], kept) == 0 && queue[0].sent == 0 then rest else [Refilled(queue[0], kept)] + rest
  {
  }

  /** An interrupt completes at most the started front packet, and retiring counts its request once. */
  lemma InterruptRetires(l: Ledger, queue: seq<Entry>, kept: seq<byte>)
    requires Mirrors(l, queue) && |kept| <= |UnsentAll(queue)| && AllStarted(queue)
    ensures var left := Redistributed(queue, kept);
      && (forall i | 1 <= i < |left| :: left[i].sent != |left[i].bytes|)
      && Modes.CountRequests(Interrupted(l, queue, kept).done) == Modes.CountRequests(l.done)
         + if left != [] && left[0].sent == |left[0].bytes| && Modes.ContainsCursorRequest(left[0].bytes) then 1 else 0
  {
    hide Modes.CountRequests, Modes.ContainsCursorRequest;
    if queue != [] && kept != [] {
      InterruptRefills(l, queue, kept);
      WholeBehindFront(Interrupted(l, queue, kept), Redistributed(queue, kept));
    } else if queue != [] && queue[0].sent > 0 {
      InterruptCompletes(l, queue, kept);
      Modes.CountRequestsSnoc(l.done, queue[0].bytes[..queue[0].sent]);
    } else if queue != [] {
      WholeBehindFront(l, queue);
      NothingKept(queue, kept);
    }
  }

  /** Everything the books need about an interrupt. */
  lemma InterruptBooks(mode: FlowControl, l: Ledger, queue: seq<Entry>, kept: seq<byte>)
    requires WithinBounds(mode, queue) && Mirrors(l, queue) && |kept| <= |UnsentAll(queue)|
    ensures AllStarted(queue)
    ensures var left, next := Redistributed(queue, kept), Interrupted(l, queue, kept);
      && (forall i | 1 <= i < |left| :: left[i].sent != |left[i].bytes|)
      && Mirrors(next, Retired(left)) && UnsentAll(Retired(left)) == kept && WithinBounds(mode, Retired(left))
      && OnConsole(next) == OnConsole(l)
      && Modes.CountRequests(next.done) == Modes.CountRequests(l.done)
         + if left != [] && left[0].sent == |left[0].bytes| && Modes.ContainsCursorRequest(left[0].bytes) then 1 else 0
  {
    hide Mirrors, OnConsole, WithinBounds, Modes.CountRequests, Modes.ContainsCursorRequest, UnsentAll, Interrupted;
    hide Redistributed, Retired;
    StartedEntries(l, queue);
    InterruptMirrors(l, queue, kept);
    InterruptBounds(mode, l, queue, kept);
    InterruptRetires(l, queue, kept);
  }

  lemma PendingEntries(l: Ledger, queue: seq<Entry>)
    requires Mirrors(l, queue)
    ensures AllPending(queue)
  {
  }

  lemma ConsoleIsPrefix(l: Ledger)
    ensures OnConsole(l) <= Flatten(Packets(l))
  {
    FlattenAppend(l.done, l.waiting);
    if l.waiting != [] {
      assert Flatten(l.waiting) == l.waiting[0] + Flatten(l.waiting[1..]);
      assert Started(l) <= Flatten(l.waiting);
    }
  }

  // ---------------------------------------------------------------------
  // Whole sessions.

  datatype Event = Offer(packet: seq<byte>) | Ready | Interruption | Collection | ErrorCheck

  /** What a console of this mode keeps of an offered packet: discard mode, its end. */
  function Offered(mode: FlowControl, packet: seq<byte>): seq<byte>
  {
    if mode.Discard? then Tail(mode, packet) else packet
  }

  /** What one event adds to the admitted packets. */
  function Taken(mode: FlowControl, event: Event, answer: Admission): seq<seq<byte>>
  {
    if event.Offer? && answer == Admitted && event.packet != [] then [Offered(mode, event.packet)] else []
  }

  /** The offered packets that were answered with admission, in order. */
  function AdmittedOf(mode: FlowControl, events: seq<Event>, answers: seq<Admission>): seq<seq<byte>>
    requires |events| == |answers|
  {
    if events == [] then [] else
    var last := |events| - 1;
    AdmittedOf(mode, events[..last], answers[..last]) + Taken(mode, events[last], answers[last])
  }

  lemma AdmittedOfSnoc(mode: FlowControl, events: seq<Event>, answers: seq<Admission>, event: Event, answer: Admission)
    requires |events| == |answers|
    ensures AdmittedOf(mode, events + [event], answers + [answer]) == AdmittedOf(mode, events, answers) + Taken(mode, event, answer)
  {
    assert (events + [event])[..|events|] == events && (answers + [answer])[..|answers|] == answers;
  }

  /**
    Any session, whatever the kernel answers: the console only grows. Without
    interrupts it shows the admitted packets in order, followed by what is still
    queued; after a write error, a prefix of them. It is broken exactly when a
    write was refused or took nothing. Discard mode leaves out some
    of the admitted packets, each whole and before any byte of it was shown, and
    none as long as all of them would fit at once.
   */
  method RunSession(c: DirectConsole, events: seq<Event>) returns (answers: seq<Admission>)
    requires c.Valid()
    modifies c, c.stream, c.modes, c.tty
    ensures c.Valid() && |answers| == |events| && old(c.console) <= c.console
    ensures old(c.tty.calls) <= c.tty.calls && (c.broken <==> old(c.broken) || Spoiled(c.tty.calls, |old(c.tty.calls)|))
    ensures c.tty.shown <= Flatten(Packets(c.ledger)) && (!c.broken ==> c.tty.shown + UnsentAll(c.queue) == Flatten(Packets(c.ledger)))
    ensures !old(c.skipUntilNewline) && Interruption !in events ==>
      Thinned(Packets(c.ledger), old(Packets(c.ledger)) + AdmittedOf(c.mode, events, answers))
    ensures var all := old(Packets(c.ledger)) + AdmittedOf(c.mode, events, answers);
      !old(c.skipUntilNewline) && Interruption !in events && (!c.mode.Discard? || Fits(all)) ==> Packets(c.ledger) == all
  {
    hide DirectConsole.Books, DirectConsole.Observed, Packets, AdmittedOf, UnsentAll, Flatten, Thinned, CutAndMore, Fits, Spoiled;
    answers := [];
    NothingAsked(c.tty.calls);
    ghost var start, ordered := Packets(c.ledger), !c.skipUntilNewline && Interruption !in events;
    NoEvents(c.mode, start);
    ThinnedSelf(start);
    for i := 0 to |events|
      invariant c.Valid() && |answers| == i && old(c.console) <= c.console && old(c.tty.calls) <= c.tty.calls
      invariant c.broken <==> old(c.broken) || Spoiled(c.tty.calls, |old(c.tty.calls)|)
      invariant ordered ==> !c.skipUntilNewline && Thinned(Packets(c.ledger), start + AdmittedOf(c.mode, events[..i], answers))
      invariant ordered && (!c.mode.Discard? || Fits(start + AdmittedOf(c.mode, events[..i], answers))) ==>
        Packets(c.ledger) == start + AdmittedOf(c.mode, events[..i], answers)
    {
      ghost var before, asked := Packets(c.ledger), c.tty.calls;
      assert events[..i + 1] == events[..i] + [events[i]];
      var answer := HandleEvent(c, events[i]);
      SpoiledLater(old(c.tty.calls), asked, c.tty.calls);
      AdmittedOfSnoc(c.mode, events[..i], answers, events[i], answer);
      ghost var more := Taken(c.mode, events[i], answer);
      if ordered {
        MoreAdmitted(start, AdmittedOf(c.mode, events[..i], answers), more);
        ThinnedStep(before, Packets(c.ledger), more, start + AdmittedOf(c.mode, events[..i], answers));
        if Fits(start + AdmittedOf(c.mode, events[..i], answers) + more) {
          FitsBefore(start + AdmittedOf(c.mode, events[..i], answers), more);
        }
      }
      answers := answers + [answer];
    }
    assert events[..|events|] == events;
    c.Conserved();
  }

  /** One event of a session. */
  method HandleEvent(c: DirectConsole, event: Event) returns (answer: Admission)
    requires c.Valid()
    modifies c, c.stream, c.modes, c.tty
    ensures c.Valid() && old(c.console) <= c.console
    ensures old(c.tty.calls) <= c.tty.calls && (c.broken <==> old(c.broken) || Spoiled(c.tty.calls, |old(c.tty.calls)|))
    ensures event == Ready && old(c.queue) != [] ==>
      |c.tty.calls| > |old(c.tty.calls)| && (c.queue != [] ==> !TakesAll(c.tty.calls[|c.tty.calls| - 1]))
    ensures !old(c.skipUntilNewline) && event != Interruption ==>
      && !c.skipUntilNewline
      && CutAndMore(old(Packets(c.ledger)), Packets(c.ledger), Taken(c.mode, event, answer))
      && (!c.mode.Discard? || Fits(old(Packets(c.ledger)) + Taken(c.mode, event, answer)) ==>
            Packets(c.ledger) == old(Packets(c.ledger)) + Taken(c.mode, event, answer))
  {
    hide DirectConsole.Books, DirectConsole.Observed, Packets, AdmittedPacket, UnsentAll, Interrupted, CutAndMore, Fits, Spoiled;
    hide Streams.Kept, Streams.CutsLine, Streams.Run;
    NothingAsked(c.tty.calls);
    answer := Full;
    ghost var before, oldest := c.ledger, Oldest(c.queue);
    OnlyMore(Packets(before), []);
    assert Packets(before) + [] == Packets(before);
    match event {
      case Offer(packet) =>
        var evicted;
        answer, evicted := c.TryWrite(packet);
        ghost var kept := Tail(c.mode, packet);
        if AdmittedPacket(c.mode, before, oldest, evicted, kept, c.ledger) {
          AdmittedInOrder(c.mode, before, oldest, evicted, kept, c.ledger);
        }
      case Ready =>
        var progressed := c.WriteQueued();
      case Interruption =>
        var dropped := c.Interrupt();
      case Collection =>
        var reports := c.TakeCursorReports();
      case ErrorCheck =>
        var reported := c.CheckError();
    }
  }

  lemma AdmittedInOrder(
      mode: FlowControl, before: Ledger, oldest: nat, evicted: nat, packet: seq<byte>, after: Ledger)
    requires AdmittedPacket(mode, before, oldest, evicted, packet, after)
    ensures var more := if packet == [] then [] else [packet];
      && CutAndMore(Packets(before), Packets(after), more)
      && (!mode.Discard? || Fits(Packets(before) + more) ==> Packets(after) == Packets(before) + more)
  {
    hide Fits, Crowded, Packets;
    var more := if packet == [] then [] else [packet];
    DropIsCut(before, oldest, evicted, more);
    if Fits(Packets(before) + more) && evicted > 0 {
      FitsIsNotCrowded(before, oldest, evicted - 1, packet);
    } else if evicted == 0 {
      DropNone(before, oldest);
    }
  }

  lemma NoEvents(mode: FlowControl, start: seq<seq<byte>>)
    ensures start == start + AdmittedOf(mode, [], [])
  {
  }

  lemma MoreAdmitted(start: seq<seq<byte>>, admitted: seq<seq<byte>>, more: seq<seq<byte>>)
    ensures start + (admitted + more) == start + admitted + more
  {
  }
}
