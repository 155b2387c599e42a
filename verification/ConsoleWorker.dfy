/** The console worker thread: whole batches out, packet by packet confirmation (`client_output.rs`). */
module ConsoleWorkers {
  import opened Bytes
  import opened ConsoleQueue
  import Modes = TerminalModes
  import Streams = TerminalStreams
  import opened DirectConsoles
  import opened Ttys

  /** Where packet `j` of a batch ends in the joined bytes. */
  function EndOf(batch: seq<seq<byte>>, j: nat): nat
    requires j < |batch|
  {
    |Flatten(batch[..j + 1])|
  }

  /** After `total` delivered bytes exactly the first `k` packets are complete. */
  ghost predicate ExactlyComplete(batch: seq<seq<byte>>, total: nat, k: nat)
  {
    && k <= |batch|
    && (forall j | 0 <= j < k :: EndOf(batch, j) <= total)
    && (forall j | k <= j < |batch| :: total < EndOf(batch, j))
  }

  lemma {:induction false} EndsGrow(batch: seq<seq<byte>>, i: nat, j: nat)
    requires i <= j <= |batch|
    ensures |Flatten(batch[..i])| <= |Flatten(batch[..j])|
    decreases j - i
  {
    if i < j {
      EndsGrow(batch, i, j - 1);
      FlattenSnoc(batch, j - 1);
    }
  }

  lemma FlattenSnoc(batch: seq<seq<byte>>, j: nat)
    requires j < |batch|
    ensures Flatten(batch[..j + 1]) == Flatten(batch[..j]) + batch[j]
  {
    assert batch[..j + 1] == batch[..j] + [batch[j]];
    FlattenAppend(batch[..j], [batch[j]]);
    FlattenOne(batch[j]);
  }

  lemma CompleteExactly(batch: seq<seq<byte>>, total: nat, k: nat, left: nat)
    requires k <= |batch| && total == |Flatten(batch[..k])| + left
    requires k < |batch| ==> left < |batch[k]|
    ensures ExactlyComplete(batch, total, k)
  {
    forall j | 0 <= j < k ensures EndOf(batch, j) <= total {
      EndsGrow(batch, j + 1, k);
    }
    forall j | k <= j < |batch| ensures total < EndOf(batch, j) {
      FlattenSnoc(batch, k);
      EndsGrow(batch, k + 1, j + 1);
    }
  }

  /** Packets without bytes change nothing that counts. */
  function NonEmpty(packets: seq<seq<byte>>): seq<seq<byte>>
  {
    if packets == [] then [] else
    var last := packets[|packets| - 1];
    NonEmpty(packets[..|packets| - 1]) + if last == [] then [] else [last]
  }

  lemma EmptyHasNoRequest()
    ensures !Modes.ContainsCursorRequest([])
  {
  }

  lemma {:induction false} NonEmptyCountsTheSame(packets: seq<seq<byte>>)
    ensures Flatten(NonEmpty(packets)) == Flatten(packets)
    ensures Modes.CountRequests(NonEmpty(packets)) == Modes.CountRequests(packets)
  {
    hide Modes.ContainsCursorRequest;
    if packets != [] {
      var before, last := packets[..|packets| - 1], packets[|packets| - 1];
      assert packets == before + [last];
      NonEmptyCountsTheSame(before);
      FlattenAppend(before, [last]);
      FlattenAppend(NonEmpty(before), [last]);
      FlattenOne(last);
      Modes.CountRequestsSnoc(before, last);
      Modes.CountRequestsSnoc(NonEmpty(before), last);
      EmptyHasNoRequest();
      if last == [] {
        assert NonEmpty(packets) == NonEmpty(before);
        assert Flatten(before) + last == Flatten(before);
      } else {
        assert NonEmpty(packets) == NonEmpty(before) + [last];
      }
    }
  }

  /** All of a batch delivered: the tracker has seen it all and every request is counted. */
  lemma WholeBatch(batch: seq<seq<byte>>, next: nat, total: nat)
    requires next <= |batch| && total == |Flatten(batch)| && |Flatten(batch[..next])| <= total
    requires total > 0 ==> ExactlyComplete(batch, total, next)
    requires total == 0 ==> next == 0
    ensures Flatten(batch[..next]) == Flatten(batch)
    ensures Modes.CountRequests(batch[..next]) == Modes.CountRequests(batch)
  {
    if total > 0 {
      assert batch[..|batch|] == batch;
      assert next < |batch| ==> total < EndOf(batch, |batch| - 1);
      assert batch[..next] == batch;
    } else {
      AllEmpty(batch);
    }
  }

  lemma {:induction false} AllEmpty(batch: seq<seq<byte>>)
    requires |Flatten(batch)| == 0
    ensures Modes.CountRequests(batch) == 0 && Flatten(batch) == []
  {
    hide Modes.ContainsCursorRequest;
    if batch != [] {
      var before, last := batch[..|batch| - 1], batch[|batch| - 1];
      assert batch == before + [last];
      FlattenAppend(before, [last]);
      FlattenOne(last);
      AllEmpty(before);
      EmptyHasNoRequest();
    }
  }

  lemma {:induction false} CountRequestsAppend(a: seq<seq<byte>>, b: seq<seq<byte>>)
    ensures Modes.CountRequests(a + b) == Modes.CountRequests(a) + Modes.CountRequests(b)
    decreases |b|
  {
    hide Modes.ContainsCursorRequest;
    if b == [] {
      assert a + b == a;
    } else {
      var before, last := b[..|b| - 1], b[|b| - 1];
      assert b == before + [last] && a + b == (a + before) + [last];
      CountRequestsAppend(a, before);
      Modes.CountRequestsSnoc(before, last);
      Modes.CountRequestsSnoc(a + before, last);
    }
  }

  lemma BatchObserved(
      v: Streams.Words, before: Streams.Stream, after: Streams.Stream,
      written: seq<seq<byte>>, batch: seq<seq<byte>>, i: nat)
    requires i < |batch| && Streams.ValidStream(v, before)
    requires Streams.Same(before, Streams.Run(v, Streams.FRESH, Flatten(written + batch[..i])))
    requires Streams.Same(after, Streams.Run(v, before, batch[i]))
    ensures Streams.Same(after, Streams.Run(v, Streams.FRESH, Flatten(written + batch[..i + 1])))
  {
    hide Streams.Run, Streams.ValidStream, Streams.Same;
    assert written + batch[..i + 1] == (written + batch[..i]) + [batch[i]];
    FlattenAppend(written + batch[..i], [batch[i]]);
    FlattenOne(batch[i]);
    ObservedMore(v, before, after, Flatten(written + batch[..i]), batch[i]);
  }

  /** What the batch confirmed, added to what was confirmed before it. */
  lemma BatchConfirmed(written: seq<seq<byte>>, done: seq<seq<byte>>)
    ensures Modes.Track(Modes.Track(Modes.FRESH, Flatten(written)), Flatten(done))
         == Modes.Track(Modes.FRESH, Flatten(written + done))
    ensures Modes.CountRequests(written + done) == Modes.CountRequests(written) + Modes.CountRequests(done)
  {
    hide Modes.Track, Modes.CountRequests;
    FlattenAppend(written, done);
    Modes.TrackAppend(Modes.FRESH, Flatten(written), Flatten(done));
    CountRequestsAppend(written, done);
  }

  function Sum(counts: seq<nat>): nat
  {
    if counts == [] then 0 else counts[0] + Sum(counts[1..])
  }

  /**
    A console writer may confirm delivery in several steps, and may break in
    between with bytes taken but not confirmed. On success it has confirmed
    exactly what the console took. An interrupted write is retried before any
    byte is confirmed. `taken` is what the console took.
   */
  method WriteWithDelivery(tty: Tty, bytes: seq<byte>)
    returns (deliveries: seq<nat>, result: WriterResult, ghost taken: nat)
    modifies tty
    ensures forall i | 0 <= i < |deliveries| :: deliveries[i] > 0
    ensures Sum(deliveries) <= taken <= |bytes| && tty.shown == old(tty.shown) + bytes[..taken]
    ensures result.Sent? ==> result.count == Sum(deliveries) == taken
    ensures tty.outcomes == old(tty.outcomes) + [result]
  {
    deliveries, result, taken := [], Broke, 0;
    var written := tty.Write(bytes);
    assert bytes[..0] == [];
    if written.Wrote? {
      taken := written.count;
      if * {
        if written.count > 0 {
          deliveries := [written.count];
          assert Sum(deliveries) == written.count + Sum(deliveries[1..]);
        }
        result := Sent(written.count);
      }
    }
    tty.outcomes := tty.outcomes + [result];
  }

  /** The other thread: what its session will ask of the console, and how far it was answered. */
  class Client {
    const script: seq<Event>
    var answers: seq<Admission>

    ghost predicate Valid()
      reads this
    {
      |answers| <= |script|
    }

    /** It has nothing more to ask. */
    ghost predicate Quiet()
      reads this
    {
      |answers| == |script|
    }

    ghost predicate Uninterrupted()
      requires Valid()
      reads this
    {
      Interruption !in script[..|answers|]
    }

    /** The packets answered with admission so far, in order. */
    ghost function Admissions(mode: FlowControl): seq<seq<byte>>
      requires Valid()
      reads this
    {
      AdmittedOf(mode, script[..|answers|], answers)
    }

    /** All packets answered with admission would find room in an empty queue. */
    ghost predicate Modest(mode: FlowControl)
      requires Valid()
      reads this
    {
      |Flatten(Admissions(mode))| <= OUTPUT_BYTES && |answers| < OUTPUT_PACKETS
    }

    constructor (script: seq<Event>)
      ensures Valid() && this.script == script && answers == []
    {
      this.script, answers := script, [];
    }

    method Note(answer: Admission)
      requires Valid() && |answers| < |script|
      modifies this
      ensures Valid() && answers == old(answers) + [answer]
      ensures Uninterrupted() <==> old(Uninterrupted()) && script[|old(answers)|] != Interruption
      ensures forall mode :: Admissions(mode) == old(Admissions(mode)) + Taken(mode, script[|old(answers)|], answer)
    {
      hide AdmittedOf, Taken;
      ghost var n := |answers|;
      assert script[..n + 1] == script[..n] + [script[n]];
      forall mode ensures AdmittedOf(mode, script[..n + 1], answers + [answer])
                       == AdmittedOf(mode, script[..n], answers) + Taken(mode, script[n], answer) {
        AdmittedOfSnoc(mode, script[..n], answers, script[n], answer);
      }
      answers := answers + [answer];
    }
  }

  /**
    The state shared by the session loop and its worker thread, with the
    locals of `run_writer` that live across its lock sections. Every lock
    section is one method below; `SessionLoop` is what the other thread may
    do in between.
   */
  class ConsoleWorker {
    const mode: FlowControl
    const stream: Streams.TerminalStream
    const modes: Modes.TerminalModeState
    const tty: Tty
    const client: Client
    var queue: seq<seq<byte>>
    var bytes: nat
    var skipUntilNewline: bool
    var stopping: bool
    var workerDone: bool
    var error: Option<ErrorKind>
    var cursorReports: nat
    var waitingForCapacity: bool
    /** The batch being written, the packets of it confirmed, and bytes confirmed past those. */
    var batch: seq<seq<byte>>
    var next: nat
    var confirmed: nat
    /** Bytes of the batch confirmed and taken, packets of finished batches, packets admitted, reports collected. */
    ghost var total: nat
    ghost var taken: nat
    ghost var written: seq<seq<byte>>
    ghost var admitted: seq<seq<byte>>
    ghost var collected: nat

    ghost predicate Queued()
      reads this`queue, this`bytes, this`written, this`batch, this`admitted
    {
      && bytes == |Flatten(queue)| && bytes <= OUTPUT_BYTES && |queue| <= OUTPUT_PACKETS
      && admitted == written + batch + queue
    }

    ghost predicate Observed()
      reads this`written, this`batch, stream
    {
      && Streams.ValidStream(stream.v, stream.View())
      && Streams.Same(stream.View(), Streams.Run(stream.v, Streams.FRESH, Flatten(written + batch)))
    }

    ghost predicate Counted()
      reads this`batch, this`next, this`confirmed, this`total
    {
      && next <= |batch|
      && total == |Flatten(batch[..next])| + confirmed
      && total <= |Flatten(batch)|
      && (total > 0 ==> ExactlyComplete(batch, total, next))
      && (total == 0 ==> next == 0)
    }

    ghost predicate Confirmed()
      requires next <= |batch|
      reads this`batch, this`next, this`written, this`cursorReports, this`collected, modes
    {
      && modes.View() == Modes.Track(Modes.FRESH, Flatten(written + batch[..next]))
      && cursorReports + collected == Modes.CountRequests(written + batch[..next])
    }

    /** The console was given the finished batches and the beginning of the one in hand. */
    ghost predicate OnTty()
      reads this`written, this`batch, this`total, this`taken, tty
    {
      total <= taken <= |Flatten(batch)| && tty.shown == Flatten(written) + Flatten(batch)[..taken]
    }

    ghost predicate Books()
      reads this`queue, this`bytes, this`written, this`batch, this`admitted, this`next, this`confirmed, this`total
      reads this`cursorReports, this`collected, this`taken, stream, modes, tty
    {
      Queued() && Observed() && Counted() && Confirmed() && OnTty()
    }

    /**
      As long as no interrupt cut into the queue, `admitted` is what the client
      was told; discard mode leaves some out, but none while all would fit.
     */
    ghost predicate Anchored()
      reads this`admitted, this`skipUntilNewline, client
    {
      && client.Valid() && |admitted| <= |client.answers|
      && (client.Uninterrupted() ==>
            && !skipUntilNewline
            && Thinned(NonEmpty(admitted), client.Admissions(mode))
            && (!mode.Discard? || client.Modest(mode) ==> NonEmpty(admitted) == client.Admissions(mode)))
    }

    ghost predicate Valid()
      reads this, stream, modes, tty, client
    {
      Books() && Anchored()
    }

    constructor (mode: FlowControl, v: Streams.Words, client: Client)
      requires client.Valid() && client.answers == []
      ensures Valid() && this.mode == mode && this.client == client && fresh(stream) && fresh(modes) && fresh(tty)
      ensures admitted == [] && batch == [] && total == 0 && taken == 0 && collected == 0
      ensures !stopping && !workerDone && error.None? && !skipUntilNewline && !waitingForCapacity
    {
      this.mode, this.client, skipUntilNewline := mode, client, false;
      stream := new Streams.TerminalStream(v);
      modes := new Modes.TerminalModeState();
      tty := new Tty();
      queue, bytes, stopping, workerDone, error := [], 0, false, false, None;
      cursorReports, waitingForCapacity := 0, false;
      batch, next, confirmed, total, taken, written, admitted, collected := [], 0, 0, 0, 0, [], [], 0;
    }

    /** Discard mode drops the oldest queued packets, no more than it must. */
    method MakeRoom(want: nat) returns (evicted: nat)
      requires Queued() && want <= OUTPUT_BYTES
      modifies this`queue, this`bytes, this`admitted
      ensures Queued() && !TooFull(queue, want)
      ensures evicted <= |old(queue)| && queue == old(queue)[evicted..]
      ensures evicted > 0 ==> TooFull(old(queue)[evicted - 1..], want)
    {
      ghost var before := queue;
      evicted := 0;
      while bytes + want > OUTPUT_BYTES || |queue| >= OUTPUT_PACKETS
        invariant Queued() && evicted <= |before| && queue == before[evicted..]
        invariant evicted > 0 ==> TooFull(before[evicted - 1..], want)
        decreases |queue|
      {
        FlattenHead(queue);
        assert TooFull(queue, want) && queue[1..] == before[evicted + 1..];
        bytes := bytes - |queue[0]|;
        queue := queue[1..];
        admitted := written + batch + queue;
        evicted := evicted + 1;
      }
    }

    /** What a packet offered in this state comes to. */
    ghost function Decide(input: seq<byte>): Decision
      reads this
    {
      if !mode.Discard? && |input| > OUTPUT_BYTES then Reject(InvalidInput)
      else if error.Some? then Reject(error.value)
      else if stopping then Reject(BrokenPipe)
      else match AfterSkip(skipUntilNewline, Tail(mode, input))
        case None => Swallow
        case Some(packet) => if !mode.Discard? && TooFull(queue, |packet|) then Hold else Decision.Admit(packet)
    }

    /** The packet joined the queue behind what eviction, no more than needed, left of it. */
    ghost predicate Joined(before: seq<seq<byte>>, evicted: nat, packet: seq<byte>)
      reads this`queue
    {
      && evicted <= |before| && queue == before[evicted..] + [packet]
      && (evicted > 0 ==> mode.Discard? && TooFull(before[evicted - 1..], |packet|))
    }

    /** How a decision is answered. */
    static function AnswerOf(decision: Decision): Admission
    {
      match decision
      case Reject(kind) => Failed(kind)
      case Hold => Full
      case _ => Admitted
    }

    /** `try_write` in front of the worker. */
    method TryWrite(input: seq<byte>) returns (result: Admission, evicted: nat)
      requires Books()
      modifies this`queue, this`bytes, this`admitted, this`waitingForCapacity, this`error, this`skipUntilNewline
      ensures Books()
      ensures result == AnswerOf(old(Decide(input)))
      ensures error == if !mode.Discard? && |input| > OUTPUT_BYTES then old(error) else None
      ensures waitingForCapacity == (old(waitingForCapacity) || old(Decide(input)).Hold?)
      ensures match old(Decide(input))
        case Admit(packet) =>
          && !skipUntilNewline && Joined(old(queue), evicted, packet) && CutAndMore(old(admitted), admitted, [packet])
          && (evicted == 0 ==> admitted == old(admitted) + [packet]) && |admitted| <= |old(admitted)| + 1
        case _ =>
          queue == old(queue) && admitted == old(admitted) && skipUntilNewline == old(skipUntilNewline)
    {
      hide Observed, Counted, Confirmed, OnTty, Flatten, CutAndMore, AfterSkip, Tail, Joined;
      evicted := 0;
      if !mode.Discard? && |input| > OUTPUT_BYTES {
        return Failed(InvalidInput), 0;
      }
      if error.Some? {
        result := Failed(error.value);
        error := None;
        return;
      }
      if stopping {
        return Failed(BrokenPipe), 0;
      }
      var rest := AfterSkip(skipUntilNewline, Tail(mode, input));
      if rest.None? {
        return Admitted, 0;
      }
      var retained := rest.value;
      if !mode.Discard? {
        if bytes + |retained| > OUTPUT_BYTES || |queue| >= OUTPUT_PACKETS {
          waitingForCapacity := true;
          return Full, 0;
        }
      }
      skipUntilNewline := false;
      evicted := Enter(retained);
      result := Admitted;
    }

    /** An admitted packet joins the queue; in discard mode older ones make room. */
    method Enter(packet: seq<byte>) returns (evicted: nat)
      requires Queued() && |packet| <= OUTPUT_BYTES && (!mode.Discard? ==> !TooFull(queue, |packet|))
      modifies this`queue, this`bytes, this`admitted
      ensures Queued() && Joined(old(queue), evicted, packet)
      ensures CutAndMore(old(admitted), admitted, [packet])
      ensures (evicted == 0 ==> admitted == old(admitted) + [packet]) && |admitted| <= |old(admitted)| + 1
    {
      hide Flatten, CutAndMore;
      evicted := 0;
      if mode.Discard? {
        evicted := MakeRoom(|packet|);
      }
      EvictionCuts(written + batch, old(queue), evicted, packet);
      Push(packet);
    }

    method Push(packet: seq<byte>)
      requires Queued() && !TooFull(queue, |packet|)
      modifies this`queue, this`bytes, this`admitted
      ensures Queued() && queue == old(queue) + [packet] && admitted == old(admitted) + [packet]
    {
      hide Flatten;
      FlattenPush(queue, packet);
      AdmitLast(written + batch, queue, packet);
      bytes := bytes + |packet|;
      queue := queue + [packet];
      admitted := written + batch + queue;
    }

    /** Hand the counted cursor requests over. */
    method TakeCursorReports() returns (reports: nat)
      requires Books()
      modifies this`cursorReports, this`collected
      ensures Books() && reports == old(cursorReports) && cursorReports == 0
      ensures collected == old(collected) + reports
    {
      reports := cursorReports;
      collected := collected + cursorReports;
      cursorReports := 0;
    }

    /** `check_error`: an error is reported once. */
    method CheckError() returns (reported: Option<ErrorKind>)
      requires Books()
      modifies this`error
      ensures Books() && reported == old(error) && error.None?
    {
      hide Queued, Observed, Counted, Confirmed, OnTty;
      reported := error;
      error := None;
    }

    /**
      `interrupt`: only what the filter keeps of the queued bytes is still to be
      written. The batch in hand belongs to the writer and counts as seen.
     */
    method Interrupt() returns (dropped: nat)
      requires Books()
      modifies this`queue, this`bytes, this`admitted, this`skipUntilNewline
      ensures Books()
      ensures var seen := Streams.Run(stream.v, Streams.FRESH, Flatten(written + batch));
        && Flatten(queue) == Streams.Kept(stream.v, seen, old(Flatten(queue)))
        && skipUntilNewline == (old(skipUntilNewline) || Streams.CutsLine(stream.v, seen, old(Flatten(queue))))
      ensures |Flatten(queue)| + dropped == |old(Flatten(queue))| && |admitted| <= |old(admitted)|
    {
      hide Queued, Observed, Counted, Confirmed, OnTty, Flatten, Streams.Kept, Streams.CutsLine, Streams.Run, Streams.ValidStream;
      var waiting := Flatten(queue);
      FilterSeesOwned(waiting);
      var kept, skip := stream.Filter(waiting);
      Regroup(kept);
      skipUntilNewline := skipUntilNewline || skip;
      dropped := |waiting| - |kept|;
    }

    method Regroup(kept: seq<byte>)
      requires Queued() && |kept| <= |Flatten(queue)|
      modifies this`queue, this`bytes, this`admitted
      ensures Queued() && queue == Regrouped(old(queue), kept) && Flatten(queue) == kept
      ensures |admitted| <= |old(admitted)|
    {
      hide Flatten, Regrouped;
      RegroupedBytes(queue, kept);
      queue := Regrouped(queue, kept);
      bytes := |kept|;
      admitted := written + batch + queue;
    }

    /** The filter decides on the bytes the writer owns. */
    lemma FilterSeesOwned(waiting: seq<byte>)
      requires Observed()
      ensures Streams.ValidStream(stream.v, stream.View())
      ensures var seen := Streams.Run(stream.v, Streams.FRESH, Flatten(written + batch));
        && Streams.Kept(stream.v, stream.View(), waiting) == Streams.Kept(stream.v, seen, waiting)
        && Streams.CutsLine(stream.v, stream.View(), waiting) == Streams.CutsLine(stream.v, seen, waiting)
    {
      hide Flatten;
      var owned := Flatten(written + batch);
      Streams.FreshIsValid(stream.v);
      Streams.SameRun(stream.v, Streams.FRESH, Streams.FRESH, owned);
      Streams.FilterSame(stream.v, stream.View(), Streams.Run(stream.v, Streams.FRESH, owned), waiting);
    }

    /** A packet that fits with all those in line evicts nothing. */
    lemma NoEviction(packet: seq<byte>)
      requires Books() && |admitted| < OUTPUT_PACKETS && |Flatten(NonEmpty(admitted))| + |packet| <= OUTPUT_BYTES
      ensures forall e | 0 <= e < |queue| :: !TooFull(queue[e..], |packet|)
    {
      hide Observed, Counted, Confirmed, OnTty, Flatten, NonEmpty, Modes.CountRequests;
      NonEmptyCountsTheSame(admitted);
      forall e | 0 <= e < |queue| ensures !TooFull(queue[e..], |packet|) {
        assert admitted == written + batch + queue[..e] + queue[e..];
        FlattenAppend(written + batch + queue[..e], queue[e..]);
      }
    }

    /** The client's next packet. */
    method ServeOffer(packet: seq<byte>) returns (answer: Admission)
      requires Valid()
      modifies this`queue, this`bytes, this`admitted, this`waitingForCapacity, this`error, this`skipUntilNewline
      ensures Books() && |admitted| <= |old(admitted)| + 1 && answer == AnswerOf(old(Decide(packet)))
      ensures client.Uninterrupted() ==> !skipUntilNewline
      ensures var all := client.Admissions(mode) + Taken(mode, Offer(packet), answer);
        client.Uninterrupted() ==>
          && Thinned(NonEmpty(admitted), all)
          && (!mode.Discard? || (|Flatten(all)| <= OUTPUT_BYTES && |client.answers| + 1 < OUTPUT_PACKETS) ==> NonEmpty(admitted) == all)
    {
      hide Books, NonEmpty, Thinned, Client.Admissions, CutAndMore, Flatten, TooFull;
      ghost var before, all, line := admitted, client.Admissions(mode), queue;
      ghost var more := Taken(mode, Offer(packet), Admitted);
      FlattenAppend(all, more);
      FlattenOne(Offered(mode, packet));
      assert all + [] == all;
      ghost var modest := |Flatten(all + more)| <= OUTPUT_BYTES && |client.answers| + 1 < OUTPUT_PACKETS;
      if modest && client.Uninterrupted() {
        NoEviction(Offered(mode, packet));
      }
      var evicted;
      answer, evicted := TryWrite(packet);
      if answer == Admitted {
        AnchorMore(mode, before, admitted, all, packet);
      }
    }

    /** The next thing the client asks for. */
    method Serve()
      requires Valid() && |client.answers| < |client.script|
      modifies this`queue, this`bytes, this`admitted, this`waitingForCapacity, this`error, this`skipUntilNewline
      modifies this`cursorReports, this`collected, client
      ensures Valid() && |client.answers| == |old(client.answers)| + 1 && old(client.answers) <= client.answers
      ensures match client.script[|old(client.answers)|]
        case Offer(packet) => client.answers[|old(client.answers)|] == AnswerOf(old(Decide(packet)))
        case Interruption =>
          Flatten(queue) == Streams.Kept(stream.v, Streams.Run(stream.v, Streams.FRESH, Flatten(written + batch)), old(Flatten(queue)))
        case Collection => queue == old(queue) && cursorReports == 0
        case ErrorCheck => queue == old(queue) && error.None?
        case Ready => queue == old(queue) && error == old(error) && cursorReports == old(cursorReports)
    {
      hide Books, NonEmpty, Thinned, Client.Admissions, Streams.Kept, Streams.CutsLine, Streams.Run, Flatten;
      var event := client.script[|client.answers|];
      var answer := Full;
      ghost var all := client.Admissions(mode);
      match event {
        case Offer(packet) =>
          answer := ServeOffer(packet);
        case Interruption =>
          var _ := Interrupt();
        case Collection =>
          var _ := TakeCursorReports();
        case ErrorCheck =>
          var _ := CheckError();
        case Ready =>
      }
      assert all + [] == all;
      client.Note(answer);
    }

    /** Anything the session loop may do while the worker is not holding the lock. */
    method SessionLoop()
      requires Valid()
      modifies this`queue, this`bytes, this`admitted, this`waitingForCapacity, this`error, this`skipUntilNewline
      modifies this`cursorReports, this`collected, this`stopping, client
      ensures Valid() && old(client.answers) <= client.answers && (old(client.Quiet()) ==> queue == old(queue) && client.Quiet())
      ensures old(stopping) ==> stopping
    {
      hide Valid;
      var steps: nat :| true;
      while steps > 0
        invariant Valid() && old(client.answers) <= client.answers && (old(stopping) ==> stopping)
        invariant old(client.Quiet()) ==> queue == old(queue) && client.Quiet()
      {
        var asks: bool := *;
        if asks && |client.answers| < |client.script| {
          Serve();
        } else {
          Stop();
        }
        steps := steps - 1;
      }
    }

    /** Completion and drop both ask the worker to stop. */
    method Stop()
      requires Valid()
      modifies this`stopping
      ensures Valid() && stopping
    {
      stopping := true;
    }

    /** Take every queued packet; the writer owns them from here on. */
    method TakeBatch()
      requires Valid() && batch == [] && total == 0 && taken == 0
      modifies this`queue, this`bytes, this`waitingForCapacity, this`batch, this`next, this`confirmed, stream
      ensures Valid() && batch == old(queue) && queue == [] && total == 0 && next == 0 && !waitingForCapacity
    {
      hide Queued, Counted, Confirmed, OnTty, Flatten, Streams.Run, Streams.ValidStream, Streams.Same, Anchored;
      assert written + batch == written;
      DrainQueue();
      ObserveBatch();
    }

    /** The queue becomes the batch; none of it is written yet. */
    method DrainQueue()
      requires Queued() && Counted() && Confirmed() && OnTty() && batch == [] && total == 0 && taken == 0
      modifies this`queue, this`bytes, this`waitingForCapacity, this`batch, this`next, this`confirmed
      ensures Queued() && Counted() && Confirmed() && OnTty() && batch == old(queue) && queue == [] && next == 0
      ensures !waitingForCapacity
    {
      hide Flatten, Modes.CountRequests, Modes.Track, ExactlyComplete;
      assert written + batch[..next] == written;
      BatchTaken(written, queue);
      batch, next, confirmed := queue, 0, 0;
      queue, bytes, waitingForCapacity := [], 0, false;
    }

    /** The stream sees each packet of the batch in turn. */
    method ObserveBatch()
      requires Streams.ValidStream(stream.v, stream.View())
      requires Streams.Same(stream.View(), Streams.Run(stream.v, Streams.FRESH, Flatten(written)))
      modifies stream
      ensures Observed()
    {
      hide Flatten, Streams.Run, Streams.ValidStream, Streams.Same;
      assert written + batch[..0] == written;
      for i := 0 to |batch|
        invariant Streams.ValidStream(stream.v, stream.View())
        invariant Streams.Same(stream.View(), Streams.Run(stream.v, Streams.FRESH, Flatten(written + batch[..i])))
      {
        ghost var before := stream.View();
        stream.Observe(batch[i]);
        BatchObserved(stream.v, before, stream.View(), written, batch, i);
      }
      assert batch[..|batch|] == batch;
    }

    /** `delivered(count)`: retire the packets whose last byte is among the delivered ones. */
    method Delivered(count: nat)
      requires Valid() && count > 0 && total + count <= taken
      modifies this`next, this`confirmed, this`cursorReports, this`total, modes
      ensures Valid() && total == old(total) + count
    {
      hide ExactlyComplete, Flatten, Modes.CountRequests, Modes.Track, Queued, Observed;
      confirmed := confirmed + count;
      total := total + count;
      ghost var first := next;
      while next < |batch| && |batch[next]| <= confirmed
        invariant first <= next <= |batch| && total == old(total) + count
        invariant total == |Flatten(batch[..next])| + confirmed
        invariant Confirmed()
      {
        ConfirmNext();
      }
      CompleteExactly(batch, total, next, confirmed);
    }

    /** The next packet of the batch is out whole: track its modes and count its request. */
    method ConfirmNext()
      requires next < |batch| && |batch[next]| <= confirmed && Confirmed()
      modifies this`next, this`confirmed, this`cursorReports, modes
      ensures next == old(next) + 1 && Confirmed()
      ensures |Flatten(batch[..next])| + confirmed == old(|Flatten(batch[..next])| + confirmed)
    {
      hide Flatten, Modes.CountRequests, Modes.Track;
      var packet := batch[next];
      FlattenSnoc(batch, next);
      BatchConfirms(written, batch, next);
      modes.Observe(packet);
      if Modes.ContainsCursorRequest(packet) {
        cursorReports := cursorReports + 1;
      }
      confirmed := confirmed - |packet|;
      next := next + 1;
    }

    method ConfirmAll(deliveries: seq<nat>)
      requires Valid() && total + Sum(deliveries) <= taken
      requires forall i | 0 <= i < |deliveries| :: deliveries[i] > 0
      modifies this`next, this`confirmed, this`cursorReports, this`total, modes
      modifies this`queue, this`bytes, this`admitted, this`waitingForCapacity, this`error, this`skipUntilNewline
      modifies this`collected, this`stopping, client
      ensures Valid() && total == old(total) + Sum(deliveries) && old(client.answers) <= client.answers
      ensures (old(client.Quiet()) ==> queue == old(queue) && client.Quiet()) && (old(stopping) ==> stopping)
    {
      hide Valid, Flatten;
      var rest := deliveries;
      while rest != []
        invariant Valid() && total + Sum(rest) == old(total) + Sum(deliveries) && old(client.answers) <= client.answers
        invariant old(client.Quiet()) ==> queue == old(queue) && client.Quiet()
        invariant forall i | 0 <= i < |rest| :: rest[i] > 0
        invariant old(stopping) ==> stopping
        decreases |rest|
      {
        Delivered(rest[0]);
        SessionLoop();
        rest := rest[1..];
      }
    }

    /** `write_all_with_progress`: it fails exactly when a write does or brings nothing, and else delivers every byte. */
    method WriteAll() returns (failure: Option<ErrorKind>)
      requires Valid() && total == 0 && taken == 0
      modifies this`next, this`confirmed, this`cursorReports, this`total, this`taken, modes, tty
      modifies this`queue, this`bytes, this`admitted, this`waitingForCapacity, this`error, this`skipUntilNewline
      modifies this`collected, this`stopping, client
      ensures Valid() && old(client.answers) <= client.answers && (old(client.Quiet()) ==> queue == old(queue) && client.Quiet())
      ensures (failure.None? ==> total == |Flatten(batch)|) && (old(stopping) ==> stopping)
      ensures old(tty.outcomes) <= tty.outcomes && (failure.Some? <==> EndedSince(tty.outcomes, |old(tty.outcomes)|))
      ensures failure.Some? ==> failure == Some(if tty.outcomes[|tty.outcomes| - 1] == Broke then WriteFailed else WriteZero)
    {
      hide Queued, Observed, Counted, Confirmed, Flatten, Anchored, EndedSince;
      var joined := Flatten(batch);
      var rest := joined;
      NoOutcomes(tty.outcomes);
      while rest != []
        invariant Valid() && total == taken <= |joined| && joined == Flatten(batch) && rest == joined[total..]
        invariant old(client.answers) <= client.answers && (old(client.Quiet()) ==> queue == old(queue) && client.Quiet())
        invariant old(stopping) ==> stopping
        invariant old(tty.outcomes) <= tty.outcomes && !EndedSince(tty.outcomes, |old(tty.outcomes)|)
        decreases |rest|
      {
        ghost var reported := tty.outcomes;
        var deliveries, result, more := WriteWithDelivery(tty, rest);
        OneMoreOutcome(old(tty.outcomes), reported, result);
        TakenMore(Flatten(written), joined, taken, more);
        taken := taken + more;
        ConfirmAll(deliveries);
        if result == Broke {
          return Some(WriteFailed);
        }
        if result == Sent(0) {
          return Some(WriteZero);
        }
        rest := rest[result.count..];
      }
      failure := None;
    }

    /** A whole batch is out: nothing of it is left to confirm. */
    method FinishBatch()
      requires Valid() && total == |Flatten(batch)|
      modifies this`batch, this`next, this`confirmed, this`total, this`taken, this`written
      ensures Valid() && batch == [] && total == 0 && taken == 0 && written == old(written) + old(batch)
    {
      hide Flatten, Modes.CountRequests, Modes.Track, Streams.Run, Streams.ValidStream, Streams.Same, ExactlyComplete, Anchored;
      BatchOver(written, batch, next, total);
      BatchShown(written, batch, taken);
      ghost var out := written + batch;
      assert out + [] == out && out + [] + queue == out + queue;
      written, batch, next, confirmed, total, taken := out, [], 0, 0, 0, 0;
    }

    /** One turn of the worker loop once it is woken, with the session loop running beside it. */
    method Turn() returns (done: bool)
      requires Valid() && batch == [] && total == 0 && taken == 0 && !workerDone
      requires queue != [] || stopping
      modifies this, stream, modes, tty, client
      ensures Valid() && old(client.answers) <= client.answers
      ensures !workerDone ==> batch == [] && total == 0 && taken == 0
      ensures done <==> workerDone
      ensures done && error.None? ==> old(queue) == [] && old(stopping) && batch == [] && taken == 0
      ensures !done ==> old(written) + old(queue) <= written && (old(client.Quiet()) ==> queue == [])
      ensures old(client.answers) <= client.answers && old(tty.outcomes) <= tty.outcomes
      ensures done <==> old(queue) == [] || EndedSince(tty.outcomes, |old(tty.outcomes)|)
      ensures old(queue) == [] ==> tty.outcomes == old(tty.outcomes) && stopping && batch == [] && queue == []
      ensures (old(client.Quiet()) ==> client.Quiet()) && (old(stopping) ==> stopping)
      ensures old(queue) != [] ==> !waitingForCapacity
      ensures done && old(queue) != [] ==>
        stopping && error == Some(if tty.outcomes[|tty.outcomes| - 1] == Broke then WriteFailed else WriteZero)
    {
      hide Valid, Flatten, EndedSince;
      NoOutcomes(tty.outcomes);
      if queue == [] {
        Leave(None);
        return true;
      }
      TakeBatch();
      SessionLoop();
      var failure := WriteAll();
      SignalCapacity();
      done := failure.Some?;
      if failure.None? {
        FinishBatch();
      } else {
        Leave(failure);
      }
    }

    /** Whoever waits for room is woken. */
    method SignalCapacity()
      requires Valid()
      modifies this`waitingForCapacity
      ensures Valid() && !waitingForCapacity
    {
      hide Queued, Observed, Counted, Confirmed, OnTty;
      waitingForCapacity := false;
    }

    /** The worker ends; after a write error nothing more is admitted. */
    method Leave(failure: Option<ErrorKind>)
      requires Valid()
      modifies this`error, this`stopping, this`workerDone
      ensures Valid() && workerDone
      ensures failure.Some? ==> error == failure && stopping
      ensures failure.None? ==> error == old(error) && stopping == old(stopping)
    {
      hide Queued, Observed, Counted, Confirmed, OnTty;
      if failure.Some? {
        error, stopping := failure, true;
      }
      workerDone := true;
    }

    /**
      `run_writer`: every finite run, whatever the client and the console do
      meanwhile. Until an interrupt cuts into the queue, the console, the batch in
      hand and the queue hold the packets the client was told are admitted, in
      order; discard mode leaves out some of them, each whole and never started,
      and none as long as all of them would fit at once.
     */
    method RunWriter(turns: nat)
      requires Valid() && batch == [] && total == 0 && taken == 0 && !workerDone
      modifies this, stream, modes, tty, client
      ensures Valid() && old(client.answers) <= client.answers
      ensures tty.shown + Flatten(batch)[taken..] + Flatten(queue) == Flatten(NonEmpty(admitted))
      ensures client.Uninterrupted() ==> Thinned(NonEmpty(admitted), client.Admissions(mode))
      ensures client.Uninterrupted() && (!mode.Discard? || client.Modest(mode)) ==>
        && tty.shown + Flatten(batch)[taken..] + Flatten(queue) == Flatten(client.Admissions(mode))
        && tty.shown <= Flatten(client.Admissions(mode))
      ensures !workerDone || error.None? ==> batch == [] && taken == 0
      ensures old(tty.outcomes) <= tty.outcomes
      ensures EndedSince(tty.outcomes, |old(tty.outcomes)|) ==> workerDone
      ensures workerDone && !EndedSince(tty.outcomes, |old(tty.outcomes)|) ==> stopping && batch == []
      ensures turns > 0 && old(client.Quiet()) && !EndedSince(tty.outcomes, |old(tty.outcomes)|) ==> batch == [] && queue == []
      ensures turns > 1 && old(client.Quiet()) && old(stopping) ==> workerDone
    {
      hide Queued, Observed, Counted, Confirmed, OnTty, Flatten, Anchored, EndedSince;
      var left, done := turns, false;
      NoOutcomes(tty.outcomes);
      while left > 0 && !done
        invariant Valid() && (done <==> workerDone) && old(client.answers) <= client.answers
        invariant left <= turns && (done ==> left < turns)
        invariant !workerDone ==> batch == [] && total == 0 && taken == 0
        invariant !workerDone || error.None? ==> batch == [] && taken == 0
        invariant old(tty.outcomes) <= tty.outcomes
        invariant EndedSince(tty.outcomes, |old(tty.outcomes)|) ==> workerDone
        invariant workerDone && !EndedSince(tty.outcomes, |old(tty.outcomes)|) ==> stopping && batch == []
        invariant (old(client.Quiet()) ==> client.Quiet()) && (old(stopping) ==> stopping)
        invariant left + 1 < turns && old(client.Quiet()) && old(stopping) ==> workerDone
        invariant left < turns && old(client.Quiet()) && !EndedSince(tty.outcomes, |old(tty.outcomes)|) ==> queue == []
      {
        ghost var reported := tty.outcomes;
        SessionLoop();
        if queue != [] || stopping {
          done := Turn();
        }
        EndedLater(old(tty.outcomes), reported, tty.outcomes);
        left := left - 1;
      }
      Conserved();
    }

    /** Conservation: the console holds a prefix of what was admitted, and the rest is queued or in hand. */
    lemma Conserved()
      requires Valid()
      ensures taken <= |Flatten(batch)| && tty.shown + Flatten(batch)[taken..] + Flatten(queue) == Flatten(NonEmpty(admitted))
      ensures tty.shown <= Flatten(NonEmpty(admitted))
      ensures client.Uninterrupted() ==> Thinned(NonEmpty(admitted), client.Admissions(mode))
      ensures client.Uninterrupted() && (!mode.Discard? || client.Modest(mode)) ==> NonEmpty(admitted) == client.Admissions(mode)
    {
      hide Observed, Confirmed, Counted, NonEmpty, Thinned, Client.Admissions, Flatten, Modes.CountRequests;
      InLine(written, batch, queue, taken);
      NonEmptyCountsTheSame(admitted);
    }

    /** With no batch in hand, the trackers stand where the written packets put them. */
    lemma Drained()
      requires Valid() && batch == []
      ensures modes.View() == Modes.Track(Modes.FRESH, Flatten(written))
      ensures cursorReports + collected == Modes.CountRequests(written)
    {
      assert written + batch[..next] == written;
    }
  }

  // ---------------------------------------------------------------------
  // Small facts about packets in line.

  ghost predicate TooFull(queue: seq<seq<byte>>, want: nat)
  {
    |Flatten(queue)| + want > OUTPUT_BYTES || |queue| >= OUTPUT_PACKETS
  }

  lemma InLine(written: seq<seq<byte>>, batch: seq<seq<byte>>, queue: seq<seq<byte>>, taken: nat)
    requires taken <= |Flatten(batch)|
    ensures Flatten(written) + Flatten(batch)[..taken] + Flatten(batch)[taken..] + Flatten(queue) == Flatten(written + batch + queue)
  {
    hide Flatten;
    FlattenAppend(written + batch, queue);
    FlattenAppend(written, batch);
    var a, b, c := Flatten(written), Flatten(batch), Flatten(queue);
    assert a + b[..taken] + b[taken..] == a + b;
  }

  lemma EvictionCuts(before: seq<seq<byte>>, queue: seq<seq<byte>>, evicted: nat, packet: seq<byte>)
    requires evicted <= |queue|
    ensures CutAndMore(before + queue, before + queue[evicted..] + [packet], [packet])
    ensures evicted == 0 ==> queue[evicted..] == queue
  {
    assert Cut(before + queue, |before|, evicted) == before + queue[evicted..];
  }

  /** The queue after an interrupt: `kept` handed back to the packets, front first. */
  function Regrouped(queue: seq<seq<byte>>, kept: seq<byte>): seq<seq<byte>>
  {
    WholeEntries(queue);
    BytesOf(Redistributed(EntriesFor(queue, 0), kept))
  }

  lemma WholeEntries(queue: seq<seq<byte>>)
    ensures forall i | 0 <= i < |queue| :: EntriesFor(queue, 0)[i] == Entry(queue[i], 0)
  {
    forall i | 0 <= i < |queue| ensures EntriesFor(queue, 0)[i] == Entry(queue[i], 0) {
      EntriesForWhole(queue, i);
    }
  }

  lemma RegroupedBytes(queue: seq<seq<byte>>, kept: seq<byte>)
    requires |kept| <= |Flatten(queue)|
    ensures Flatten(Regrouped(queue, kept)) == kept && |Regrouped(queue, kept)| <= |queue|
  {
    var entries := EntriesFor(queue, 0);
    WholeEntries(queue);
    EntriesUnsent(queue, 0);
    assert Started(Ledger([], queue, 0)) == [];
    RedistributedUnsent(entries, kept);
    WholeStays(entries, kept);
    WholeBytes(Redistributed(entries, kept));
  }

  lemma {:induction false} WholeStays(queue: seq<Entry>, kept: seq<byte>)
    requires forall i | 0 <= i < |queue| :: queue[i].sent == 0
    ensures forall i | 0 <= i < |Redistributed(queue, kept)| :: Redistributed(queue, kept)[i].sent == 0
  {
    if queue != [] {
      WholeStays(queue[1..], kept[Share(queue[0], kept)..]);
    }
  }

  lemma {:induction false} WholeBytes(queue: seq<Entry>)
    requires forall i | 0 <= i < |queue| :: queue[i].sent == 0
    ensures Flatten(BytesOf(queue)) == UnsentAll(queue) && |BytesOf(queue)| == |queue|
  {
    if queue != [] {
      WholeBytes(queue[1..]);
      BytesOfCons(queue[0], queue[1..]);
      assert BytesOf(queue)[0] == Unsent(queue[0]);
    }
  }

  lemma {:induction false} NonEmptyAppend(a: seq<seq<byte>>, b: seq<seq<byte>>)
    ensures NonEmpty(a + b) == NonEmpty(a) + NonEmpty(b)
    decreases |b|
  {
    if b == [] {
      assert a + b == a;
    } else {
      NonEmptyAppend(a, b[..|b| - 1]);
      assert (a + b)[..|a + b| - 1] == a + b[..|b| - 1];
    }
  }

  /** Packets cut out of the line are cut out of those that have bytes. */
  lemma NonEmptyCut(before: seq<seq<byte>>, after: seq<seq<byte>>, more: seq<seq<byte>>)
    requires CutAndMore(before, after, more)
    ensures CutAndMore(NonEmpty(before), NonEmpty(after), NonEmpty(more))
  {
    hide NonEmpty;
    var at: nat, n: nat :| at + n <= |before| && after == Cut(before, at, n) + more;
    var a, b, c := before[..at], before[at..at + n], before[at + n..];
    assert before == a + b + c;
    NonEmptyAppend(a + b, c);
    NonEmptyAppend(a, b);
    NonEmptyAppend(a + c, more);
    NonEmptyAppend(a, c);
    MiddleCut(NonEmpty(a), NonEmpty(b), NonEmpty(c), NonEmpty(more));
  }

  lemma MiddleCut(a: seq<seq<byte>>, b: seq<seq<byte>>, c: seq<seq<byte>>, more: seq<seq<byte>>)
    ensures CutAndMore(a + b + c, a + c + more, more)
  {
    assert Cut(a + b + c, |a|, |b|) == a + c;
  }

  /** What an admitted packet adds, seen from the client. */
  lemma AnchorMore(mode: FlowControl, before: seq<seq<byte>>, after: seq<seq<byte>>, all: seq<seq<byte>>, packet: seq<byte>)
    ensures CutAndMore(before, after, [Offered(mode, packet)]) && Thinned(NonEmpty(before), all) ==>
      Thinned(NonEmpty(after), all + Taken(mode, Offer(packet), Admitted))
    ensures after == before + [Offered(mode, packet)] && NonEmpty(before) == all ==>
      NonEmpty(after) == all + Taken(mode, Offer(packet), Admitted)
  {
    hide Thinned, CutAndMore;
    var offered := Offered(mode, packet);
    var more := [offered];
    assert NonEmpty(more) == Taken(mode, Offer(packet), Admitted);
    NonEmptyAppend(before, more);
    if CutAndMore(before, after, more) && Thinned(NonEmpty(before), all) {
      NonEmptyCut(before, after, more);
      ThinnedStep(NonEmpty(before), NonEmpty(after), NonEmpty(more), all);
    }
  }

  lemma FlattenHead(queue: seq<seq<byte>>)
    ensures queue != [] ==> |Flatten(queue)| == |queue[0]| + |Flatten(queue[1..])|
    ensures queue == [] ==> |Flatten(queue)| == 0
  {
  }

  lemma FlattenPush(queue: seq<seq<byte>>, packet: seq<byte>)
    ensures |Flatten(queue + [packet])| == |Flatten(queue)| + |packet|
  {
    FlattenAppend(queue, [packet]);
    FlattenOne(packet);
  }

  lemma AdmitLast(before: seq<seq<byte>>, queue: seq<seq<byte>>, packet: seq<byte>)
    ensures before + (queue + [packet]) == before + queue + [packet]
  {
  }

  lemma BatchTaken(written: seq<seq<byte>>, queue: seq<seq<byte>>)
    ensures written + [] + queue == written + queue + [] && written + queue[..0] == written
    ensures |Flatten([])| == 0
  {
  }

  lemma BatchShown(written: seq<seq<byte>>, batch: seq<seq<byte>>, taken: nat)
    requires taken == |Flatten(batch)|
    ensures Flatten(written) + Flatten(batch)[..taken] == Flatten(written + batch) + Flatten([])[..0]
    ensures |Flatten([])| == 0 && |Flatten([][..0])| == 0
  {
    FlattenAppend(written, batch);
    var none: seq<seq<byte>> := [];
    assert none[..0] == none;
  }

  /** A batch all of whose bytes are out has been tracked and counted whole. */
  lemma BatchOver(written: seq<seq<byte>>, batch: seq<seq<byte>>, next: nat, total: nat)
    requires next <= |batch| && total == |Flatten(batch)| && |Flatten(batch[..next])| <= total
    requires total > 0 ==> ExactlyComplete(batch, total, next)
    requires total == 0 ==> next == 0
    ensures Modes.Track(Modes.FRESH, Flatten(written + batch[..next])) == Modes.Track(Modes.FRESH, Flatten(written + batch))
    ensures Modes.CountRequests(written + batch[..next]) == Modes.CountRequests(written + batch)
    ensures (written + batch) + [][..0] == written + batch
  {
    hide Flatten, Modes.CountRequests, Modes.Track, ExactlyComplete;
    WholeBatch(batch, next, total);
    BatchConfirmed(written, batch[..next]);
    BatchConfirmed(written, batch);
  }

  /** The console took `more` of what was left to offer. */
  lemma TakenMore(before: seq<byte>, all: seq<byte>, taken: nat, more: nat)
    requires taken + more <= |all|
    ensures before + all[..taken] + all[taken..][..more] == before + all[..taken + more]
    ensures all[taken..][more..] == all[taken + more..]
  {
  }

  lemma BatchConfirms(written: seq<seq<byte>>, batch: seq<seq<byte>>, next: nat)
    requires next < |batch|
    ensures Modes.Track(Modes.Track(Modes.FRESH, Flatten(written + batch[..next])), batch[next])
         == Modes.Track(Modes.FRESH, Flatten(written + batch[..next + 1]))
    ensures Modes.CountRequests(written + batch[..next + 1])
         == Modes.CountRequests(written + batch[..next]) + if Modes.ContainsCursorRequest(batch[next]) then 1 else 0
  {
    hide Modes.Track, Modes.CountRequests;
    var done, packet := written + batch[..next], batch[next];
    assert written + batch[..next + 1] == done + [packet];
    FlattenAppend(done, [packet]);
    FlattenOne(packet);
    Modes.TrackAppend(Modes.FRESH, Flatten(done), packet);
    Modes.CountRequestsSnoc(done, packet);
  }

  /**
    The two consoles agree: once both have delivered the same packets, they
    have shown the same bytes, seen the same terminal modes and counted the
    same cursor requests. (Only the worker carries empty packets.)
   */
  lemma ConsolesAgree(direct: DirectConsole, worker: ConsoleWorker)
    requires direct.Valid() && !direct.broken && direct.queue == []
    requires worker.Valid() && worker.batch == []
    requires Packets(direct.ledger) == NonEmpty(worker.written)
    ensures direct.tty.shown == worker.tty.shown == Flatten(worker.written)
    ensures direct.modes.View() == worker.modes.View()
    ensures direct.cursorReports + direct.collected == worker.cursorReports + worker.collected
  {
    hide Modes.Track, Modes.CountRequests, Streams.Run, Streams.ValidStream;
    direct.Conserved();
    worker.Drained();
    NonEmptyCountsTheSame(worker.written);
    DrainedLedger(direct.ledger);
  }

  lemma DrainedLedger(l: Ledger)
    requires Mirrors(l, [])
    ensures l.done == Packets(l) && UnsentAll([]) == []
  {
    assert l.done + [] == l.done;
  }
}
