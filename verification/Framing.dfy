/**
  Length-prefixed local frames (`local_ipc.rs`): however the socket splits the
  stream, the reader yields exactly its frames and takes no byte past the
  current one.
 */
module Framing {
  import opened Bytes

  const MAX_FRAME := 256 * 1024
  const MAX_REPLY := 4 * 1024 * 1024
  const CHUNK := 8192
  /** Milliseconds a frame may take. */
  const TIMEOUT := 5000
  const U32 := 0x1_0000_0000

  /** A 32-bit word, most significant byte first. */
  function Be32(n: nat): (bytes: seq<byte>)
    requires n < U32
    ensures |bytes| == 4 && FromBe32(bytes) == n
  {
    var high, low := n / 0x1_0000, n % 0x1_0000;
    [high / 0x100, high % 0x100, low / 0x100, low % 0x100]
  }

  function FromBe32(bytes: seq<byte>): (n: nat)
    requires |bytes| == 4
    ensures n < U32
  {
    bytes[0] as int * 0x100_0000 + bytes[1] as int * 0x1_0000 + bytes[2] as int * 0x100 + bytes[3] as int
  }

  function Header(control: bool): nat
  {
    if control then 5 else 4
  }

  /** The length field, once the header is complete. */
  function BodyLength(control: bool, bytes: seq<byte>): nat
    requires |bytes| >= Header(control)
  {
    FromBe32(bytes[Header(control) - 4..Header(control)])
  }

  predicate LegalLength(control: bool, length: nat)
  {
    length <= MAX_FRAME && (control || length >= 4)
  }

  /** One whole frame, nothing more. */
  predicate Legal(control: bool, frame: seq<byte>)
  {
    && |frame| >= Header(control)
    && LegalLength(control, BodyLength(control, frame))
    && |frame| == Header(control) + BodyLength(control, frame)
  }

  /** A frame that has not arrived completely: its header is short, or legal with bytes missing. */
  predicate InProgress(control: bool, bytes: seq<byte>)
  {
    || |bytes| < Header(control)
    || (LegalLength(control, BodyLength(control, bytes)) && |bytes| < Header(control) + BodyLength(control, bytes))
  }

  /** A complete header whose length is out of bounds. */
  predicate StuckAt(control: bool, bytes: seq<byte>)
  {
    |bytes| == Header(control) && !LegalLength(control, BodyLength(control, bytes))
  }

  function ControlFrame(opcode: byte, payload: seq<byte>): seq<byte>
  {
    [opcode] + Be32(|payload| % U32) + payload
  }

  function MuxFrame(payload: seq<byte>): seq<byte>
  {
    Be32(|payload| % U32) + payload
  }

  function Words(values: seq<nat>): (bytes: seq<byte>)
    requires forall i | 0 <= i < |values| :: values[i] < U32
    ensures |bytes| == 4 * |values|
  {
    if values == [] then [] else Be32(values[0]) + Words(values[1..])
  }

  /** What the builders make is what the reader accepts, exactly when the payload has a legal length. */
  lemma BuiltFramesAreLegal(opcode: byte, payload: seq<byte>)
    requires |payload| < U32
    ensures Legal(true, ControlFrame(opcode, payload)) <==> |payload| <= MAX_FRAME
    ensures Legal(false, MuxFrame(payload)) <==> 4 <= |payload| <= MAX_FRAME
  {
    var c, m := ControlFrame(opcode, payload), MuxFrame(payload);
    assert c[1..5] == Be32(|payload|);
    assert m[0..4] == Be32(|payload|);
  }

  // ---------------------------------------------------------------------
  // The socket and the reader.

  datatype IoError = InvalidData | UnexpectedEof | TimedOut | Other

  datatype SocketRead = Data(bytes: seq<byte>) | Eof | Interrupted | WouldBlock | Error

  /** A non-blocking socket: what is still to come, and what the reader was given so far. */
  class Socket {
    var unread: seq<byte>
    ghost var answers: seq<SocketRead>

    constructor (unread: seq<byte>)
      ensures this.unread == unread && answers == []
    {
      this.unread, answers := unread, [];
    }

    /** The kernel gives between one and `count` bytes, in order, or nothing. */
    method Read(count: nat) returns (r: SocketRead)
      requires count > 0
      modifies this
      ensures r.Data? ==> 0 < |r.bytes| <= count && old(unread) == r.bytes + unread
      ensures !r.Data? ==> unread == old(unread)
      ensures r.Eof? ==> unread == []
      ensures answers == old(answers) + [r]
    {
      r :| !r.Data? && (r.Eof? ==> unread == []);
      if unread != [] {
        if * {
          var n: nat :| 0 < n <= count && n <= |unread|;
          r := Data(unread[..n]);
          unread := unread[n..];
        }
      }
      answers := answers + [r];
    }
  }

  datatype Polled = Frame(frame: seq<byte>) | Pending | Failed(error: IoError)

  /** What a read that brought nothing comes to: `held` bytes of a frame are there, `late` its time is up. */
  function Verdict(read: SocketRead, held: bool, late: bool): Polled
  {
    match read
    case Eof => Failed(UnexpectedEof)
    case Error => Failed(Other)
    case WouldBlock => if held && late then Failed(TimedOut) else Pending
    case _ => Pending
  }

  /** Reads that keep a poll going. */
  ghost predicate Reading(answers: seq<SocketRead>, from: nat, end: int)
  {
    forall k | from <= k < end :: k < |answers| && (answers[k].Data? || answers[k].Interrupted?)
  }

  /** No read failed or came to the end. */
  ghost predicate Unharmed(answers: seq<SocketRead>)
  {
    forall k | 0 <= k < |answers| :: !answers[k].Eof? && !answers[k].Error?
  }

  lemma StillUnharmed(before: seq<SocketRead>, answers: seq<SocketRead>, end: int)
    requires before <= answers && Unharmed(before) && Reading(answers, |before|, end)
    requires end == |answers| || (end == |answers| - 1 >= 0 && !answers[end].Eof? && !answers[end].Error?)
    ensures Unharmed(answers)
  {
    assert forall k | 0 <= k < |before| :: answers[k] == before[k];
  }

  lemma ReadingMore(before: seq<SocketRead>, answers: seq<SocketRead>, read: SocketRead)
    requires before <= answers && Reading(answers, |before|, |answers|)
    ensures before <= answers + [read] && Reading(answers + [read], |before|, |answers|)
    ensures read.Data? || read.Interrupted? ==> Reading(answers + [read], |before|, |answers| + 1)
  {
    assert forall k | 0 <= k < |answers| :: (answers + [read])[k] == answers[k];
  }

  class FrameReader {
    const control: bool
    var bytes: seq<byte>
    /** When the last frame was complete. */
    var started: nat

    ghost predicate Valid()
      reads this
    {
      InProgress(control, bytes) || Stuck()
    }

    /** A header whose length is out of bounds: every further poll fails. */
    ghost predicate Stuck()
      reads this
    {
      StuckAt(control, bytes)
    }

    constructor (control: bool, now: nat)
      ensures Valid() && this.control == control && bytes == [] && started == now
    {
      this.control, bytes, started := control, [], now;
    }

    /**
      `poll` at time `now`: the frame at the front of what is held and still to
      come is returned whole, or left in progress; nothing past it is taken. It
      gives up exactly on the read it says, and the time a frame may take runs
      from the end of the frame before it. `patience` bounds the interrupted
      reads of this run.
     */
    method Poll(socket: Socket, now: nat, patience: nat) returns (r: Polled)
      requires Valid()
      modifies this, socket
      ensures Valid()
      ensures r.Frame? ==> Legal(control, r.frame) && bytes == [] && old(bytes + socket.unread) == r.frame + socket.unread
      ensures !r.Frame? ==> bytes + socket.unread == old(bytes + socket.unread)
      ensures r == Failed(InvalidData) <==> Stuck()
      ensures r.Pending? ==> InProgress(control, bytes)
      ensures started == if r.Frame? then now else old(started)
      ensures old(socket.answers) <= socket.answers
      ensures if r.Frame? || r == Failed(InvalidData) then
          Reading(socket.answers, |old(socket.answers)|, |socket.answers|)
        else
          var last := |socket.answers| - 1;
          && last >= |old(socket.answers)| && !socket.answers[last].Data?
          && Reading(socket.answers, |old(socket.answers)|, last)
          && r == Verdict(socket.answers[last], bytes != [], now > started + TIMEOUT)
    {
      hide Target, InProgress, Legal, StuckAt, OneFrame, Reading;
      EmptyIsInProgress(control);
      var left := patience;
      OneFrameCases(control, bytes);
      NothingRead(socket.answers);
      while true
        invariant OneFrame(control, bytes) && started == old(started)
        invariant bytes + socket.unread == old(bytes + socket.unread)
        invariant old(socket.answers) <= socket.answers && Reading(socket.answers, |old(socket.answers)|, |socket.answers|)
        decreases |socket.unread|, left
      {
        OneFrameCases(control, bytes);
        var target := Target(control, bytes);
        if target.None? {
          return Failed(InvalidData);
        }
        if |bytes| == target.value {
          r := Frame(bytes);
          bytes, started := [], now;
          return;
        }
        ghost var answers := socket.answers;
        var read := Fill(socket, target.value);
        ReadingMore(old(socket.answers), answers, read);
        match read
        case Data(_) =>
        case Eof =>
          return Failed(UnexpectedEof);
        case Interrupted =>
          if left == 0 {
            return Pending;
          }
          left := left - 1;
        case WouldBlock =>
          if bytes != [] && now > started + TIMEOUT {
            return Failed(TimedOut);
          }
          return Pending;
        case Error =>
          return Failed(Other);
      }
    }

    /** One read of at most a chunk, never past the frame being read. */
    method Fill(socket: Socket, target: nat) returns (read: SocketRead)
      requires OneFrame(control, bytes) && Target(control, bytes) == Some(target) && |bytes| < target
      modifies this, socket
      ensures OneFrame(control, bytes) && bytes + socket.unread == old(bytes + socket.unread)
      ensures read.Data? ==> |socket.unread| < |old(socket.unread)|
      ensures !read.Data? ==> bytes == old(bytes) && socket.unread == old(socket.unread)
      ensures socket.answers == old(socket.answers) + [read]
      ensures started == old(started)
    {
      hide Target, OneFrame;
      var count := if CHUNK < target - |bytes| then CHUNK else target - |bytes|;
      read := socket.Read(count);
      if read.Data? {
        assert bytes + (read.bytes + socket.unread) == (bytes + read.bytes) + socket.unread;
        StillOneFrame(control, bytes, read.bytes, target);
        bytes := bytes + read.bytes;
      }
    }
  }

  /** How long the bytes held will get: the header, then the frame; none for an illegal length. */
  function Target(control: bool, bytes: seq<byte>): Option<nat>
  {
    if |bytes| < Header(control) then Some(Header(control))
    else if LegalLength(control, BodyLength(control, bytes)) then Some(Header(control) + BodyLength(control, bytes))
    else None
  }

  ghost predicate OneFrame(control: bool, bytes: seq<byte>)
  {
    var target := Target(control, bytes);
    if target.None? then |bytes| == Header(control) else |bytes| <= target.value
  }

  lemma OneFrameCases(control: bool, bytes: seq<byte>)
    ensures OneFrame(control, bytes) && Target(control, bytes).None? <==> StuckAt(control, bytes)
    ensures OneFrame(control, bytes) && Target(control, bytes) == Some(|bytes|) <==> Legal(control, bytes)
    ensures OneFrame(control, bytes) && Target(control, bytes).Some? && |bytes| < Target(control, bytes).value
        <==> InProgress(control, bytes)
    ensures OneFrame(control, bytes) && Target(control, bytes).Some? ==> |bytes| <= Target(control, bytes).value
  {
    hide FromBe32;
  }

  lemma NothingRead(answers: seq<SocketRead>)
    ensures Reading(answers, |answers|, |answers|) && Unharmed([])
  {
  }

  lemma EmptyIsInProgress(control: bool)
    ensures InProgress(control, []) && !StuckAt(control, [])
  {
  }

  lemma StillOneFrame(control: bool, bytes: seq<byte>, chunk: seq<byte>, target: nat)
    requires Target(control, bytes) == Some(target) && |bytes| + |chunk| <= target
    ensures OneFrame(control, bytes + chunk)
  {
    hide FromBe32;
    var h := Header(control);
    if |bytes| >= h {
      assert (bytes + chunk)[h - 4..h] == bytes[h - 4..h];
    }
  }

  // ---------------------------------------------------------------------
  // Whole streams.

  ghost predicate AllLegal(control: bool, frames: seq<seq<byte>>)
  {
    forall i | 0 <= i < |frames| :: Legal(control, frames[i])
  }

  /** Only the first frame of a stream is a legal frame at its front. */
  lemma FirstFrame(control: bool, frames: seq<seq<byte>>, frame: seq<byte>, rest: seq<byte>)
    requires AllLegal(control, frames) && Legal(control, frame) && frame + rest == Flatten(frames)
    ensures frames != [] && frame == frames[0] && rest == Flatten(frames[1..])
  {
    hide FromBe32;
    assert frames != [];
    assert Legal(control, frames[0]) && Flatten(frames) == frames[0] + Flatten(frames[1..]);
    SameLength(control, frame, rest, frames[0], Flatten(frames[1..]));
    assert frame == (frame + rest)[..|frame|] && frames[0] == (frame + rest)[..|frame|];
    assert rest == (frame + rest)[|frame|..];
  }

  lemma SameLength(control: bool, a: seq<byte>, x: seq<byte>, b: seq<byte>, y: seq<byte>)
    requires |a| >= Header(control) && |b| >= Header(control) && a + x == b + y
    ensures BodyLength(control, a) == BodyLength(control, b)
  {
    hide FromBe32;
    var h := Header(control);
    assert a[h - 4..h] == (a + x)[h - 4..h] == (b + y)[h - 4..h] == b[h - 4..h];
  }

  /** A stream of legal frames never strands the reader. */
  lemma NeverStuck(control: bool, frames: seq<seq<byte>>, bytes: seq<byte>, rest: seq<byte>)
    requires AllLegal(control, frames) && bytes + rest == Flatten(frames)
    ensures !StuckAt(control, bytes)
    ensures InProgress(control, bytes) ==> |bytes| < Header(control) + MAX_FRAME
  {
    hide FromBe32;
    if |bytes| >= Header(control) {
      assert frames != [];
      assert Legal(control, frames[0]) && Flatten(frames) == frames[0] + Flatten(frames[1..]);
      SameLength(control, bytes, rest, frames[0], Flatten(frames[1..]));
    }
  }

  /**
    Poll a stream of legal frames once at each of `times`: what comes out is a
    prefix of them, in order, and what is held and still to come is exactly
    the rest. As long as every read brings bytes, each poll brings a frame. A poll
    only fails as its last read says: at the end of the stream, on an error of the
    socket, or when a frame begun is late.
   */
  method ReadFrames(control: bool, frames: seq<seq<byte>>, times: seq<nat>)
    returns (out: seq<seq<byte>>, held: seq<byte>, unread: seq<byte>, failure: Option<IoError>, ghost answers: seq<SocketRead>)
    requires AllLegal(control, frames)
    ensures |out| <= |frames| && out == frames[..|out|]
    ensures held + unread == Flatten(frames[|out|..])
    ensures failure != Some(InvalidData)
    ensures |held| < Header(control) + MAX_FRAME
    ensures held == [] && unread == [] ==> out == frames
    ensures (forall k | 0 <= k < |answers| :: answers[k].Data?) ==> failure.None? && |out| == |times|
    ensures failure.None? ==> Unharmed(answers)
    ensures failure.Some? ==>
      && answers != []
      && (failure.value == UnexpectedEof <==> answers[|answers| - 1].Eof?)
      && (failure.value == Other <==> answers[|answers| - 1].Error?)
      && (failure.value == TimedOut <==> answers[|answers| - 1].WouldBlock?)
      && (failure.value == TimedOut ==> held != [])
  {
    hide Flatten, Legal, FromBe32, Reading, StuckAt, InProgress, Unharmed;
    EmptyIsInProgress(control);
    var reader := new FrameReader(control, 0);
    var socket := new Socket(Flatten(frames));
    out, failure := [], None;
    var i := 0;
    ghost var late := false;
    assert frames[0..] == frames && [] + Flatten(frames) == Flatten(frames);
    NothingRead(socket.answers);
    while i < |times| && failure.None?
      invariant i <= |times| && reader.Valid() && reader.control == control && fresh(reader) && fresh(socket)
      invariant |out| <= |frames| && out == frames[..|out|] && failure != Some(InvalidData)
      invariant reader.bytes + socket.unread == Flatten(frames[|out|..])
      invariant (forall k | 0 <= k < |socket.answers| :: socket.answers[k].Data?) ==> failure.None? && |out| == i
      invariant failure.None? ==> Unharmed(socket.answers)
      invariant failure.Some? ==>
        socket.answers != [] && !socket.answers[|socket.answers| - 1].Data?
        && Failed(failure.value) == Verdict(socket.answers[|socket.answers| - 1], reader.bytes != [], late)
    {
      ghost var before := socket.answers;
      var patience: nat :| true;
      var r := reader.Poll(socket, times[i], patience);
      assert forall k | 0 <= k < |before| :: socket.answers[k] == before[k];
      i := i + 1;
      match r
      case Frame(frame) =>
        StillUnharmed(before, socket.answers, |socket.answers|);
        FirstFrame(control, frames[|out|..], frame, socket.unread);
        assert frames[|out|..][1..] == frames[|out| + 1..];
        out := out + [frame];
        assert reader.bytes + socket.unread == socket.unread;
      case Pending =>
        StillUnharmed(before, socket.answers, |socket.answers| - 1);
      case Failed(error) =>
        NeverStuck(control, frames[|out|..], reader.bytes, socket.unread);
        late := times[i - 1] > reader.started + TIMEOUT;
        failure := Some(error);
    }
    held, unread, answers := reader.bytes, socket.unread, socket.answers;
    NeverStuck(control, frames[|out|..], held, unread);
    if held == [] && unread == [] {
      NothingLeft(control, frames[|out|..]);
    }
  }

  lemma NothingLeft(control: bool, frames: seq<seq<byte>>)
    requires AllLegal(control, frames)
    ensures frames != [] ==> Flatten(frames) != []
  {
    if frames != [] {
      assert Legal(control, frames[0]);
    }
  }
}
