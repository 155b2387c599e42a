/**
  The console helper process (`client_output.rs`): the writer sends a frame
  down a pipe, the helper puts it on the console and acknowledges what it
  flushed. Both run at their own pace and the helper may die anywhere.
 */
module ConsoleHelper {
  import opened Bytes
  import Framing

  const CHUNK := 4096

  datatype Failure = InvalidInput | InvalidData | UnexpectedEof

  /** The writer: between frames, in the middle of one, or failed. */
  datatype Writer = Idle | Busy(frame: seq<byte>, sent: nat, acked: nat) | Failed(failure: Failure)

  /** The helper: the operation it is about to do. */
  datatype Helper =
    | AtLength
    | AtBody(length: nat)
    | AtWrite(frame: seq<byte>, shown: nat)
    | AtFlush(frame: seq<byte>, shown: nat, count: nat)
    | AtAck(frame: seq<byte>, shown: nat, count: nat)
    | AtFinal(frame: seq<byte>)
    | Gone

  /** A 32-bit word, least significant byte first. */
  function Le32(n: nat): (bytes: seq<byte>)
    requires n < Framing.U32
    ensures |bytes| == 4 && FromLe32(bytes) == n
  {
    var big := Framing.Be32(n);
    assert [big[0], big[1], big[2], big[3]] == big;
    [big[3], big[2], big[1], big[0]]
  }

  function FromLe32(bytes: seq<byte>): nat
    requires |bytes| == 4
  {
    Framing.FromBe32([bytes[3], bytes[2], bytes[1], bytes[0]])
  }

  function Encoded(frame: seq<byte>): seq<byte>
    requires |frame| < Framing.U32
  {
    Le32(|frame|) + frame
  }

  function Sum(words: seq<nat>): nat
  {
    if words == [] then 0 else words[0] + Sum(words[1..])
  }

  lemma {:induction false} SumSnoc(words: seq<nat>, word: nat)
    ensures Sum(words + [word]) == Sum(words) + word
  {
    if words == [] {
      assert words + [word] == [word] && Sum([word]) == word + Sum([]);
    } else {
      assert (words + [word])[1..] == words[1..] + [word];
      SumSnoc(words[1..], word);
    }
  }

  /** What the two processes and the pipes between them hold. */
  datatype View = View(
    writer: Writer, helper: Helper, pipe: seq<byte>, acks: seq<nat>, accepted: seq<byte>, flushed: nat)

  /** A scheduling decision; a step that is not enabled is a step of nobody. */
  datatype Step =
    | DoBegin(frame: seq<byte>) | DoPush(count: nat) | DoReadAck | DoReadEof
    | DoDie | DoReadLength | DoReadBody | DoAccept(count: nat) | DoSpill(upTo: nat) | DoFlush | DoSendAck | DoSendFinal

  predicate Sending(w: Writer)
  {
    w.Busy? && |w.frame| < Framing.U32 && w.acked <= |w.frame|
  }

  predicate Enabled(v: View, step: Step)
  {
    match step
    case DoBegin(frame) => v.writer == Idle && frame != []
    case DoPush(count) => Sending(v.writer) && v.writer.sent + count <= |Encoded(v.writer.frame)|
    case DoReadAck => Sending(v.writer) && v.writer.sent == |Encoded(v.writer.frame)| && v.acks != []
    case DoReadEof => v.writer.Busy? && v.acks == [] && v.helper == Gone
    case DoDie => true
    case DoReadLength => v.helper == AtLength && |v.pipe| >= 4
    case DoReadBody => v.helper.AtBody? && |v.pipe| >= v.helper.length
    case DoAccept(count) =>
      && v.helper.AtWrite? && v.helper.shown < |v.helper.frame|
      && 0 < count <= CHUNK && count <= |v.helper.frame| - v.helper.shown
    case DoSpill(upTo) => v.flushed <= upTo <= |v.accepted|
    case DoFlush => v.helper.AtFlush?
    case DoSendAck => v.helper.AtAck?
    case DoSendFinal => v.helper.AtFinal?
  }

  function Stepped(v: View, step: Step): View
    requires Enabled(v, step)
  {
    match step
    case DoBegin(frame) => v.(writer := if |frame| >= Framing.U32 then Failed(InvalidInput) else Busy(frame, 0, 0))
    case DoPush(count) =>
      v.(pipe := v.pipe + Encoded(v.writer.frame)[v.writer.sent..v.writer.sent + count],
         writer := v.writer.(sent := v.writer.sent + count))
    case DoReadAck => v.(acks := v.acks[1..], writer := AfterAck(v.writer, v.acks[0]))
    case DoReadEof => v.(writer := Failed(UnexpectedEof))
    case DoDie => v.(helper := Gone)
    case DoReadLength =>
      var length := FromLe32(v.pipe[..4]);
      v.(pipe := v.pipe[4..], helper := if length == 0 then Gone else AtBody(length))
    case DoReadBody => v.(pipe := v.pipe[v.helper.length..], helper := AtWrite(v.pipe[..v.helper.length], 0))
    case DoAccept(count) =>
      var frame, shown := v.helper.frame, v.helper.shown;
      v.(accepted := v.accepted + frame[shown..shown + count], helper := AtFlush(frame, shown + count, count))
    case DoSpill(upTo) => v.(flushed := upTo)
    case DoFlush => v.(flushed := |v.accepted|, helper := AtAck(v.helper.frame, v.helper.shown, v.helper.count))
    case DoSendAck =>
      v.(acks := v.acks + [v.helper.count],
         helper := if v.helper.shown < |v.helper.frame| then AtWrite(v.helper.frame, v.helper.shown) else AtFinal(v.helper.frame))
    case DoSendFinal => v.(acks := v.acks + [0], helper := AtLength)
  }

  /** What a schedule comes to. */
  function Scheduled(steps: seq<Step>): View
  {
    if steps == [] then View(Idle, AtLength, [], [], [], 0) else
    var before, step := Scheduled(steps[..|steps| - 1]), steps[|steps| - 1];
    if Enabled(before, step) then Stepped(before, step) else before
  }

  class Protocol {
    var writer: Writer
    var helper: Helper
    /** Bytes on their way to the helper, acknowledgements on their way back. */
    var pipe: seq<byte>
    var acks: seq<nat>
    /** What the console's buffer has taken, and how much of it is on the console. */
    var accepted: seq<byte>
    var flushed: nat
    /** Frames reported as written; of the current one, bytes acknowledged so far and whether it is closed. */
    ghost var done: seq<seq<byte>>
    ghost var confirmed: nat
    ghost var closed: bool

    ghost function TheView(): View
      reads this`writer, this`helper, this`pipe, this`acks, this`accepted, this`flushed
    {
      View(writer, helper, pipe, acks, accepted, flushed)
    }

    ghost function Base(): nat
      reads this`done
    {
      |Flatten(done)|
    }

    /** Bytes of the current frame the console's buffer has taken. */
    ghost function Shown(): int
      reads this`accepted, this`done
    {
      |accepted| - Base()
    }

    /** The acknowledgements in flight: positive counts, then the closing zero if it was sent. */
    ghost predicate AcksInFlight()
      reads this`writer, this`acks, this`confirmed, this`closed
      requires writer.Busy?
    {
      && writer.acked + Sum(acks) == confirmed
      && (forall i | 0 <= i < |acks| :: acks[i] == 0 <==> closed && i == |acks| - 1)
      && (closed ==> acks != [])
    }

    /** What the helper is about to do, in terms of the frame the writer is in the middle of. */
    ghost predicate HelperInStep()
      reads this
      requires writer.Busy? && |writer.frame| < Framing.U32
    {
      var f, sent := writer.frame, writer.sent;
      var encoded := Encoded(f);
      && sent <= |encoded|
      && match helper
         case AtLength => if closed then pipe == [] && sent == |encoded| else pipe == encoded[..sent] && Shown() == 0
         case AtBody(n) => !closed && n == |f| && sent >= 4 && pipe == encoded[4..sent] && Shown() == 0
         case AtWrite(g, k) => !closed && g == f && k == Shown() == confirmed && k < |f| && pipe == [] && sent == |encoded|
         case AtFlush(g, k, c) =>
           !closed && g == f && k == Shown() == confirmed + c && c > 0 && pipe == [] && sent == |encoded|
         case AtAck(g, k, c) =>
           !closed && g == f && k == Shown() == confirmed + c && c > 0 && pipe == [] && sent == |encoded| && flushed == |accepted|
         case AtFinal(g) => !closed && g == f && confirmed == |f| && pipe == [] && sent == |encoded|
         case Gone => true
    }

    ghost predicate Valid()
      reads this
    {
      && Base() <= flushed <= |accepted| && Flatten(done) <= accepted
      && match writer
         case Idle => acks == [] && accepted == Flatten(done) && (helper == Gone || (helper == AtLength && pipe == []))
         case Busy(f, sent, acked) =>
           && 0 < |f| < Framing.U32
           && Shown() <= |f| && accepted == Flatten(done) + f[..Shown()]
           && confirmed <= Shown() && Base() + confirmed <= flushed
           && (confirmed > 0 || closed ==> sent == |Encoded(f)|)
           && (closed ==> confirmed == |f|)
           && AcksInFlight() && HelperInStep()
         case Failed(failure) => failure != InvalidData
    }

    constructor ()
      ensures Valid() && TheView() == View(Idle, AtLength, [], [], [], 0) && done == []
    {
      writer, helper, pipe, acks, accepted, flushed := Idle, AtLength, [], [], [], 0;
      done, confirmed, closed := [], 0, false;
    }

    // Writer steps.

    method Begin(frame: seq<byte>)
      requires Valid() && Enabled(TheView(), DoBegin(frame))
      modifies this`writer, this`confirmed, this`closed
      ensures Valid()
      ensures TheView() == old(Stepped(TheView(), DoBegin(frame)))
    {
      if |frame| >= Framing.U32 {
        writer := Failed(InvalidInput);
        return;
      }
      writer, confirmed, closed := Busy(frame, 0, 0), 0, false;
      assert Flatten(done) + frame[..0] == Flatten(done);
    }

    method Push(count: nat)
      requires Valid() && Enabled(TheView(), DoPush(count))
      modifies this`writer, this`pipe
      ensures Valid()
      ensures TheView() == old(Stepped(TheView(), DoPush(count)))
    {
      hide Le32;
      var encoded := Encoded(writer.frame);
      assert encoded[..writer.sent] + encoded[writer.sent..writer.sent + count] == encoded[..writer.sent + count];
      assert writer.sent >= 4 ==>
        encoded[4..writer.sent] + encoded[writer.sent..writer.sent + count] == encoded[4..writer.sent + count];
      pipe := pipe + encoded[writer.sent..writer.sent + count];
      writer := writer.(sent := writer.sent + count);
    }

    /** One acknowledgement is read: more of the frame is delivered, or the frame is. */
    method ReadAck()
      requires Valid() && Enabled(TheView(), DoReadAck)
      modifies this`writer, this`acks, this`done
      ensures Valid() && !writer.Failed?
      ensures TheView() == old(Stepped(TheView(), DoReadAck))
      ensures writer.Idle? ==> done == old(done) + [old(writer).frame] && flushed == |Flatten(done)|
      ensures writer.Busy? ==> writer.acked > old(writer).acked && done == old(done)
    {
      hide Le32;
      var count := acks[0];
      FrameClosed();
      acks := acks[1..];
      writer := AfterAck(writer, count);
      if writer.Idle? {
        done := done + [old(writer).frame];
      }
    }

    /** With the closing zero at the front, the whole frame is on the console. */
    lemma FrameClosed()
      requires Valid() && writer.Busy? && acks != []
      ensures Flatten(done + [writer.frame]) == Flatten(done) + writer.frame
      ensures acks[0] == 0 ==> |acks| == 1 && writer.acked == confirmed == |writer.frame|
      ensures acks[0] == 0 ==> accepted == Flatten(done) + writer.frame && flushed == |accepted|
      ensures acks[0] != 0 ==> acks[0] <= |writer.frame| - writer.acked
    {
      FlattenAppend(done, [writer.frame]);
      FlattenOne(writer.frame);
      if acks[0] == 0 {
        assert |acks| == 1 && acks[1..] == [] && Sum(acks) == 0;
        assert writer.frame[..|writer.frame|] == writer.frame;
      }
    }

    /** The acknowledgement pipe ends only with the helper. */
    method ReadEof()
      requires Valid() && Enabled(TheView(), DoReadEof)
      modifies this`writer
      ensures Valid() && writer == Failed(UnexpectedEof)
      ensures TheView() == old(Stepped(TheView(), DoReadEof))
    {
      writer := Failed(UnexpectedEof);
    }

    // Helper steps. A failed write, flush or read of its own is a death.

    method Die()
      requires Valid() && Enabled(TheView(), DoDie)
      modifies this`helper
      ensures Valid() && helper == Gone
      ensures TheView() == old(Stepped(TheView(), DoDie))
    {
      helper := Gone;
    }

    method ReadLength()
      requires Valid() && Enabled(TheView(), DoReadLength)
      modifies this`helper, this`pipe
      ensures Valid()
      ensures TheView() == old(Stepped(TheView(), DoReadLength))
    {
      hide Le32, FromLe32;
      var length := FromLe32(pipe[..4]);
      LengthFirst();
      pipe := pipe[4..];
      helper := if length == 0 then Gone else AtBody(length);
    }

    lemma LengthFirst()
      requires Valid() && helper == AtLength && |pipe| >= 4
      ensures writer.Busy? ==>
        && !closed && FromLe32(pipe[..4]) == |writer.frame|
        && writer.sent >= 4 && pipe[4..] == Encoded(writer.frame)[4..writer.sent]
    {
      hide Le32, FromLe32;
      if writer.Busy? {
        assert pipe[..4] == Encoded(writer.frame)[..4] == Le32(|writer.frame|);
      }
    }

    method ReadBody()
      requires Valid() && Enabled(TheView(), DoReadBody)
      modifies this`helper, this`pipe
      ensures Valid()
      ensures TheView() == old(Stepped(TheView(), DoReadBody))
    {
      hide Le32;
      if writer.Busy? {
        BodyWhole();
      }
      var frame := pipe[..helper.length];
      pipe := pipe[helper.length..];
      helper := AtWrite(frame, 0);
    }

    lemma BodyWhole()
      requires Valid() && writer.Busy? && helper.AtBody? && |pipe| >= helper.length
      ensures pipe == writer.frame && |pipe| == helper.length && writer.sent == |Encoded(writer.frame)|
    {
      hide Le32;
      assert Encoded(writer.frame)[4..] == writer.frame;
    }

    static lemma ShownMore(before: seq<byte>, frame: seq<byte>, shown: nat, count: nat)
      requires shown + count <= |frame|
      ensures before + frame[..shown] + frame[shown..shown + count] == before + frame[..shown + count]
    {
    }

    /** The console's buffer takes some of the next chunk. */
    method Accept(count: nat)
      requires Valid() && Enabled(TheView(), DoAccept(count))
      modifies this`helper, this`accepted
      ensures Valid()
      ensures TheView() == old(Stepped(TheView(), DoAccept(count)))
    {
      hide Le32, Flatten, Encoded;
      var frame, shown := helper.frame, helper.shown;
      ShownMore(Flatten(done), frame, shown, count);
      accepted := accepted + frame[shown..shown + count];
      helper := AtFlush(frame, shown + count, count);
    }

    /** The buffer may reach the console before it is flushed. */
    method Spill(upTo: nat)
      requires Valid() && Enabled(TheView(), DoSpill(upTo))
      modifies this`flushed
      ensures Valid()
      ensures TheView() == old(Stepped(TheView(), DoSpill(upTo)))
    {
      flushed := upTo;
    }

    method Flush()
      requires Valid() && Enabled(TheView(), DoFlush)
      modifies this`helper, this`flushed
      ensures Valid()
      ensures TheView() == old(Stepped(TheView(), DoFlush))
    {
      flushed := |accepted|;
      helper := AtAck(helper.frame, helper.shown, helper.count);
    }

    method SendAck()
      requires Valid() && Enabled(TheView(), DoSendAck)
      modifies this`helper, this`acks, this`confirmed
      ensures Valid()
      ensures TheView() == old(Stepped(TheView(), DoSendAck))
    {
      hide Le32;
      SumSnoc(acks, helper.count);
      acks := acks + [helper.count];
      confirmed := confirmed + helper.count;
      helper := if helper.shown < |helper.frame| then AtWrite(helper.frame, helper.shown) else AtFinal(helper.frame);
    }

    method SendFinal()
      requires Valid() && Enabled(TheView(), DoSendFinal)
      modifies this`helper, this`acks, this`closed
      ensures Valid()
      ensures TheView() == old(Stepped(TheView(), DoSendFinal))
    {
      hide Le32;
      SumSnoc(acks, 0);
      acks := acks + [0];
      closed := true;
      helper := AtLength;
    }

    lemma PipeEmpty()
      requires Valid() && (writer == Idle || (writer.Busy? && helper.AtWrite?)) && helper != Gone
      ensures pipe == []
    {
    }

    lemma NoInvalidAck()
      requires Valid()
      ensures writer != Failed(InvalidData) && (writer.Busy? ==> Sending(writer))
    {
    }

    /** A frame the helper has closed is all acknowledged, the last zero still to be read. */
    lemma Closing()
      requires Valid() && writer.Busy? && helper == AtLength && writer.sent == |Encoded(writer.frame)| && pipe == []
      ensures acks != [] && Sending(writer)
    {
      hide Le32;
    }

    lemma AllShown()
      requires Valid() && writer == Idle
      ensures accepted == Flatten(done) && flushed == |accepted|
    {
    }

    /** A writer in the middle of a frame always has something to wait for that can happen. */
    lemma NeverStuck()
      requires Valid() && writer.Busy?
      ensures Enabled(TheView(), Pending(TheView()))
    {
      hide Le32;
    }

    /** In every reachable state nothing is acknowledged that is not on the console. */
    lemma AckedIsFlushed()
      requires Valid()
      ensures writer != Failed(InvalidData)
      ensures |Flatten(done)| <= flushed && Flatten(done) <= accepted
      ensures writer.Busy? ==>
        && writer.acked <= |writer.frame| && Base() + writer.acked <= flushed <= |accepted|
        && Flatten(done) + writer.frame[..writer.acked] <= accepted[..flushed]
    {
    }
  }

  /** What the writer makes of one acknowledgement. */
  function AfterAck(writer: Writer, count: nat): Writer
    requires writer.Busy? && writer.acked <= |writer.frame|
  {
    if count == 0 then if writer.acked == |writer.frame| then Idle else Failed(InvalidData)
    else if count > |writer.frame| - writer.acked then Failed(InvalidData)
    else writer.(acked := writer.acked + count)
  }

  method Take(p: Protocol, step: Step)
    requires p.Valid()
    modifies p
    ensures p.Valid() && p.TheView() == if old(Enabled(p.TheView(), step)) then old(Stepped(p.TheView(), step)) else old(p.TheView())
    ensures p.done == old(p.done) + if step == DoReadAck && p.writer == Idle && old(p.writer).Busy? then [old(p.writer).frame] else []
  {
    hide Protocol.HelperInStep, Protocol.AcksInFlight, Le32, Stepped, Protocol.Valid;
    if !Enabled(View(p.writer, p.helper, p.pipe, p.acks, p.accepted, p.flushed), step) {
      return;
    }
    match step
    case DoBegin(frame) => p.Begin(frame);
    case DoPush(count) => p.Push(count);
    case DoReadAck => p.ReadAck();
    case DoReadEof => p.ReadEof();
    case DoDie => p.Die();
    case DoReadLength => p.ReadLength();
    case DoReadBody => p.ReadBody();
    case DoAccept(count) => p.Accept(count);
    case DoSpill(upTo) => p.Spill(upTo);
    case DoFlush => p.Flush();
    case DoSendAck => p.SendAck();
    case DoSendFinal => p.SendFinal();
  }

  /**
    Every schedule of the two processes: the frames the writer reports as
    written are on the console, bytes it counted as delivered are, no
    acknowledgement of this helper is ever found invalid, and a writer that
    waits never waits for nothing.
   */
  method Run(steps: seq<Step>) returns (p: Protocol)
    ensures p.Valid() && p.TheView() == Scheduled(steps) && p.writer != Failed(InvalidData)
    ensures |Flatten(p.done)| <= p.flushed <= |p.accepted| && Flatten(p.done) <= p.accepted
    ensures p.writer.Busy? ==>
      && p.writer.acked <= |p.writer.frame|
      && Flatten(p.done) + p.writer.frame[..p.writer.acked] <= p.accepted[..p.flushed]
      && Enabled(p.TheView(), Pending(p.TheView()))
  {
    hide Protocol.HelperInStep, Protocol.AcksInFlight, Stepped, Enabled;
    p := new Protocol();
    for i := 0 to |steps|
      invariant p.Valid() && fresh(p) && p.TheView() == Scheduled(steps[..i])
    {
      assert steps[..i + 1][..i] == steps[..i];
      Take(p, steps[i]);
    }
    assert steps[..|steps|] == steps;
    p.AckedIsFlushed();
    if p.writer.Busy? {
      p.NeverStuck();
    }
  }

  /** What can be done next while a frame is being written, other than dying. */
  function Pending(v: View): Step
  {
    if v.acks != [] && Sending(v.writer) && v.writer.sent == |Encoded(v.writer.frame)| then DoReadAck
    else if Sending(v.writer) && v.writer.sent < |Encoded(v.writer.frame)| then DoPush(1)
    else match v.helper
      case AtLength => DoReadLength
      case AtBody(_) => DoReadBody
      case AtWrite(_, _) => DoAccept(1)
      case AtFlush(_, _, _) => DoFlush
      case AtAck(_, _, _) => DoSendAck
      case AtFinal(_) => DoSendFinal
      case Gone => DoReadEof
  }

  /** A helper that lives puts the whole frame on the console, and the writer reports it written. */
  method Deliver(p: Protocol, frame: seq<byte>)
    requires p.Valid() && p.writer == Idle && p.helper == AtLength && 0 < |frame| < Framing.U32
    modifies p
    ensures p.Valid() && p.writer == Idle && p.helper == AtLength && p.done == old(p.done) + [frame]
    ensures p.accepted == Flatten(p.done) && p.flushed == |p.accepted|
  {
    hide Protocol.Valid;
    HandOver(p, frame);
    ShowAll(p, frame);
    Collect(p, frame);
    p.AllShown();
  }

  /** All of the frame is sent. */
  ghost predicate Handed(p: Protocol, frame: seq<byte>)
    reads p
  {
    p.writer.Busy? && p.writer.frame == frame && |frame| < Framing.U32 && p.writer.sent == |Encoded(frame)|
  }

  method HandOver(p: Protocol, frame: seq<byte>)
    requires p.Valid() && p.writer == Idle && p.helper == AtLength && 0 < |frame| < Framing.U32
    modifies p
    ensures p.Valid() && Handed(p, frame) && p.helper == AtWrite(frame, 0) && p.done == old(p.done)
  {
    hide Le32, FromLe32, Protocol.Valid;
    p.PipeEmpty();
    Take(p, DoBegin(frame));
    Take(p, DoPush(|Encoded(frame)|));
    assert p.pipe == [] + Encoded(frame)[0..|Encoded(frame)|] == Encoded(frame);
    p.LengthFirst();
    Take(p, DoReadLength);
    assert p.pipe == frame;
    Take(p, DoReadBody);
  }

  method ShowAll(p: Protocol, frame: seq<byte>)
    requires p.Valid() && Handed(p, frame) && p.helper == AtWrite(frame, 0) && frame != []
    modifies p
    ensures p.Valid() && Handed(p, frame) && p.helper == AtLength && p.pipe == [] && p.done == old(p.done)
  {
    hide Le32, Protocol.Valid, Encoded;
    p.PipeEmpty();
    while p.helper.AtWrite?
      invariant p.Valid() && Handed(p, frame) && p.pipe == [] && p.done == old(p.done)
      invariant p.helper == AtFinal(frame) || (p.helper.AtWrite? && p.helper.frame == frame && p.helper.shown < |frame|)
      decreases if p.helper.AtWrite? then |frame| - p.helper.shown else 0
    {
      ShowSome(p, frame);
    }
    Take(p, DoSendFinal);
  }

  /** One chunk reaches the console and is acknowledged. */
  method ShowSome(p: Protocol, frame: seq<byte>)
    requires p.Valid() && Handed(p, frame) && p.helper.AtWrite? && p.helper.frame == frame && p.helper.shown < |frame| && p.pipe == []
    modifies p
    ensures p.Valid() && Handed(p, frame) && p.pipe == [] && p.done == old(p.done)
    ensures p.helper == AtFinal(frame) || (p.helper.AtWrite? && p.helper.frame == frame && old(p.helper.shown) < p.helper.shown < |frame|)
  {
    hide Le32, Protocol.Valid, Encoded;
    var rest := |frame| - p.helper.shown;
    Take(p, DoAccept(if rest < CHUNK then rest else CHUNK));
    Take(p, DoFlush);
    Take(p, DoSendAck);
  }

  method Collect(p: Protocol, frame: seq<byte>)
    requires p.Valid() && Handed(p, frame) && p.helper == AtLength && p.pipe == []
    modifies p
    ensures p.Valid() && p.writer == Idle && p.helper == AtLength && p.done == old(p.done) + [frame]
  {
    hide Le32, Protocol.Valid, Encoded;
    while p.writer.Busy?
      invariant p.Valid() && p.helper == AtLength && p.pipe == []
      invariant p.writer == Idle || Handed(p, frame)
      invariant p.done == old(p.done) + if p.writer == Idle then [frame] else []
      decreases |p.acks|
    {
      p.Closing();
      Take(p, DoReadAck);
      p.NoInvalidAck();
    }
  }
}
