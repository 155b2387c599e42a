/** The console as the kernel presents it: it takes what it likes of a write, in order. */
module Ttys {
  import opened Bytes

  /** A non-blocking write, retried over EINTR. */
  datatype WriteResult = Wrote(count: nat) | Again | Refused

  /** One write: what was offered and what came of it. */
  datatype Call = Call(offered: seq<byte>, result: WriteResult)

  /** What a write took. */
  function Took(call: Call): seq<byte>
  {
    if call.result.Wrote? && call.result.count <= |call.offered| then call.offered[..call.result.count] else []
  }

  /** A write that is refused or takes nothing ends the console. */
  predicate Spoils(call: Call)
  {
    call.result == Refused || call.result == Wrote(0)
  }

  /** The console took all it was offered. */
  predicate TakesAll(call: Call)
  {
    call.offered != [] && call.result == Wrote(|call.offered|)
  }

  /** Some write from `from` on ended the console. */
  ghost predicate Spoiled(calls: seq<Call>, from: nat)
  {
    exists k | from <= k < |calls| :: Spoils(calls[k])
  }

  /** All writes since `before` took all they were offered. */
  ghost predicate AllTaken(before: seq<Call>, after: seq<Call>)
  {
    before <= after && forall k | |before| <= k < |after| :: TakesAll(after[k])
  }

  /** Writing goes on as long as all is taken. */
  ghost predicate Drains(before: seq<Call>, after: seq<Call>)
  {
    && before <= after
    && (forall k | |before| <= k < |after| - 1 :: TakesAll(after[k]))
    && (forall k | |before| <= k < |after| :: after[k].offered != [])
  }

  lemma NothingAsked(calls: seq<Call>)
    ensures AllTaken(calls, calls) && Drains(calls, calls) && !Spoiled(calls, |calls|)
  {
  }

  lemma OneMoreCall(start: seq<Call>, calls: seq<Call>, call: Call)
    requires start <= calls
    ensures Spoiled(calls + [call], |start|) <==> Spoiled(calls, |start|) || Spoils(call)
    ensures AllTaken(start, calls) && call.offered != [] ==> Drains(start, calls + [call])
    ensures AllTaken(start, calls) && TakesAll(call) ==> AllTaken(start, calls + [call])
  {
    assert forall k | 0 <= k < |calls| :: (calls + [call])[k] == calls[k];
    assert (calls + [call])[|calls|] == call;
  }

  lemma AllTakenDrains(before: seq<Call>, after: seq<Call>)
    requires AllTaken(before, after)
    ensures Drains(before, after)
  {
  }

  lemma SpoiledLater(before: seq<Call>, middle: seq<Call>, after: seq<Call>)
    requires before <= middle <= after
    ensures Spoiled(after, |before|) <==> Spoiled(middle, |before|) || Spoiled(after, |middle|)
  {
    assert forall k | 0 <= k < |middle| :: middle[k] == after[k];
  }

  /** What a console writer reports: bytes delivered, or an error. */
  datatype WriterResult = Sent(count: nat) | Broke

  predicate Ends(outcome: WriterResult)
  {
    outcome == Broke || outcome == Sent(0)
  }

  /** Some report from `from` on was an error or brought nothing. */
  ghost predicate EndedSince(outcomes: seq<WriterResult>, from: nat)
  {
    exists k | from <= k < |outcomes| :: Ends(outcomes[k])
  }

  lemma NoOutcomes(outcomes: seq<WriterResult>)
    ensures !EndedSince(outcomes, |outcomes|)
  {
  }

  lemma OneMoreOutcome(start: seq<WriterResult>, outcomes: seq<WriterResult>, outcome: WriterResult)
    requires start <= outcomes
    ensures EndedSince(outcomes + [outcome], |start|) <==> EndedSince(outcomes, |start|) || Ends(outcome)
  {
    assert forall k | 0 <= k < |outcomes| :: (outcomes + [outcome])[k] == outcomes[k];
    assert (outcomes + [outcome])[|outcomes|] == outcome;
  }

  lemma EndedLater(before: seq<WriterResult>, middle: seq<WriterResult>, after: seq<WriterResult>)
    requires before <= middle <= after
    ensures EndedSince(after, |before|) <==> EndedSince(middle, |before|) || EndedSince(after, |middle|)
  {
    assert forall k | 0 <= k < |middle| :: middle[k] == after[k];
  }

  class Tty {
    /** Everything it has taken, and every write it was asked for. */
    ghost var shown: seq<byte>
    ghost var calls: seq<Call>
    /** What the console's writer reported, when it has one. */
    ghost var outcomes: seq<WriterResult>

    constructor ()
      ensures shown == [] && calls == [] && outcomes == []
    {
      shown, calls, outcomes := [], [], [];
    }

    /** What the kernel does with a write is unknown, except that it takes a prefix of what it is offered. */
    method Write(bytes: seq<byte>) returns (result: WriteResult)
      modifies this`shown, this`calls
      ensures result.Wrote? ==> result.count <= |bytes| && shown == old(shown) + bytes[..result.count]
      ensures !result.Wrote? ==> shown == old(shown)
      ensures calls == old(calls) + [Call(bytes, result)]
    {
      if * {
        var count: nat :| count <= |bytes|;
        shown := shown + bytes[..count];
        result := Wrote(count);
      } else if * {
        result := Again;
      } else {
        result := Refused;
      }
      calls := calls + [Call(bytes, result)];
    }

    method WriteVectored(slices: seq<seq<byte>>) returns (result: WriteResult)
      modifies this`shown, this`calls
      ensures result.Wrote? ==> result.count <= |Flatten(slices)| && shown == old(shown) + Flatten(slices)[..result.count]
      ensures !result.Wrote? ==> shown == old(shown)
      ensures calls == old(calls) + [Call(Flatten(slices), result)]
    {
      result := Write(Flatten(slices));
    }
  }
}
