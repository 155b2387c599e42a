/** The bound on unacknowledged output, and why it cannot wedge a session (`delivery_gate.rs`). */
module DeliveryGates {
  import opened Bytes

  const MAX_UNACKNOWLEDGED_BYTES := 4 * 1024 * 1024

  datatype Backlog = Backlog(acknowledged: int, unacknowledged: int)

  datatype Stall = Stall(acknowledged: int, since: int)

  class DeliveryGate {
    var stalled: Option<Stall>
    var released: Option<int>

    ghost predicate Valid()
      reads this
    {
      stalled.None? || released.None?
    }

    constructor ()
      ensures Valid() && stalled.None? && released.None?
    {
      stalled, released := None, None;
    }

    /** `release_at`. */
    function ReleaseAt(patience: nat): Option<int>
      reads this
    {
      if stalled.Some? then Some(stalled.value.since + patience) else None
    }

    /** A release holds until the peer acknowledges more, or the transport is lost. */
    ghost predicate Open(connected: bool, backlog: Option<Backlog>)
      reads this
    {
      || !connected || backlog.None?
      || (released.Some? && backlog.value.acknowledged <= released.value)
      || backlog.value.unacknowledged < MAX_UNACKNOWLEDGED_BYTES
    }

    /** This backlog has been waited on for the whole patience window. */
    ghost predicate Exhausted(backlog: Backlog, now: int, patience: nat)
      reads this
    {
      && stalled.Some? && stalled.value.acknowledged == backlog.acknowledged
      && (now >= stalled.value.since + patience || patience == 0)
    }

    /** `observe` and `check`: producers pause exactly when the backlog is full, not let through and not waited out. */
    method Observe(connected: bool, backlog: Option<Backlog>, now: int, patience: nat) returns (blocked: bool)
      requires Valid()
      modifies this
      ensures Valid()
      ensures blocked <==> !old(Open(connected, backlog)) && !old(Exhausted(backlog.value, now, patience))
      ensures !connected ==> stalled.None? && released.None?
      ensures blocked ==> stalled.Some? && stalled.value.acknowledged == backlog.value.acknowledged
      ensures blocked && old(stalled.Some?) && old(stalled.value.acknowledged) == backlog.value.acknowledged ==>
        stalled == old(stalled)
      ensures blocked && !(old(stalled.Some?) && old(stalled.value.acknowledged) == backlog.value.acknowledged) ==>
        stalled == Some(Stall(backlog.value.acknowledged, now))
      ensures connected && backlog.None? ==> stalled == old(stalled)
      ensures connected && backlog.Some? ==> (stalled.Some? <==> blocked)
      ensures blocked ==> released.None?
      ensures released.Some? ==>
        released == old(released) || (backlog.Some? && released == Some(backlog.value.acknowledged) && old(stalled.Some?))
      ensures connected && old(released.Some?) && (backlog.None? || backlog.value.acknowledged <= old(released.value)) ==>
        !blocked && released == old(released)
      ensures connected && !old(Open(connected, backlog)) && old(Exhausted(backlog.value, now, patience)) ==>
        released == Some(backlog.value.acknowledged)
    {
      if !connected {
        stalled, released := None, None;
        return false;
      }
      if backlog.None? {
        return false;
      }
      var Backlog(acknowledged, unacknowledged) := backlog.value;
      if released.Some? {
        if acknowledged <= released.value {
          return false;
        }
        released := None;
      }
      if unacknowledged < MAX_UNACKNOWLEDGED_BYTES {
        stalled := None;
        return false;
      }
      if stalled.Some? && stalled.value.acknowledged == acknowledged {
        var waited := if now > stalled.value.since then now - stalled.value.since else 0;
        if waited >= patience {
          released, stalled := Some(acknowledged), None;
          return false;
        }
      } else {
        stalled := Some(Stall(acknowledged, now));
      }
      blocked := true;
    }
  }

  /** `release_at` is the first moment an unchanged, full backlog is let through. */
  method ReleasedOnTime(gate: DeliveryGate, backlog: Backlog, now: int, patience: nat) returns (blocked: bool)
    requires gate.Valid() && gate.stalled.Some? && gate.stalled.value.acknowledged == backlog.acknowledged
    requires backlog.unacknowledged >= MAX_UNACKNOWLEDGED_BYTES
    requires patience > 0 || now >= gate.stalled.value.since
    modifies gate
    ensures blocked <==> now < old(gate.ReleaseAt(patience)).value
  {
    blocked := gate.Observe(true, Some(backlog), now, patience);
  }

  /** Without patience a full backlog is still paused, for the one answer that finds it. */
  method PauseWithoutPatience(backlog: Backlog, now: int) returns (answers: seq<bool>)
    requires backlog.unacknowledged >= MAX_UNACKNOWLEDGED_BYTES
    ensures answers == [true, false]
  {
    var gate := new DeliveryGate();
    var first := gate.Observe(true, Some(backlog), now, 0);
    var second := gate.Observe(true, Some(backlog), now, 0);
    answers := [first, second];
  }

  // ---------------------------------------------------------------------
  // Whole runs.

  datatype Call = Call(connected: bool, backlog: Option<Backlog>, now: int)

  ghost predicate Monotone(calls: seq<Call>)
  {
    forall i, j | 0 <= i <= j < |calls| :: calls[i].now <= calls[j].now
  }

  /** Calls `i` to `j` were all answered "pause", at one acknowledgement. */
  ghost predicate Stretch(calls: seq<Call>, answers: seq<bool>, i: nat, j: nat)
    requires |answers| <= |calls|
  {
    && i <= j < |answers|
    && (forall k | i <= k <= j :: answers[k] && calls[k].backlog.Some?)
    && (forall k | i <= k <= j :: calls[k].backlog.value.acknowledged == calls[i].backlog.value.acknowledged)
  }

  /** A connected call with a full backlog that was let through: its acknowledgement is released. */
  ghost predicate LetThrough(calls: seq<Call>, answers: seq<bool>, i: nat)
    requires |answers| <= |calls|
  {
    && i < |answers| && !answers[i] && calls[i].connected && calls[i].backlog.Some?
    && calls[i].backlog.value.unacknowledged >= MAX_UNACKNOWLEDGED_BYTES
  }

  /** Between calls `i` and `j` the transport stays up and no larger acknowledgement arrives. */
  ghost predicate Unchanged(calls: seq<Call>, i: nat, j: nat)
    requires i <= j < |calls|
  {
    && calls[i].backlog.Some?
    && forall k | i <= k <= j ::
         calls[k].connected
         && (calls[k].backlog.Some? ==> calls[k].backlog.value.acknowledged <= calls[i].backlog.value.acknowledged)
  }

  /**
    In every run with monotone time, producers are paused at one
    acknowledgement for less than the patience window, however often the gate
    is asked (a lone answer pauses for no time at all); and once a full
    backlog is let through, nothing pauses it again before a larger
    acknowledgement or a disconnect.
   */
  method Run(gate: DeliveryGate, calls: seq<Call>, patience: nat) returns (answers: seq<bool>)
    requires gate.Valid() && gate.stalled.None? && Monotone(calls)
    modifies gate
    ensures gate.Valid() && |answers| == |calls|
    ensures forall i, j | 0 <= i < j < |answers| && Stretch(calls, answers, i, j) :: calls[j].now - calls[i].now < patience
    ensures forall i, j | 0 <= i <= j < |calls| && LetThrough(calls, answers, i) && Unchanged(calls, i, j) :: !answers[j]
  {
    hide Stretch, LetThrough, Unchanged, Monotone;
    answers := [];
    NoStretch(calls);
    for n := 0 to |calls|
      invariant gate.Valid() && |answers| == n
      invariant gate.stalled.Some? ==> n > 0 && gate.stalled.value.since <= calls[n - 1].now
      invariant forall i, j | 0 <= i < j < |answers| && Stretch(calls, answers, i, j) :: calls[j].now - calls[i].now < patience
      invariant forall i | 0 <= i < n && Stretch(calls, answers, i, n - 1) :: Waiting(gate, calls[i])
      invariant forall i, j | 0 <= i <= j < n && LetThrough(calls, answers, i) && Unchanged(calls, i, j) :: !answers[j]
      invariant forall i | 0 <= i < n && LetThrough(calls, answers, i) && Unchanged(calls, i, n - 1) :: Released(gate, calls[i])
    {
      ghost var before := answers;
      if n > 0 {
        InOrder(calls, n);
      }
      var blocked := gate.Observe(calls[n].connected, calls[n].backlog, calls[n].now, patience);
      answers := answers + [blocked];
      forall i, j | 0 <= i <= j < |answers| && Stretch(calls, answers, i, j)
        ensures i < j ==> calls[j].now - calls[i].now < patience
        ensures j == n ==> Waiting(gate, calls[i])
      {
        StretchStep(calls, before, blocked, i, j);
      }
      forall i, j | 0 <= i <= j <= n && LetThrough(calls, answers, i) && Unchanged(calls, i, j)
        ensures !answers[j] && (j == n ==> Released(gate, calls[i]))
      {
        LetThroughStep(calls, before, blocked, i, j);
      }
    }
  }

  lemma InOrder(calls: seq<Call>, n: nat)
    requires Monotone(calls) && 0 < n < |calls|
    ensures calls[n - 1].now <= calls[n].now
  {
  }

  lemma NoStretch(calls: seq<Call>)
    ensures forall i: nat, j: nat :: !Stretch(calls, [], i, j)
    ensures forall i: nat :: !LetThrough(calls, [], i)
  {
  }

  ghost predicate Released(gate: DeliveryGate, call: Call)
    reads gate
  {
    gate.released.Some? && call.backlog.Some? && call.backlog.value.acknowledged <= gate.released.value
  }

  /** The gate has been waiting since before this call, at its acknowledgement. */
  ghost predicate Waiting(gate: DeliveryGate, call: Call)
    reads gate
  {
    && gate.stalled.Some? && call.backlog.Some?
    && gate.stalled.value.acknowledged == call.backlog.value.acknowledged
    && gate.stalled.value.since <= call.now
  }

  /** What a stretch of the longer run says about the run before its last answer. */
  lemma StretchStep(calls: seq<Call>, answers: seq<bool>, blocked: bool, i: nat, j: nat)
    requires |answers| < |calls| && Stretch(calls, answers + [blocked], i, j)
    ensures i <= j <= |answers| && calls[i].backlog.Some? && calls[j].backlog.Some?
    ensures calls[i].backlog.value.acknowledged == calls[j].backlog.value.acknowledged
    ensures j == |answers| ==> blocked
    ensures j < |answers| ==> Stretch(calls, answers, i, j)
    ensures i < j == |answers| ==> Stretch(calls, answers, i, j - 1)
  {
    var all := answers + [blocked];
    assert forall k | i <= k <= j :: all[k] && (k < |answers| ==> all[k] == answers[k]);
  }

  lemma LetThroughStep(calls: seq<Call>, answers: seq<bool>, blocked: bool, i: nat, j: nat)
    requires |answers| < |calls| && i <= j <= |answers|
    requires LetThrough(calls, answers + [blocked], i) && Unchanged(calls, i, j)
    ensures i < |answers| ==> LetThrough(calls, answers, i)
    ensures i == |answers| ==> !blocked
    ensures calls[i].connected && calls[j].connected && calls[i].backlog.Some?
    ensures calls[i].backlog.value.unacknowledged >= MAX_UNACKNOWLEDGED_BYTES
    ensures calls[j].backlog.Some? ==> calls[j].backlog.value.acknowledged <= calls[i].backlog.value.acknowledged
    ensures i < j ==> Unchanged(calls, i, j - 1)
  {
  }
}
