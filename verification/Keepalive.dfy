/** Dead-link detection (`keepalive_clock.rs`, and how the loop in `client_terminal_loop.rs` drives it). */
module Keepalive {
  import opened Bytes

  /** Times are nanoseconds. */
  const SECOND := 1_000_000_000
  const PROBE_LAG := SECOND
  const MIN_REPLY_WINDOW := SECOND

  function Min(a: nat, b: nat): nat
  {
    if a < b then a else b
  }

  function Max(a: nat, b: nat): nat
  {
    if a > b then a else b
  }

  /** Quiet time before a probe goes out. */
  function ProbeAfter(interval: nat): (after: nat)
    ensures interval <= after <= 2 * interval
    ensures interval >= 2 * SECOND ==> after == interval + PROBE_LAG
    ensures SECOND <= interval <= 2 * SECOND ==> after == 2 * interval - MIN_REPLY_WINDOW
    ensures interval <= SECOND ==> after == interval
    ensures interval >= SECOND ==> 2 * interval - after >= MIN_REPLY_WINDOW
  {
    Max(Min(interval + PROBE_LAG, if 2 * interval > MIN_REPLY_WINDOW then 2 * interval - MIN_REPLY_WINDOW else 0), interval)
  }

  class KeepaliveClock {
    const probeAfter: nat
    const replyWindow: nat
    var deadline: int
    var probeOutstanding: bool
    /** The last sign of life, and when the outstanding probe was sent. */
    ghost var life: int
    ghost var probeAt: int

    ghost predicate Valid()
      reads this
    {
      && life <= probeAt
      && deadline == if probeOutstanding then probeAt + replyWindow else life + probeAfter
    }

    constructor (interval: nat, now: int)
      ensures Valid() && life == probeAt == now && !probeOutstanding
      ensures probeAfter == ProbeAfter(interval) && probeAfter + replyWindow == 2 * interval
      ensures interval >= SECOND ==> replyWindow >= MIN_REPLY_WINDOW
    {
      probeAfter := ProbeAfter(interval);
      replyWindow := 2 * interval - ProbeAfter(interval);
      deadline, probeOutstanding := now + ProbeAfter(interval), false;
      life, probeAt := now, now;
    }

    /** A packet was read, or a recovered transport was installed. */
    method Alive(now: int)
      requires Valid() && life <= now
      modifies this
      ensures Valid() && life == probeAt == now && !probeOutstanding
    {
      deadline, probeOutstanding := now + probeAfter, false;
      life, probeAt := now, now;
    }

    method ProbeSent(now: int)
      requires Valid() && life <= now
      modifies this
      ensures Valid() && life == old(life) && probeOutstanding && probeAt == now
    {
      deadline, probeOutstanding := now + replyWindow, true;
      probeAt := now;
    }

    predicate ProbeDue(now: int)
      reads this
    {
      !probeOutstanding && now >= deadline
    }

    predicate Dead(now: int, reading: bool)
      reads this
    {
      reading && probeOutstanding && now >= deadline
    }

    function WakeAt(reading: bool, canProbe: bool): Option<int>
      reads this
    {
      if (if probeOutstanding then reading else canProbe) then Some(deadline) else None
    }

    /** The loop sleeps until the first moment it could act: give a verdict while reading, or probe while it may write. */
    lemma WakesExactly(reading: bool, canProbe: bool, now: int)
      ensures var wake := WakeAt(reading, canProbe);
        wake.Some? && now >= wake.value <==> Dead(now, reading) || (canProbe && ProbeDue(now))
    {
    }

    /** The loop's verdict: never while data from the peer waits unread. */
    predicate Verdict(now: int, reading: bool, peerDataWaiting: bool)
      reads this
    {
      !peerDataWaiting && Dead(now, reading)
    }

    /** The loop's probe: when due, or again when held output kept the last reply from being read. */
    predicate ProbeWanted(now: int, outputHeld: bool)
      reads this
    {
      ProbeDue(now) || (outputHeld && Dead(now, true))
    }

    /**
      The earliest verdict for a probe sent `probeAt - life` after the last
      sign of life. Two intervals of silence are guaranteed exactly when the
      probe was not sent early.
     */
    lemma EarliestVerdict(interval: nat)
      requires Valid() && probeOutstanding && probeAfter + replyWindow == 2 * interval
      ensures forall now: int :: Dead(now, true) <==> now >= probeAt + replyWindow
      ensures (forall now: int :: Dead(now, true) ==> now >= life + 2 * interval) <==> probeAt >= life + probeAfter
    {
      assert Dead(probeAt + replyWindow, true);
    }
  }

  // ---------------------------------------------------------------------
  // The loop.

  /**
    One turn: packets read, the verdict, the probe. `wait` is how long a
    recovery takes, `write` how long the probe's write takes; a write that
    recovers the transport restarts the clock before the probe is noted.
   */
  datatype Tick = Tick(
    now: int, heard: bool, outputHeld: bool, peerDataWaiting: bool,
    writePending: bool, writeRecovers: bool, wait: nat, write: nat)

  /** What a turn did: whether it declared the link dead, and when its probe was noted. */
  datatype Answer = Answer(verdict: bool, probe: Option<int>)

  /** The last sign of life and the outstanding probe. */
  datatype Pulse = Pulse(life: int, probe: Option<int>)

  /** The turn read something: a sign of life. */
  predicate Heard(tick: Tick)
  {
    tick.heard && !tick.outputHeld
  }

  function ReplyWindow(interval: nat): int
  {
    2 * interval - ProbeAfter(interval)
  }

  /** Dead: a reply window has passed since the outstanding probe, nothing was read and nothing waits to be. */
  predicate Silent(interval: nat, pulse: Pulse, tick: Tick)
  {
    && !Heard(tick) && !tick.outputHeld && !tick.peerDataWaiting
    && pulse.probe.Some? && tick.now >= pulse.probe.value + ReplyWindow(interval)
  }

  /** When the turn saw a sign of life: a packet read, or the recovery that follows a verdict. */
  function Sign(tick: Tick, verdict: bool): Option<int>
  {
    if verdict then Some(tick.now + tick.wait) else if Heard(tick) then Some(tick.now) else None
  }

  /** The pulse once packets were read and a verdict acted on. */
  function Roused(interval: nat, pulse: Pulse, tick: Tick): Pulse
  {
    var sign := Sign(tick, Silent(interval, pulse, tick));
    if sign.Some? then Pulse(sign.value, None) else pulse
  }

  /** A probe goes out when it is due, or again when held output kept the last reply from being read. */
  function Probe(interval: nat, roused: Pulse, tick: Tick, now: int): Option<int>
  {
    var wanted :=
      if roused.probe.None? then now >= roused.life + ProbeAfter(interval)
      else tick.outputHeld && now >= roused.probe.value + ReplyWindow(interval);
    if wanted && !tick.writePending then Some(now + tick.write) else None
  }

  function Answered(interval: nat, pulse: Pulse, tick: Tick): Answer
  {
    var verdict := Silent(interval, pulse, tick);
    Answer(verdict, Probe(interval, Roused(interval, pulse, tick), tick, if verdict then tick.now + tick.wait else tick.now))
  }

  function Beat(interval: nat, pulse: Pulse, tick: Tick): Pulse
  {
    var roused := Roused(interval, pulse, tick);
    var probe := Answered(interval, pulse, tick).probe;
    if probe.None? then roused else Pulse(if tick.writeRecovers then probe.value else roused.life, probe)
  }

  function PulseAfter(interval: nat, start: int, ticks: seq<Tick>): Pulse
  {
    if ticks == [] then Pulse(start, None)
    else Beat(interval, PulseAfter(interval, start, ticks[..|ticks| - 1]), ticks[|ticks| - 1])
  }

  /** The answers of a run, turn by turn. */
  ghost predicate Answering(interval: nat, start: int, ticks: seq<Tick>, answers: seq<Answer>)
  {
    && |answers| == |ticks|
    && forall i | 0 <= i < |ticks| :: answers[i] == Answered(interval, PulseAfter(interval, start, ticks[..i]), ticks[i])
  }

  ghost predicate InOrder(ticks: seq<Tick>, start: int)
  {
    && (|ticks| > 0 ==> start <= ticks[0].now)
    && forall i | 0 < i < |ticks| :: ticks[i - 1].now + ticks[i - 1].wait + ticks[i - 1].write <= ticks[i].now
  }

  lemma PulseStep(interval: nat, start: int, ticks: seq<Tick>, i: nat)
    requires i < |ticks|
    ensures PulseAfter(interval, start, ticks[..i + 1]) == Beat(interval, PulseAfter(interval, start, ticks[..i]), ticks[i])
  {
    assert ticks[..i + 1][..i] == ticks[..i];
  }

  /** A turn's own sign of life and probe are not ahead of the turn's end. */
  lemma {:induction false} NotAhead(interval: nat, start: int, ticks: seq<Tick>, i: nat)
    requires InOrder(ticks, start) && i <= |ticks|
    ensures var pulse := PulseAfter(interval, start, ticks[..i]);
      && (i < |ticks| ==> pulse.life <= ticks[i].now && (pulse.probe.Some? ==> pulse.probe.value <= ticks[i].now))
      && (pulse.probe.Some? ==> pulse.life <= pulse.probe.value)
    decreases i
  {
    if i > 0 {
      NotAhead(interval, start, ticks, i - 1);
      PulseStep(interval, start, ticks, i - 1);
      assert i < |ticks| ==> ticks[i - 1].now + ticks[i - 1].wait + ticks[i - 1].write <= ticks[i].now;
    }
  }

  /** The pulse is not older than `t`, and an outstanding probe was sent a full quiet time later. */
  ghost predicate Since(interval: nat, t: int, pulse: Pulse)
  {
    t <= pulse.life && (pulse.probe.Some? ==> t + ProbeAfter(interval) <= pulse.probe.value)
  }

  /** The pulse is not older than a probe sent at `t`. */
  ghost predicate SinceProbe(t: int, pulse: Pulse)
  {
    t <= if pulse.probe.Some? then pulse.probe.value else pulse.life
  }

  ghost predicate Past(pulse: Pulse, tick: Tick)
  {
    pulse.life <= tick.now && (pulse.probe.Some? ==> pulse.life <= pulse.probe.value <= tick.now)
  }

  lemma BeatAnswers(interval: nat, pulse: Pulse, tick: Tick)
    requires Past(pulse, tick)
    ensures var answer := Answered(interval, pulse, tick);
      var sign := Sign(tick, answer.verdict);
      && (sign.Some? ==> Since(interval, sign.value, Beat(interval, pulse, tick)))
      && (answer.probe.Some? ==> SinceProbe(answer.probe.value, Beat(interval, pulse, tick)))
  {
    hide ProbeAfter;
  }

  lemma BeatKeeps(interval: nat, pulse: Pulse, tick: Tick, t: int)
    requires Past(pulse, tick)
    ensures Since(interval, t, pulse) ==> Since(interval, t, Beat(interval, pulse, tick))
    ensures SinceProbe(t, pulse) ==> SinceProbe(t, Beat(interval, pulse, tick))
  {
    hide ProbeAfter;
  }

  /**
    A probe still outstanding before turn `i` was sent a full quiet time after
    every earlier sign of life, recovering or not, and after every earlier probe.
   */
  lemma {:induction false} ProbeComesLate(interval: nat, start: int, ticks: seq<Tick>, answers: seq<Answer>, j: nat, i: nat)
    requires InOrder(ticks, start) && Answering(interval, start, ticks, answers) && j < i <= |ticks|
    ensures var pulse := PulseAfter(interval, start, ticks[..i]);
      var sign := Sign(ticks[j], answers[j].verdict);
      && (sign.Some? ==> Since(interval, sign.value, pulse))
      && (answers[j].probe.Some? ==> SinceProbe(answers[j].probe.value, pulse))
    decreases i
  {
    hide Since, SinceProbe, Beat, Answered, PulseAfter;
    var pulse := PulseAfter(interval, start, ticks[..i - 1]);
    PulseStep(interval, start, ticks, i - 1);
    NotAhead(interval, start, ticks, i - 1);
    if j < i - 1 {
      ProbeComesLate(interval, start, ticks, answers, j, i - 1);
      var sign := Sign(ticks[j], answers[j].verdict);
      if sign.Some? {
        BeatKeeps(interval, pulse, ticks[i - 1], sign.value);
      }
      if answers[j].probe.Some? {
        BeatKeeps(interval, pulse, ticks[i - 1], answers[j].probe.value);
      }
    } else {
      BeatAnswers(interval, pulse, ticks[j]);
    }
  }

  /** Turn `k` sent the probe that is unanswered before turn `i`. */
  ghost predicate Unanswered(ticks: seq<Tick>, answers: seq<Answer>, k: nat, i: nat)
    requires k < i <= |ticks| == |answers|
  {
    && answers[k].probe.Some?
    && forall m | k < m < i :: !Heard(ticks[m]) && !answers[m].verdict && answers[m].probe.None?
  }

  lemma {:induction false} UnansweredIsOutstanding(interval: nat, start: int, ticks: seq<Tick>, answers: seq<Answer>, k: nat, i: nat)
    requires Answering(interval, start, ticks, answers) && k < i <= |ticks| && Unanswered(ticks, answers, k, i)
    ensures PulseAfter(interval, start, ticks[..i]).probe == answers[k].probe
    decreases i
  {
    hide ProbeAfter, ReplyWindow;
    PulseStep(interval, start, ticks, i - 1);
    if k < i - 1 {
      UnansweredIsOutstanding(interval, start, ticks, answers, k, i - 1);
    }
  }

  lemma {:induction false} OutstandingIsUnanswered(interval: nat, start: int, ticks: seq<Tick>, answers: seq<Answer>, i: nat) returns (k: nat)
    requires Answering(interval, start, ticks, answers) && i <= |ticks|
    requires PulseAfter(interval, start, ticks[..i]).probe.Some?
    ensures k < i && Unanswered(ticks, answers, k, i) && PulseAfter(interval, start, ticks[..i]).probe == answers[k].probe
    decreases i
  {
    PulseStep(interval, start, ticks, i - 1);
    if answers[i - 1].probe.Some? {
      k := i - 1;
    } else {
      k := OutstandingIsUnanswered(interval, start, ticks, answers, i - 1);
    }
  }

  /** A probe was sent before turn `i`, nothing came since, and its reply window is over. */
  ghost predicate ReplyOverdue(interval: nat, ticks: seq<Tick>, answers: seq<Answer>, i: nat)
    requires i < |ticks| == |answers|
  {
    exists k: nat | k < i :: Unanswered(ticks, answers, k, i) && ticks[i].now >= answers[k].probe.value + ReplyWindow(interval)
  }

  lemma VerdictExactly(interval: nat, start: int, ticks: seq<Tick>, answers: seq<Answer>, i: nat)
    requires Answering(interval, start, ticks, answers) && i < |ticks|
    ensures answers[i].verdict <==>
      !Heard(ticks[i]) && !ticks[i].outputHeld && !ticks[i].peerDataWaiting && ReplyOverdue(interval, ticks, answers, i)
  {
    hide PulseAfter, ReplyWindow, Unanswered, ReplyOverdue;
    assert answers[i].verdict == Silent(interval, PulseAfter(interval, start, ticks[..i]), ticks[i]);
    ProbeIsUnanswered(interval, start, ticks, answers, i);
    OverdueIsUnanswered(interval, ticks, answers, i);
  }

  lemma OverdueIsUnanswered(interval: nat, ticks: seq<Tick>, answers: seq<Answer>, i: nat)
    requires i < |ticks| == |answers|
    ensures ReplyOverdue(interval, ticks, answers, i) ==> exists k: nat | k < i :: Unanswered(ticks, answers, k, i)
  {
  }

  /** When the turn acts: a verdict is followed by a recovery first. */
  function ActsAt(tick: Tick, verdict: bool): int
  {
    if verdict then tick.now + tick.wait else tick.now
  }

  /** A probe is outstanding when turn `i` comes to send one. */
  ghost predicate Waiting(ticks: seq<Tick>, answers: seq<Answer>, i: nat)
    requires i < |ticks| == |answers|
  {
    !Heard(ticks[i]) && !answers[i].verdict && exists k: nat | k < i :: Unanswered(ticks, answers, k, i)
  }

  /** The quiet time is over since the start and since every sign of life up to turn `i`. */
  ghost predicate Quiet(interval: nat, start: int, ticks: seq<Tick>, answers: seq<Answer>, i: nat)
    requires i < |ticks| == |answers|
  {
    var now := ActsAt(ticks[i], answers[i].verdict);
    && now >= start + ProbeAfter(interval)
    && forall j | 0 <= j <= i ::
         var sign := Sign(ticks[j], answers[j].verdict);
         sign.Some? ==> now >= sign.value + ProbeAfter(interval)
  }

  /** Turn `i` has a probe to send: the first once it was quiet, the next once held output kept a reply from being read. */
  ghost predicate ProbeCalledFor(interval: nat, start: int, ticks: seq<Tick>, answers: seq<Answer>, i: nat)
    requires i < |ticks| == |answers|
  {
    if Waiting(ticks, answers, i) then ticks[i].outputHeld && ReplyOverdue(interval, ticks, answers, i)
    else Quiet(interval, start, ticks, answers, i)
  }

  /** With no probe outstanding, the last sign of life is the start or some turn's. */
  lemma {:induction false} LifeIsSign(interval: nat, start: int, ticks: seq<Tick>, answers: seq<Answer>, i: nat)
    requires InOrder(ticks, start) && Answering(interval, start, ticks, answers) && i <= |ticks|
    ensures var pulse := PulseAfter(interval, start, ticks[..i]);
      && start <= pulse.life
      && (pulse.probe.None? ==>
            pulse.life == start || exists j | 0 <= j < i :: Sign(ticks[j], answers[j].verdict) == Some(pulse.life))
    decreases i
  {
    hide ProbeAfter, ReplyWindow;
    if i > 0 {
      LifeIsSign(interval, start, ticks, answers, i - 1);
      PulseStep(interval, start, ticks, i - 1);
      NotAhead(interval, start, ticks, i - 1);
    }
  }

  /** The quiet time counts from the last sign of life. */
  lemma QuietIsLife(interval: nat, start: int, ticks: seq<Tick>, answers: seq<Answer>, i: nat)
    requires InOrder(ticks, start) && Answering(interval, start, ticks, answers) && i < |ticks|
    requires Roused(interval, PulseAfter(interval, start, ticks[..i]), ticks[i]).probe.None?
    ensures Quiet(interval, start, ticks, answers, i) <==>
      ActsAt(ticks[i], answers[i].verdict)
        >= Roused(interval, PulseAfter(interval, start, ticks[..i]), ticks[i]).life + ProbeAfter(interval)
  {
    hide ProbeAfter, ReplyWindow, PulseAfter, Since, SinceProbe;
    var pulse := PulseAfter(interval, start, ticks[..i]);
    var life := Roused(interval, pulse, ticks[i]).life;
    LifeIsSign(interval, start, ticks, answers, i);
    NotAhead(interval, start, ticks, i);
    forall j | 0 <= j <= i && Sign(ticks[j], answers[j].verdict).Some?
      ensures Sign(ticks[j], answers[j].verdict).value <= life
    {
      if j < i {
        SignsBefore(interval, start, ticks, answers, j, i);
      }
    }
    assert life == start || exists j | 0 <= j <= i :: Sign(ticks[j], answers[j].verdict) == Some(life);
  }

  lemma SignsBefore(interval: nat, start: int, ticks: seq<Tick>, answers: seq<Answer>, j: nat, i: nat)
    requires InOrder(ticks, start) && Answering(interval, start, ticks, answers) && j < i < |ticks|
    ensures var sign := Sign(ticks[j], answers[j].verdict);
      sign.Some? ==> sign.value <= PulseAfter(interval, start, ticks[..i]).life <= ticks[i].now
  {
    hide PulseAfter;
    ProbeComesLate(interval, start, ticks, answers, j, i);
    NotAhead(interval, start, ticks, i);
  }

  /** A turn sends a probe exactly when one is called for and no write is pending, and notes it when the write is done. */
  ghost predicate ProbesRightly(interval: nat, start: int, ticks: seq<Tick>, answers: seq<Answer>, i: nat)
    requires i < |ticks| == |answers|
  {
    answers[i].probe ==
      if !ticks[i].writePending && ProbeCalledFor(interval, start, ticks, answers, i)
      then Some(ActsAt(ticks[i], answers[i].verdict) + ticks[i].write) else None
  }

  lemma ProbeExactly(interval: nat, start: int, ticks: seq<Tick>, answers: seq<Answer>, i: nat)
    requires InOrder(ticks, start) && Answering(interval, start, ticks, answers) && i < |ticks|
    ensures ProbesRightly(interval, start, ticks, answers, i)
  {
    hide ProbeAfter, ReplyWindow, PulseAfter, Quiet, Unanswered;
    var pulse := PulseAfter(interval, start, ticks[..i]);
    ProbeIsUnanswered(interval, start, ticks, answers, i);
    if Roused(interval, pulse, ticks[i]).probe.None? {
      QuietIsLife(interval, start, ticks, answers, i);
    }
  }

  /** The outstanding probe, seen from the answers. */
  lemma ProbeIsUnanswered(interval: nat, start: int, ticks: seq<Tick>, answers: seq<Answer>, i: nat)
    requires Answering(interval, start, ticks, answers) && i < |ticks|
    ensures var pulse := PulseAfter(interval, start, ticks[..i]);
      && (pulse.probe.Some? <==> exists k: nat | k < i :: Unanswered(ticks, answers, k, i))
      && (pulse.probe.Some? ==>
            (ReplyOverdue(interval, ticks, answers, i) <==> ticks[i].now >= pulse.probe.value + ReplyWindow(interval)))
  {
    hide PulseAfter, ReplyWindow;
    var pulse := PulseAfter(interval, start, ticks[..i]);
    if pulse.probe.Some? {
      var k := OutstandingIsUnanswered(interval, start, ticks, answers, i);
      assert pulse.probe.value == answers[k].probe.value;
    }
    forall k: nat | k < i && Unanswered(ticks, answers, k, i) ensures pulse.probe == answers[k].probe {
      UnansweredIsOutstanding(interval, start, ticks, answers, k, i);
    }
  }

  /** Turn `m` could not have probed again between a probe of turn `k` and the verdict it leads to in turn `i`. */
  ghost predicate NotHeldOverdue(interval: nat, ticks: seq<Tick>, answers: seq<Answer>, k: nat, m: nat)
    requires k < m < |ticks| == |answers|
  {
    answers[k].probe.Some? && ticks[m].outputHeld && !ticks[m].writePending ==>
      ticks[m].now < answers[k].probe.value + ReplyWindow(interval)
  }

  /** No verdict over output that was held: a held turn after the window would have probed again. */
  lemma HeldTurnProbesAgain(interval: nat, start: int, ticks: seq<Tick>, answers: seq<Answer>, k: nat, m: nat, i: nat)
    requires InOrder(ticks, start) && Answering(interval, start, ticks, answers) && k < m < i < |ticks|
    requires Unanswered(ticks, answers, k, i)
    ensures NotHeldOverdue(interval, ticks, answers, k, m)
  {
    hide Quiet, ReplyWindow;
    ProbeExactly(interval, start, ticks, answers, m);
    assert Unanswered(ticks, answers, k, m);
  }

  /** Turn `i` comes two intervals after the sign of life in turn `j`, and a reply window after its probe. */
  ghost predicate LongAfter(interval: nat, ticks: seq<Tick>, answers: seq<Answer>, j: nat, i: nat)
    requires j < i < |ticks| == |answers|
  {
    var sign := Sign(ticks[j], answers[j].verdict);
    && (sign.Some? ==> ticks[i].now >= sign.value + 2 * interval)
    && (answers[j].probe.Some? ==> ticks[i].now >= answers[j].probe.value + ReplyWindow(interval))
  }

  lemma NoFalseVerdict(interval: nat, start: int, ticks: seq<Tick>, answers: seq<Answer>, j: nat, i: nat)
    requires InOrder(ticks, start) && Answering(interval, start, ticks, answers) && j < i < |ticks| && answers[i].verdict
    ensures LongAfter(interval, ticks, answers, j, i)
  {
    hide PulseAfter;
    ProbeComesLate(interval, start, ticks, answers, j, i);
  }

  class PumpClock {
    const clock: KeepaliveClock
    const interval: nat

    ghost predicate Valid()
      reads clock
    {
      clock.Valid() && clock.probeAfter == ProbeAfter(interval) && clock.replyWindow == ReplyWindow(interval)
    }

    ghost function ThePulse(): Pulse
      reads clock
    {
      Pulse(clock.life, if clock.probeOutstanding then Some(clock.probeAt) else None)
    }

    constructor (interval: nat, now: int)
      ensures Valid() && fresh(clock) && this.interval == interval && ThePulse() == Pulse(now, None)
      ensures interval >= SECOND ==> clock.replyWindow >= MIN_REPLY_WINDOW
    {
      this.interval := interval;
      clock := new KeepaliveClock(interval, now);
    }

    /** One turn of the loop over the deadline clock is one beat of the pulse. */
    method Turn(tick: Tick) returns (answer: Answer)
      requires Valid() && clock.life <= tick.now
      modifies clock
      ensures Valid() && answer == Answered(interval, old(ThePulse()), tick) && ThePulse() == Beat(interval, old(ThePulse()), tick)
      ensures answer.verdict <==> !Heard(tick) && old(clock.Verdict(tick.now, !tick.outputHeld, tick.peerDataWaiting))
      ensures answer.verdict ==> old(clock.probeOutstanding) && tick.now >= old(clock.probeAt) + clock.replyWindow
      ensures answer.probe.Some? ==> clock.probeOutstanding && clock.probeAt == answer.probe.value
    {
      hide ProbeAfter, ReplyWindow;
      var verdict := Listen(tick);
      var probe := SendProbe(tick, if verdict then tick.now + tick.wait else tick.now);
      answer := Answer(verdict, probe);
    }

    /** What was read, and the verdict, which is followed by a recovery. */
    method Listen(tick: Tick) returns (verdict: bool)
      requires Valid() && clock.life <= tick.now
      modifies clock
      ensures Valid() && verdict == Silent(interval, old(ThePulse()), tick)
      ensures ThePulse() == Roused(interval, old(ThePulse()), tick)
    {
      hide ProbeAfter, ReplyWindow;
      if tick.heard && !tick.outputHeld {
        clock.Alive(tick.now);
      }
      verdict := clock.Verdict(tick.now, !tick.outputHeld, tick.peerDataWaiting);
      if verdict {
        clock.Alive(tick.now + tick.wait);
      }
    }

    /** The probe, if one is wanted; a write that recovers the transport restarts the clock first. */
    method SendProbe(tick: Tick, now: int) returns (probe: Option<int>)
      requires Valid() && clock.life <= now
      modifies clock
      ensures Valid() && probe == Probe(interval, old(ThePulse()), tick, now)
      ensures ThePulse() == if probe.None? then old(ThePulse())
                            else Pulse(if tick.writeRecovers then probe.value else old(clock.life), probe)
    {
      hide ProbeAfter, ReplyWindow;
      probe := None;
      if !tick.writePending && clock.ProbeWanted(now, tick.outputHeld) {
        var sent := now + tick.write;
        if tick.writeRecovers {
          clock.Alive(sent);
        }
        clock.ProbeSent(sent);
        probe := Some(sent);
      }
    }
  }

  /**
    No false verdict in any run with monotone time. A turn declares the link
    dead exactly when it is reading, nothing was read or waits, and the last
    probe has gone unanswered for a reply window. That is two intervals after
    every packet read and every recovery that followed a verdict, and a reply
    window after every probe, one whose write recovered the transport included.
    A turn sends a probe exactly when it is called for and no write is pending,
    so a verdict never rests on a reply that held output kept from being read.
   */
  method Run(interval: nat, start: int, ticks: seq<Tick>) returns (answers: seq<Answer>)
    requires InOrder(ticks, start)
    ensures Answering(interval, start, ticks, answers)
    ensures forall i | 0 <= i < |ticks| :: answers[i].verdict <==>
      !Heard(ticks[i]) && !ticks[i].outputHeld && !ticks[i].peerDataWaiting && ReplyOverdue(interval, ticks, answers, i)
    ensures forall i, j | 0 <= j < i < |ticks| && answers[i].verdict :: LongAfter(interval, ticks, answers, j, i)
    ensures forall i | 0 <= i < |ticks| :: ProbesRightly(interval, start, ticks, answers, i)
    ensures forall i, k: nat, m | 0 <= k < m < i < |ticks| && answers[i].verdict && Unanswered(ticks, answers, k, i) ::
      NotHeldOverdue(interval, ticks, answers, k, m)
  {
    hide Answered, Beat, LongAfter, ReplyOverdue, ProbesRightly, NotHeldOverdue, Unanswered;
    var pump := new PumpClock(interval, start);
    answers := [];
    for i := 0 to |ticks|
      invariant pump.Valid() && pump.interval == interval && fresh(pump.clock)
      invariant |answers| == i && pump.ThePulse() == PulseAfter(interval, start, ticks[..i])
      invariant forall j | 0 <= j < i :: answers[j] == Answered(interval, PulseAfter(interval, start, ticks[..j]), ticks[j])
    {
      NotAhead(interval, start, ticks, i);
      var answer := pump.Turn(ticks[i]);
      PulseStep(interval, start, ticks, i);
      answers := answers + [answer];
    }
    forall i | 0 <= i < |ticks| {
      VerdictExactly(interval, start, ticks, answers, i);
    }
    forall i | 0 <= i < |ticks| ensures ProbesRightly(interval, start, ticks, answers, i) {
      ProbeExactly(interval, start, ticks, answers, i);
    }
    forall i, k: nat, m | 0 <= k < m < i < |ticks| && answers[i].verdict && Unanswered(ticks, answers, k, i)
      ensures NotHeldOverdue(interval, ticks, answers, k, m)
    {
      HeldTurnProbesAgain(interval, start, ticks, answers, k, m, i);
    }
    forall i, j | 0 <= j < i < |ticks| && answers[i].verdict ensures LongAfter(interval, ticks, answers, j, i) {
      NoFalseVerdict(interval, start, ticks, answers, j, i);
    }
  }

  /** A loop that is reading, hears nothing and acts at each `wake_at` gives its verdict exactly two intervals later. */
  method Punctual(interval: nat, start: int) returns (probeAt: int, verdictAt: int)
    ensures probeAt == start + ProbeAfter(interval) && verdictAt == start + 2 * interval
  {
    var clock := new KeepaliveClock(interval, start);
    var wake := clock.WakeAt(true, true);
    probeAt := wake.value;
    assert clock.ProbeDue(probeAt) && forall t: int | t < probeAt :: !clock.ProbeDue(t) && !clock.Dead(t, true);
    clock.ProbeSent(probeAt);
    wake := clock.WakeAt(true, true);
    verdictAt := wake.value;
    assert clock.Dead(verdictAt, true) && forall t: int | t < verdictAt :: !clock.Dead(t, true) && !clock.ProbeDue(t);
  }

  /**
    Two intervals are not promised after a recovery made by the probe's own
    write: the probe is noted right after it, and a silent peer is declared dead
    as soon as one reply window later, so the bound in `LongAfter` is exact.
   */
  method VerdictAfterRecoveringProbe(interval: nat, start: int) returns (recoveredAt: int, answers: seq<Answer>)
    requires interval > 0
    ensures var ticks := [Tick(recoveredAt, false, false, false, false, true, 0, 0),
                          Tick(recoveredAt + ReplyWindow(interval), false, false, false, false, false, 0, 0)];
      InOrder(ticks, start) && Answering(interval, start, ticks, answers)
    ensures answers == [Answer(false, Some(recoveredAt)), Answer(true, None)] && ReplyWindow(interval) < 2 * interval
  {
    recoveredAt := start + ProbeAfter(interval);
    var first := Tick(recoveredAt, false, false, false, false, true, 0, 0);
    var second := Tick(recoveredAt + ReplyWindow(interval), false, false, false, false, false, 0, 0);
    assert [first, second][..1] == [first] && [first][..0] == [];
    assert PulseAfter(interval, start, [first]) == Pulse(recoveredAt, Some(recoveredAt));
    answers := Run(interval, start, [first, second]);
  }
}
