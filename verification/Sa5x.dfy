/** The disciplining state machine of the SA5x oscillator driver:
    src/oscillators/sa5x_oscillator.c. Serial replies and the monotonic clock are inputs. */
module Sa5x {
  import opened Common

  const DIGITAL_TUNING_MAX: int := 20_000_000
  const NO_GNSS_FIX_TIMEOUT: int := 9
  const DISCIPLINING_PHASES: int := 3
  const DAY: int := 24 * 3600

  datatype ClockClass = Uncalibrated | Calibrating | Holdover | Lock
  datatype Status = Init | Tracking | InHoldover | Calibration

  predicate IsPhase(p: int) {
    0 <= p < DISCIPLINING_PHASES
  }

  function TauValue(phase: int): int
    requires IsPhase(phase)
  {
    if phase == 0 then 50 else if phase == 1 then 500 else 10000
  }

  function TauInterval(phase: int): int
    requires IsPhase(phase)
  {
    if phase == 0 then 600 else if phase == 1 then 7200 else 86400
  }

  /** The attributes of one reading that the state machine looks at; alarm17 and alarm18 are
      bits of the alarm word, alarms says that the word is not zero. */
  datatype Attributes = Attributes(
    alarms: bool, alarm17: bool, alarm18: bool,
    lastCorrection: int, digitalTuning: int,
    ppsInDetected: bool, disciplineLocked: bool)

  /** The fields of struct sa5x_oscillator, with the last TAU commanded. */
  datatype Osc = Osc(
    clockClass: ClockClass, status: Status, holdoverReady: bool,
    phase: int, start: int,
    gnssFixStatus: bool, gnssLastFix: int,
    lastLatch: int, latchFixed: bool,
    tau: int)

  // ------------------------------------------------------------ one step

  predicate WantsLatch(o: Osc, a: Attributes, now: int) {
    if a.alarms then
      a.alarm18 && a.lastCorrection == 0 && !o.latchFixed
    else
      && a.lastCorrection == 0 && !a.disciplineLocked
      && (a.digitalTuning == DIGITAL_TUNING_MAX || a.digitalTuning == -DIGITAL_TUNING_MAX)
      && now - o.lastLatch > TauInterval(0)
      && !o.latchFixed
  }

  predicate WantsHoldover(o: Osc, a: Attributes, now: int) {
    || (!o.gnssFixStatus && now - o.gnssLastFix >= NO_GNSS_FIX_TIMEOUT)
    || !a.ppsInDetected || a.alarm17
  }

  predicate PhaseBump(o: Osc, now: int) {
    0 <= o.phase < DISCIPLINING_PHASES - 1 && now - o.start > TauInterval(o.phase)
  }

  /** The class branch: the new fields and whether TAU has to be adjusted. */
  function ClassBranch(o: Osc, a: Attributes, now: int, latch: bool): (Osc, bool) {
    if WantsHoldover(o, a, now) then
      (o.(clockClass := if o.clockClass.Calibrating? || now - o.gnssLastFix > DAY then Uncalibrated else Holdover,
          status := InHoldover), false)
    else if latch then
      (o.(clockClass := Uncalibrated, status := InHoldover), false)
    else
      var back := o.clockClass.Holdover? || o.clockClass.Uncalibrated?;
      var o1 := if back then o.(clockClass := Calibrating, status := Tracking, phase := 0, start := now) else o;
      if a.disciplineLocked then (o1, back)
      else if o1.clockClass.Calibrating? then (o1.(start := now), back)
      else (o1.(start := now, clockClass := Calibrating, status := Tracking, phase := 0), true)
  }

  /** The adjust_tau block. */
  function AdjustTau(o: Osc): Osc
    requires IsPhase(o.phase)
  {
    o.(tau := TauValue(o.phase),
       clockClass := if o.phase == 0 then Calibrating else Lock,
       status := if o.phase == 0 then Tracking else Calibration,
       holdoverReady := o.phase == DISCIPLINING_PHASES - 1)
  }

  /** The last part of get_ctrl: the phase bump and the adjust_tau block. */
  function Advance(o: Osc, now: int, adjust: bool): Osc
    requires IsPhase(o.phase)
  {
    if PhaseBump(o, now) then AdjustTau(o.(phase := o.phase + 1))
    else if adjust then AdjustTau(o)
    else o
  }

  function LatchBranch(o: Osc, latch: bool, latched: Option<int>): Osc {
    if latch && latched.Some? then o.(lastLatch := latched.value) else o
  }

  /** sa5x_oscillator_get_ctrl on a successful reading; latched says whether the latch
      procedure succeeds if it is wanted, and what the clock shows once it has. */
  function CtrlStep(o: Osc, a: Attributes, now: int, latched: Option<int>): Osc
    requires IsPhase(o.phase)
  {
    var latch := WantsLatch(o, a, now);
    var (o1, adjust) := ClassBranch(LatchBranch(o, latch, latched), a, now, latch);
    Advance(o1, now, adjust || latch)
  }

  datatype Event =
    | Reading(now: int, a: Attributes, latched: Option<int>)   // get_ctrl, attributes read
    | ReadError(now: int)                               // get_ctrl, attributes not read
    | GnssInfo(now: int, fixOk: bool, haveTime: bool)   // push_gnss_info

  function Step(o: Osc, e: Event): Osc
    requires IsPhase(o.phase)
  {
    match e
    case Reading(now, a, latched) => CtrlStep(o, a, now, latched)
    case ReadError(_) => o
    case GnssInfo(now, fixOk, haveTime) =>
      o.(gnssFixStatus := fixOk, gnssLastFix := if fixOk && haveTime then now else o.gnssLastFix)
  }

  /** The state that sa5x_oscillator_new leaves behind at time t0. */
  function NewOsc(t0: int, latchFixed: bool): Osc {
    Osc(Calibrating, Init, false, 0, t0, false, 0, 0, latchFixed, TauValue(0))
  }

  // ------------------------------------------------- reachable states

  ghost predicate Inv(o: Osc) {
    && IsPhase(o.phase)
    && (o.holdoverReady <==> o.phase == 2)
    && (o.clockClass.Calibrating? ==> o.phase == 0)
    && (o.clockClass.Lock? ==> o.phase >= 1)
    && (o.status.Init? ==> o.clockClass.Calibrating?)
    && (!o.status.Init? ==> o.status == StatusOf(o.clockClass))
    && o.tau == TauValue(o.phase)
  }

  function StatusOf(c: ClockClass): Status {
    match c
    case Uncalibrated => InHoldover
    case Calibrating => Tracking
    case Holdover => InHoldover
    case Lock => Calibration
  }

  lemma InvStep(o: Osc, e: Event)
    requires Inv(o)
    ensures Inv(Step(o, e))
    ensures Step(o, e).latchFixed == o.latchFixed
  {
    if e.Reading? {
      var latch := WantsLatch(o, e.a, e.now);
      var o0 := LatchBranch(o, latch, e.latched);
      ClassBranchInv(o0, e.a, e.now, latch);
      var (o1, adjust) := ClassBranch(o0, e.a, e.now, latch);
      AdvanceInv(o1, e.now, adjust || latch);
    }
  }

  lemma AdvanceInv(o: Osc, now: int, adjust: bool)
    requires IsPhase(o.phase) && (!adjust ==> Inv(o))
    ensures Inv(Advance(o, now, adjust)) && Advance(o, now, adjust).latchFixed == o.latchFixed
  {
  }

  /** After the class branch only an adjustment that is still due can break the invariant. */
  lemma ClassBranchInv(o: Osc, a: Attributes, now: int, latch: bool)
    requires Inv(o)
    ensures
      var (o1, adjust) := ClassBranch(o, a, now, latch);
      && IsPhase(o1.phase) && o1.latchFixed == o.latchFixed
      && (!adjust ==> Inv(o1))
  {
  }

  /** The state after a run. */
  ghost function Run(o: Osc, es: seq<Event>): (r: Osc)
    requires Inv(o)
    ensures Inv(r) && r.latchFixed == o.latchFixed
    decreases |es|
  {
    if es == [] then o
    else
      var before := Run(o, es[..|es| - 1]);
      InvStep(before, es[|es| - 1]);
      Step(before, es[|es| - 1])
  }

  /** Whatever readings, errors, alarms, latches and GNSS updates occur. */
  lemma ReachableStates(t0: int, latchFixed: bool, es: seq<Event>)
    ensures Inv(NewOsc(t0, latchFixed))
    ensures
      var o := Run(NewOsc(t0, latchFixed), es);
      && 0 <= o.phase <= 2
      && (o.holdoverReady <==> o.phase == 2)
      && (o.clockClass.Calibrating? ==> o.phase == 0)
      && (o.clockClass.Lock? ==> o.phase >= 1)
      && (o.status.Init? ==> o.clockClass.Calibrating?)
      && (o.status.Tracking? ==> o.clockClass.Calibrating?)
      && (o.status.InHoldover? <==> o.clockClass.Holdover? || o.clockClass.Uncalibrated?)
      && (o.status.Calibration? <==> o.clockClass.Lock?)
      && o.tau == (if o.phase == 0 then 50 else if o.phase == 1 then 500 else 10000)
  {
  }

  // ------------------------------------------- runs without interruption

  /** No reading of the run asks for holdover or for a latch. */
  ghost predicate Undisturbed(o: Osc, es: seq<Event>)
    requires Inv(o)
  {
    forall i :: 0 <= i < |es| && es[i].Reading? ==>
      var before := Run(o, es[..i]);
      !WantsHoldover(before, es[i].a, es[i].now) && !WantsLatch(before, es[i].a, es[i].now)
  }

  ghost predicate ClockMonotone(t0: int, es: seq<Event>) {
    && (forall i :: 0 <= i < |es| ==> t0 <= es[i].now)
    && (forall i, j :: 0 <= i < j < |es| ==> es[i].now <= es[j].now)
  }

  /** The time of the last successful reading, or of the creation. */
  function LastReading(t0: int, es: seq<Event>): int
    decreases |es|
  {
    if es == [] then t0
    else if es[|es| - 1].Reading? then es[|es| - 1].now
    else LastReading(t0, es[..|es| - 1])
  }

  /** The time of the last reading without discipline lock, or of the creation. */
  function LastUnlocked(t0: int, es: seq<Event>): int
    decreases |es|
  {
    if es == [] then t0
    else if es[|es| - 1].Reading? && !es[|es| - 1].a.disciplineLocked then es[|es| - 1].now
    else LastUnlocked(t0, es[..|es| - 1])
  }

  lemma {:induction false} ReadingsAfterLastUnlocked(t0: int, es: seq<Event>)
    requires ClockMonotone(t0, es)
    ensures forall i :: 0 <= i < |es| && es[i].Reading? && es[i].now > LastUnlocked(t0, es) ==>
              es[i].a.disciplineLocked
    ensures t0 <= LastUnlocked(t0, es)
    ensures forall i :: 0 <= i < |es| && es[i].Reading? ==> es[i].now <= LastReading(t0, es)
    ensures LastUnlocked(t0, es) <= LastReading(t0, es)
    ensures es != [] ==> LastReading(t0, es) <= es[|es| - 1].now
    decreases |es|
  {
    if es != [] {
      var front, last := es[..|es| - 1], es[|es| - 1];
      ReadingsAfterLastUnlocked(t0, front);
      forall i | 0 <= i < |es| && es[i].Reading? && es[i].now > LastUnlocked(t0, es)
        ensures es[i].a.disciplineLocked
      {
        if i < |es| - 1 {
          assert front[i] == es[i];
        }
      }
      forall i | 0 <= i < |es| && es[i].Reading?
        ensures es[i].now <= LastReading(t0, es)
      {
        if i < |es| - 1 {
          assert front[i] == es[i];
        }
      }
    }
  }

  lemma UndisturbedPrefix(o: Osc, es: seq<Event>)
    requires Inv(o) && es != [] && Undisturbed(o, es)
    ensures Undisturbed(o, es[..|es| - 1])
  {
    var front := es[..|es| - 1];
    forall i | 0 <= i < |front| && front[i].Reading?
      ensures var before := Run(o, front[..i]);
              !WantsHoldover(before, front[i].a, front[i].now) && !WantsLatch(before, front[i].a, front[i].now)
    {
      assert front[..i] == es[..i] && front[i] == es[i];
    }
  }

  /** Two readings, one more than 600 s past u and a later one more than 7200 s past it. */
  ghost predicate Confirmed(es: seq<Event>, u: int) {
    exists i, j :: 0 <= i < j < |es| && PastBy(es[i], u, TauInterval(0)) && PastBy(es[j], u, TauInterval(1))
  }

  predicate PastBy(e: Event, u: int, span: int) {
    e.Reading? && e.now - u > span
  }

  /** Another event confirms if it is such a later reading itself. */
  lemma ConfirmedGrows(es: seq<Event>, e: Event, u: int)
    ensures Confirmed(es + [e], u) <==>
              Confirmed(es, u)
              || (PastBy(e, u, TauInterval(1)) && exists i :: 0 <= i < |es| && PastBy(es[i], u, TauInterval(0)))
  {
    var more := es + [e];
    assert more[|es|] == e && forall i :: 0 <= i < |es| ==> more[i] == es[i];
    if Confirmed(es, u) {
      var i, j :| 0 <= i < j < |es| && PastBy(es[i], u, TauInterval(0)) && PastBy(es[j], u, TauInterval(1));
      assert PastBy(more[i], u, TauInterval(0)) && PastBy(more[j], u, TauInterval(1));
    }
    if PastBy(e, u, TauInterval(1)) && exists i :: 0 <= i < |es| && PastBy(es[i], u, TauInterval(0)) {
      var i :| 0 <= i < |es| && PastBy(es[i], u, TauInterval(0));
      assert PastBy(more[i], u, TauInterval(0)) && PastBy(more[|es|], u, TauInterval(1));
    }
  }

  /** Some reading is past u by a positive span exactly when the last one is. */
  lemma {:induction false} LastReadingIsLatest(t0: int, es: seq<Event>, u: int, span: int)
    requires ClockMonotone(t0, es) && t0 <= u && span > 0
    ensures LastReading(t0, es) - u > span <==> exists i :: 0 <= i < |es| && PastBy(es[i], u, span)
    decreases |es|
  {
    if es != [] {
      var front, n := es[..|es| - 1], |es| - 1;
      LastReadingIsLatest(t0, front, u, span);
      assert forall i :: 0 <= i < n ==> front[i] == es[i];
      if es[n].Reading? && exists i :: 0 <= i < |es| && PastBy(es[i], u, span) {
        var i :| 0 <= i < |es| && PastBy(es[i], u, span);
        assert es[i].now <= es[n].now;
      }
    }
  }

  /** One reading without holdover or latch, seen from the time of the last unlocked reading. */
  lemma QuietReading(o: Osc, a: Attributes, now: int, latched: Option<int>, last: int)
    requires Inv(o) && !WantsHoldover(o, a, now) && !WantsLatch(o, a, now)
    requires o.clockClass.Calibrating? || o.clockClass.Lock?
    requires o.start <= last <= now
    requires o.clockClass.Lock? <==> last - o.start > TauInterval(0)
    ensures
      var o' := CtrlStep(o, a, now, latched);
      && o'.start == (if a.disciplineLocked then o.start else now)
      && (o'.clockClass.Calibrating? || o'.clockClass.Lock?)
      && (o'.clockClass.Lock? <==> now - o'.start > TauInterval(0))
      && (o'.holdoverReady <==>
            a.disciplineLocked && (o.holdoverReady || (o.clockClass.Lock? && now - o.start > TauInterval(1))))
  {
  }

  ghost predicate Quiet(t0: int, es: seq<Event>, o: Osc) {
    && o.start == LastUnlocked(t0, es)
    && (o.clockClass.Calibrating? || o.clockClass.Lock?)
    && (o.clockClass.Lock? <==> LastReading(t0, es) - LastUnlocked(t0, es) > TauInterval(0))
    && (o.holdoverReady <==> Confirmed(es, LastUnlocked(t0, es)))
  }

  /** The last reading and the last unlocked one after another event. */
  lemma LastSnoc(t0: int, es: seq<Event>, e: Event)
    ensures LastReading(t0, es + [e]) == if e.Reading? then e.now else LastReading(t0, es)
    ensures LastUnlocked(t0, es + [e]) ==
              if e.Reading? && !e.a.disciplineLocked then e.now else LastUnlocked(t0, es)
  {
    assert (es + [e])[..|es|] == es;
  }

  lemma MonotoneSnoc(t0: int, es: seq<Event>, e: Event)
    requires ClockMonotone(t0, es + [e])
    ensures ClockMonotone(t0, es) && t0 <= e.now && forall i :: 0 <= i < |es| ==> es[i].now <= e.now
  {
    var more := es + [e];
    assert more[|es|] == e && forall i :: 0 <= i < |es| ==> es[i] == more[i];
  }

  /** An unlocked reading: nothing is past it. */
  lemma QuietUnlocked(t0: int, es: seq<Event>, e: Event, o: Osc)
    requires ClockMonotone(t0, es + [e]) && Inv(o) && Quiet(t0, es, o)
    requires e.Reading? && !WantsHoldover(o, e.a, e.now) && !WantsLatch(o, e.a, e.now) && !e.a.disciplineLocked
    ensures Quiet(t0, es + [e], Step(o, e))
  {
    LastSnoc(t0, es, e);
    MonotoneSnoc(t0, es, e);
    ReadingsAfterLastUnlocked(t0, es);
    QuietReading(o, e.a, e.now, e.latched, LastReading(t0, es));
    ConfirmedGrows(es, e, e.now);
    assert !Confirmed(es, e.now);
  }

  /** A locked reading: the span since the last unlocked one grows. */
  lemma QuietLocked(t0: int, es: seq<Event>, e: Event, o: Osc)
    requires ClockMonotone(t0, es + [e]) && Inv(o) && Quiet(t0, es, o)
    requires e.Reading? && !WantsHoldover(o, e.a, e.now) && !WantsLatch(o, e.a, e.now) && e.a.disciplineLocked
    ensures Quiet(t0, es + [e], Step(o, e))
  {
    var u := LastUnlocked(t0, es);
    LastSnoc(t0, es, e);
    MonotoneSnoc(t0, es, e);
    ReadingsAfterLastUnlocked(t0, es);
    QuietReading(o, e.a, e.now, e.latched, LastReading(t0, es));
    LastReadingIsLatest(t0, es, u, TauInterval(0));
    ConfirmedGrows(es, e, u);
  }

  lemma QuietStep(t0: int, es: seq<Event>, e: Event, o: Osc)
    requires ClockMonotone(t0, es + [e]) && Inv(o) && Quiet(t0, es, o)
    requires e.Reading? ==> !WantsHoldover(o, e.a, e.now) && !WantsLatch(o, e.a, e.now)
    ensures Quiet(t0, es + [e], Step(o, e))
  {
    if !e.Reading? {
      LastSnoc(t0, es, e);
      ConfirmedGrows(es, e, LastUnlocked(t0, es));
    } else if e.a.disciplineLocked {
      QuietLocked(t0, es, e, o);
    } else {
      QuietUnlocked(t0, es, e, o);
    }
  }

  lemma {:induction false} QuietRun(t0: int, latchFixed: bool, es: seq<Event>)
    requires ClockMonotone(t0, es) && Undisturbed(NewOsc(t0, latchFixed), es)
    ensures Quiet(t0, es, Run(NewOsc(t0, latchFixed), es))
    decreases |es|
  {
    if es != [] {
      var o := NewOsc(t0, latchFixed);
      var front, e := es[..|es| - 1], es[|es| - 1];
      UndisturbedPrefix(o, es);
      QuietRun(t0, latchFixed, front);
      assert front + [e] == es;
      QuietStep(t0, front, e, Run(o, front));
    }
  }

  /** On every run with no holdover or latch step: the class is LOCK exactly when the readings
      reach more than 600 s past the last unlocked one, so every reading of more than the last
      600 s was locked; and holdover_ready holds exactly when since the last unlocked reading
      there was one more than 600 s and a later one more than 7200 s after it. */
  lemma LockMeansTenLockedMinutes(t0: int, latchFixed: bool, es: seq<Event>)
    requires ClockMonotone(t0, es) && Undisturbed(NewOsc(t0, latchFixed), es)
    ensures
      var o := Run(NewOsc(t0, latchFixed), es);
      var unlocked := LastUnlocked(t0, es);
      && (o.clockClass.Lock? <==> LastReading(t0, es) - unlocked > 600)
      && (o.holdoverReady <==> Confirmed(es, unlocked))
      && (o.holdoverReady ==> LastReading(t0, es) - unlocked > 7200)
      && (o.clockClass.Lock? || o.clockClass.Calibrating?)
      && forall i :: 0 <= i < |es| && es[i].Reading? && es[i].now > unlocked ==> es[i].a.disciplineLocked
  {
    QuietRun(t0, latchFixed, es);
    ReadingsAfterLastUnlocked(t0, es);
    LastReadingIsLatest(t0, es, LastUnlocked(t0, es), TauInterval(1));
  }

  // ------------------------------------------------------------- any run

  /** The reading asks for holdover or for a latch. */
  ghost predicate DisturbedAt(o: Osc, es: seq<Event>, i: nat)
    requires Inv(o) && i < |es|
  {
    es[i].Reading? &&
    var before := Run(o, es[..i]);
    WantsHoldover(before, es[i].a, es[i].now) || WantsLatch(before, es[i].a, es[i].now)
  }

  /** ... and bumps the phase, or latches in a later phase. */
  ghost predicate ForcesLockAt(o: Osc, es: seq<Event>, i: nat)
    requires Inv(o) && i < |es|
  {
    DisturbedAt(o, es, i) &&
    var before := Run(o, es[..i]);
    PhaseBump(before, es[i].now) || (WantsLatch(before, es[i].a, es[i].now) && before.phase >= 1)
  }

  /** When one reading without discipline lock shows LOCK. */
  lemma UnlockedStepShowsLockIff(o: Osc, a: Attributes, now: int, latched: Option<int>)
    requires Inv(o) && !a.disciplineLocked
    ensures CtrlStep(o, a, now, latched).clockClass.Lock? <==>
              && (WantsHoldover(o, a, now) || WantsLatch(o, a, now))
              && (PhaseBump(o, now) || (WantsLatch(o, a, now) && o.phase >= 1))
  {
  }

  /** In every run: an unlocked reading shows LOCK exactly at a holdover or latch step that
      bumps the phase or latches in a later phase. */
  lemma UnlockedReadingShowsLockIff(o: Osc, es: seq<Event>, i: nat)
    requires Inv(o) && i < |es| && es[i].Reading? && !es[i].a.disciplineLocked
    ensures Run(o, es[..i + 1]).clockClass.Lock? <==> ForcesLockAt(o, es, i)
  {
    var before, e := Run(o, es[..i]), es[i];
    assert es[..i + 1][..i] == es[..i];
    assert Run(o, es[..i + 1]) == CtrlStep(before, e.a, e.now, e.latched);
    UnlockedStepShowsLockIff(before, e.a, e.now, e.latched);
  }

  /** A run without such steps is one in which LOCK is only ever shown by locked readings. */
  lemma LockShownWhenLockedIff(o: Osc, es: seq<Event>)
    requires Inv(o)
    ensures
      (forall i: nat :: i < |es| && es[i].Reading? && Run(o, es[..i + 1]).clockClass.Lock? ==> es[i].a.disciplineLocked)
      <==>
      (forall i: nat :: i < |es| && es[i].Reading? && !es[i].a.disciplineLocked ==> !ForcesLockAt(o, es, i))
  {
    forall i: nat | i < |es| && es[i].Reading? && !es[i].a.disciplineLocked
      ensures Run(o, es[..i + 1]).clockClass.Lock? <==> ForcesLockAt(o, es, i)
    {
      UnlockedReadingShowsLockIff(o, es, i);
    }
  }

  /** disciplining_start: the phase is earned since then, by readings up to last. */
  predicate Earned(o: Osc, t0: int, last: int) {
    && t0 <= o.start <= last
    && (o.phase >= 1 ==> last - o.start > TauInterval(0))
    && (o.phase == 2 ==> last - o.start > TauInterval(1))
  }

  lemma EarnedStep(o: Osc, a: Attributes, now: int, latched: Option<int>, t0: int, last: int)
    requires Inv(o) && Earned(o, t0, last) && last <= now
    ensures
      var o' := CtrlStep(o, a, now, latched);
      && Earned(o', t0, now) && o.start <= o'.start
      && (!WantsHoldover(o, a, now) && !WantsLatch(o, a, now) && !a.disciplineLocked ==> o'.start == now)
  {
  }

  /** Unlocked readings after disciplining_start are holdover or latch steps. */
  ghost predicate OnlyDisturbancesSince(o: Osc, es: seq<Event>, start: int)
    requires Inv(o)
  {
    forall i: nat :: i < |es| && es[i].Reading? && !es[i].a.disciplineLocked && es[i].now > start ==>
      DisturbedAt(o, es, i)
  }

  lemma OnlyDisturbancesGrow(o: Osc, es: seq<Event>, k: nat, before: int, start: int)
    requires Inv(o) && |es| == k + 1 && before <= start && OnlyDisturbancesSince(o, es[..k], before)
    requires es[k].Reading? && !es[k].a.disciplineLocked && es[k].now > start ==> DisturbedAt(o, es, k)
    ensures OnlyDisturbancesSince(o, es, start)
  {
    var front := es[..k];
    forall i: nat | i < k && es[i].Reading? && !es[i].a.disciplineLocked && es[i].now > start
      ensures DisturbedAt(o, es, i)
    {
      assert front[i] == es[i] && front[..i] == es[..i];
      assert DisturbedAt(o, front, i);
    }
  }

  lemma {:induction false} EarnedRun(t0: int, latchFixed: bool, es: seq<Event>)
    requires ClockMonotone(t0, es)
    ensures Earned(Run(NewOsc(t0, latchFixed), es), t0, LastReading(t0, es))
    ensures OnlyDisturbancesSince(NewOsc(t0, latchFixed), es, Run(NewOsc(t0, latchFixed), es).start)
    decreases |es|
  {
    if es != [] {
      var o, k: nat := NewOsc(t0, latchFixed), |es| - 1;
      var front, e := es[..k], es[k];
      EarnedRun(t0, latchFixed, front);
      if e.Reading? {
        ReadingsAfterLastUnlocked(t0, front);
        assert front != [] ==> front[k - 1].now <= e.now;
        EarnedStep(Run(o, front), e.a, e.now, e.latched, t0, LastReading(t0, front));
      }
      OnlyDisturbancesGrow(o, es, k, Run(o, front).start, Run(o, es).start);
    }
  }

  /** No unlocked reading at or after this time is a holdover or latch step. */
  ghost predicate NoUnlockedDisturbance(o: Osc, es: seq<Event>, since: int)
    requires Inv(o)
  {
    forall i: nat :: i < |es| && es[i].Reading? && !es[i].a.disciplineLocked && es[i].now >= since ==>
      !DisturbedAt(o, es, i)
  }

  lemma {:induction false} LastUnlockedIsReading(t0: int, es: seq<Event>)
    ensures LastUnlocked(t0, es) == t0 ||
            exists i: nat :: i < |es| && es[i].Reading? && !es[i].a.disciplineLocked
                             && es[i].now == LastUnlocked(t0, es)
    decreases |es|
  {
    if es != [] {
      var front := es[..|es| - 1];
      LastUnlockedIsReading(t0, front);
      if LastUnlocked(t0, es) == LastUnlocked(t0, front) && LastUnlocked(t0, front) != t0 {
        var i: nat :| i < |front| && front[i].Reading? && !front[i].a.disciplineLocked
                      && front[i].now == LastUnlocked(t0, front);
        assert es[i] == front[i];
      }
    }
  }

  /** All readings of more than the last span seconds were locked exactly if none of them was an
      unlocked holdover or latch step. */
  ghost predicate LockedExactlyIfUndisturbed(t0: int, latchFixed: bool, es: seq<Event>, span: int) {
    LastReading(t0, es) - LastUnlocked(t0, es) > span <==>
      NoUnlockedDisturbance(NewOsc(t0, latchFixed), es, LastReading(t0, es) - span)
  }

  lemma LockedSpanIff(t0: int, latchFixed: bool, es: seq<Event>, span: int)
    requires ClockMonotone(t0, es)
    requires LastReading(t0, es) - Run(NewOsc(t0, latchFixed), es).start > span
    ensures LockedExactlyIfUndisturbed(t0, latchFixed, es, span)
  {
    var o := NewOsc(t0, latchFixed);
    EarnedRun(t0, latchFixed, es);
    ReadingsAfterLastUnlocked(t0, es);
    LastUnlockedIsReading(t0, es);
    if LastUnlocked(t0, es) != t0 {
      var i: nat :| i < |es| && es[i].Reading? && !es[i].a.disciplineLocked && es[i].now == LastUnlocked(t0, es);
      assert es[i].now > Run(o, es).start ==> DisturbedAt(o, es, i);
    }
  }

  /** The exact condition on every run, whatever alarms, latches, errors and losses of the fix
      occur: when LOCK is shown, all readings of more than the last 600 s were locked exactly if
      none of them was an unlocked holdover or latch step; likewise for holdover_ready and
      7200 s. */
  lemma LockMeansLockedSpanIff(t0: int, latchFixed: bool, es: seq<Event>)
    requires ClockMonotone(t0, es)
    ensures Run(NewOsc(t0, latchFixed), es).clockClass.Lock? ==>
              LockedExactlyIfUndisturbed(t0, latchFixed, es, 600)
    ensures Run(NewOsc(t0, latchFixed), es).holdoverReady ==>
              LockedExactlyIfUndisturbed(t0, latchFixed, es, 7200)
  {
    var o := Run(NewOsc(t0, latchFixed), es);
    EarnedRun(t0, latchFixed, es);
    assert Earned(o, t0, LastReading(t0, es));
    if o.clockClass.Lock? {
      LockedSpanIff(t0, latchFixed, es, 600);
    }
    if o.holdoverReady {
      LockedSpanIff(t0, latchFixed, es, 7200);
    }
  }

  /** The restriction is needed: a single reading without any pulse, more than ten minutes
      after start-up, is reported as LOCK. */
  lemma LockWithoutAnyPulse(t0: int, latchFixed: bool, now: int, a: Attributes, latched: Option<int>)
    requires now - t0 > 600 && !a.ppsInDetected && !a.disciplineLocked
    ensures WantsHoldover(NewOsc(t0, latchFixed), a, now)
    ensures Run(NewOsc(t0, latchFixed), [Reading(now, a, latched)]).clockClass == Lock
  {
    var es := [Reading(now, a, latched)];
    assert es[..|es| - 1] == [];
    assert Run(NewOsc(t0, latchFixed), []) == NewOsc(t0, latchFixed);
  }

  // ----------------------------------------- what a reading shows, and why

  /** Whether the last GNSS update said there is a fix. */
  function FixReported(es: seq<Event>): bool
    decreases |es|
  {
    if es == [] then false
    else if es[|es| - 1].GnssInfo? then es[|es| - 1].fixOk
    else FixReported(es[..|es| - 1])
  }

  /** The time of the last update with a fix and its time, 0 if there was none. */
  function LastFix(es: seq<Event>): int
    decreases |es|
  {
    if es == [] then 0
    else if es[|es| - 1].GnssInfo? && es[|es| - 1].fixOk && es[|es| - 1].haveTime then es[|es| - 1].now
    else LastFix(es[..|es| - 1])
  }

  lemma FixStep(o: Osc, e: Event)
    requires Inv(o)
    ensures Step(o, e).gnssFixStatus == if e.GnssInfo? then e.fixOk else o.gnssFixStatus
    ensures Step(o, e).gnssLastFix == if e.GnssInfo? && e.fixOk && e.haveTime then e.now else o.gnssLastFix
  {
  }

  lemma {:induction false} FixesAreRemembered(t0: int, latchFixed: bool, es: seq<Event>)
    ensures Run(NewOsc(t0, latchFixed), es).gnssFixStatus == FixReported(es)
    ensures Run(NewOsc(t0, latchFixed), es).gnssLastFix == LastFix(es)
    decreases |es|
  {
    if es != [] {
      var front := es[..|es| - 1];
      FixesAreRemembered(t0, latchFixed, front);
      FixStep(Run(NewOsc(t0, latchFixed), front), es[|es| - 1]);
    }
  }

  /** The reasons for holdover at a reading that follows the given events: no pulse, alarm 17,
      or no fix reported and none for nine seconds. */
  predicate HoldoverReason(es: seq<Event>, a: Attributes, now: int) {
    !a.ppsInDetected || a.alarm17 || (!FixReported(es) && now - LastFix(es) >= 9)
  }

  /** The phase is due to be bumped: more than 600 s, or 7200 s, since start. */
  predicate BumpDue(o: Osc, now: int) {
    (o.phase == 0 && now - o.start > 600) || (o.phase == 1 && now - o.start > 7200)
  }

  lemma LastStep(o: Osc, es: seq<Event>, e: Event)
    requires Inv(o)
    ensures Run(o, es + [e]) == Step(Run(o, es), e)
  {
    assert (es + [e])[..|es|] == es;
  }

  /** With fixed firmware and no bump due, a reading shows HOLDOVER or UNCALIBRATED exactly for
      one of these reasons, and then UNCALIBRATED exactly out of calibration or more than 24 h
      after the last fix; phase, start and TAU do not change. */
  lemma HoldoverShownIff(t0: int, es: seq<Event>, e: Event)
    requires e.Reading? && !BumpDue(Run(NewOsc(t0, true), es), e.now)
    ensures
      var o, o' := Run(NewOsc(t0, true), es), Run(NewOsc(t0, true), es + [e]);
      && (o'.clockClass.Holdover? || o'.clockClass.Uncalibrated? <==> HoldoverReason(es, e.a, e.now))
      && (HoldoverReason(es, e.a, e.now) ==>
            && (o'.clockClass.Uncalibrated? <==> o.clockClass.Calibrating? || e.now - LastFix(es) > 86400)
            && o'.phase == o.phase && o'.start == o.start && o'.tau == o.tau)
  {
    FixesAreRemembered(t0, true, es);
    LastStep(NewOsc(t0, true), es, e);
  }

  /** With a bump due, a reading for one of these reasons shows LOCK in the next phase. */
  lemma BumpInHoldoverShowsLock(t0: int, latchFixed: bool, es: seq<Event>, e: Event)
    requires e.Reading? && BumpDue(Run(NewOsc(t0, latchFixed), es), e.now) && HoldoverReason(es, e.a, e.now)
    ensures
      var o, o' := Run(NewOsc(t0, latchFixed), es), Run(NewOsc(t0, latchFixed), es + [e]);
      o'.clockClass.Lock? && o'.phase == o.phase + 1 && o'.start == o.start
  {
    FixesAreRemembered(t0, latchFixed, es);
    LastStep(NewOsc(t0, latchFixed), es, e);
  }

  /** Without such a reason, fixed firmware tracks. Coming back from holdover, or out of lock,
      it starts again at phase 0 with the smallest TAU, except that calibration which never left
      phase 0 without lock only restarts its clock, and its phase may be due before that. */
  lemma TrackingShows(t0: int, es: seq<Event>, e: Event)
    requires e.Reading? && !HoldoverReason(es, e.a, e.now)
    ensures
      var o, o' := Run(NewOsc(t0, true), es), Run(NewOsc(t0, true), es + [e]);
      var back := o.clockClass.Holdover? || o.clockClass.Uncalibrated?;
      && (back || !e.a.disciplineLocked ==>
            o'.clockClass.Calibrating? && o'.phase == 0 && o'.start == e.now && o'.tau == 50)
      && (!back && e.a.disciplineLocked ==>
            && o'.start == o.start && o'.phase == o.phase + (if BumpDue(o, e.now) then 1 else 0)
            && o'.clockClass == if BumpDue(o, e.now) then Lock else o.clockClass)
      && (o.clockClass.Calibrating? && o'.clockClass.Calibrating? ==> o'.status == o.status)
  {
    FixesAreRemembered(t0, true, es);
    LastStep(NewOsc(t0, true), es, e);
  }

  /** When the tuning is stuck: with alarms, alarm 18 at zero correction; without, zero
      correction and no lock at either end of the tuning range, more than 600 s after the last
      latch. Fixed firmware is never latched. */
  predicate Stuck(a: Attributes, now: int, lastLatch: int, latchFixed: bool) {
    && !latchFixed && a.lastCorrection == 0
    && (a.alarms ==> a.alarm18)
    && (!a.alarms ==> !a.disciplineLocked && now - lastLatch > 600
                      && (a.digitalTuning == 20_000_000 || a.digitalTuning == -20_000_000))
  }

  /** The time of the last latch that succeeded, 0 if there was none. */
  function LastLatch(latchFixed: bool, es: seq<Event>): int
    decreases |es|
  {
    if es == [] then 0
    else
      var front, e := es[..|es| - 1], es[|es| - 1];
      var before := LastLatch(latchFixed, front);
      if e.Reading? && e.latched.Some? && Stuck(e.a, e.now, before, latchFixed) then e.latched.value else before
  }

  lemma LatchStep(o: Osc, e: Event)
    requires Inv(o)
    ensures Step(o, e).lastLatch ==
              if e.Reading? && e.latched.Some? && Stuck(e.a, e.now, o.lastLatch, o.latchFixed) then e.latched.value
              else o.lastLatch
  {
  }

  lemma {:induction false} LatchesAreRemembered(t0: int, latchFixed: bool, es: seq<Event>)
    ensures Run(NewOsc(t0, latchFixed), es).lastLatch == LastLatch(latchFixed, es)
    decreases |es|
  {
    if es != [] {
      var front := es[..|es| - 1];
      LatchesAreRemembered(t0, latchFixed, front);
      LatchStep(Run(NewOsc(t0, latchFixed), front), es[|es| - 1]);
    }
  }

  /** A reading with the tuning stuck commands TAU again and shows CALIBRATING in phase 0, LOCK
      in a later phase, after a bump if one is due, whether or not the latch succeeds and
      whether or not there is a reason for holdover. */
  lemma StuckReadingShows(t0: int, latchFixed: bool, es: seq<Event>, e: Event)
    requires e.Reading? && Stuck(e.a, e.now, LastLatch(latchFixed, es), latchFixed)
    ensures
      var o, o' := Run(NewOsc(t0, latchFixed), es), Run(NewOsc(t0, latchFixed), es + [e]);
      && o'.phase == o.phase + (if BumpDue(o, e.now) then 1 else 0) && o'.start == o.start
      && o'.clockClass == (if o'.phase == 0 then Calibrating else Lock)
  {
    LatchesAreRemembered(t0, latchFixed, es);
    LastStep(NewOsc(t0, latchFixed), es, e);
  }

  /** Apart from latching, the firmware makes no difference. */
  lemma FirmwareIsIrrelevant(o: Osc, a: Attributes, now: int, adjust: bool)
    requires IsPhase(o.phase)
    ensures Advance(o.(latchFixed := true), now, adjust) == Advance(o, now, adjust).(latchFixed := true)
    ensures ClassBranch(o.(latchFixed := true), a, now, false) ==
              (ClassBranch(o, a, now, false).0.(latchFixed := true), ClassBranch(o, a, now, false).1)
    ensures Advance(o, now, adjust).latchFixed == o.latchFixed
    ensures ClassBranch(o, a, now, false).0.latchFixed == o.latchFixed && IsPhase(ClassBranch(o, a, now, false).0.phase)
  {
  }

  /** Unfixed firmware whose tuning is not stuck goes through the same step as fixed firmware. */
  lemma NotStuckIsAsFixed(o: Osc, a: Attributes, now: int, latched: Option<int>)
    requires Inv(o) && !Stuck(a, now, o.lastLatch, o.latchFixed)
    ensures CtrlStep(o, a, now, latched) ==
              CtrlStep(o.(latchFixed := true), a, now, latched).(latchFixed := o.latchFixed)
  {
    assert !WantsLatch(o, a, now) && !WantsLatch(o.(latchFixed := true), a, now);
    var (o1, adjust) := ClassBranch(o, a, now, false);
    FirmwareIsIrrelevant(o, a, now, adjust);
    FirmwareIsIrrelevant(o1, a, now, adjust);
  }

  // ----------------------------------------------------- holdover stretch

  /** One holdover step: the class is LOCK or CALIBRATING exactly when the step bumps the
      phase or issues a latch; otherwise it is UNCALIBRATED after a day without fix or straight
      out of calibration, and HOLDOVER in the other cases. TAU only moves with the phase. */
  lemma HoldoverStep(o: Osc, a: Attributes, now: int, latched: Option<int>)
    requires Inv(o) && WantsHoldover(o, a, now)
    ensures
      var o' := CtrlStep(o, a, now, latched);
      var adjust := PhaseBump(o, now) || WantsLatch(o, a, now);
      && ((o'.clockClass.Holdover? || o'.clockClass.Uncalibrated?) <==> !adjust)
      && (!adjust ==>
            o'.clockClass == if o.clockClass.Calibrating? || now - o.gnssLastFix > DAY then Uncalibrated else Holdover)
      && (adjust ==> o'.clockClass == if o'.phase == 0 then Calibrating else Lock)
      && (PhaseBump(o, now) ==> o'.clockClass == Lock)
      && o'.phase == o.phase + (if PhaseBump(o, now) then 1 else 0)
      && o'.start == o.start && o'.gnssLastFix == o.gnssLastFix
      && (o'.phase == o.phase ==> o'.tau == o.tau)
  {
  }

  /** Every reading of the run asks for holdover. */
  ghost predicate HoldoverStretch(o: Osc, es: seq<Event>)
    requires Inv(o)
  {
    forall i :: 0 <= i < |es| && es[i].Reading? ==> WantsHoldover(Run(o, es[..i]), es[i].a, es[i].now)
  }

  ghost predicate BumpAt(o: Osc, es: seq<Event>, i: nat)
    requires Inv(o) && i < |es|
  {
    es[i].Reading? && PhaseBump(Run(o, es[..i]), es[i].now)
  }

  /** The steps of the run at which the phase is bumped. */
  ghost function Bumps(o: Osc, es: seq<Event>): set<nat>
    requires Inv(o)
  {
    set i: nat | i < |es| && BumpAt(o, es, i)
  }

  lemma BumpsPrefix(o: Osc, es: seq<Event>, k: nat)
    requires Inv(o) && |es| == k + 1
    ensures Bumps(o, es) == Bumps(o, es[..k]) + (if BumpAt(o, es, k) then {k} else {})
  {
    var front := es[..k];
    forall i: nat | i < k
      ensures BumpAt(o, es, i) <==> BumpAt(o, front, i)
    {
      assert front[i] == es[i] && front[..i] == es[..i];
    }
  }

  lemma StretchPrefix(o: Osc, es: seq<Event>, k: nat)
    requires Inv(o) && |es| == k + 1 && HoldoverStretch(o, es)
    ensures HoldoverStretch(o, es[..k])
  {
    var front := es[..k];
    forall i | 0 <= i < k && front[i].Reading?
      ensures WantsHoldover(Run(o, front[..i]), front[i].a, front[i].now)
    {
      assert front[i] == es[i] && front[..i] == es[..i];
    }
  }

  lemma {:induction false} BumpsAreCountedByPhase(o: Osc, es: seq<Event>)
    requires Inv(o) && HoldoverStretch(o, es)
    ensures |Bumps(o, es)| == Run(o, es).phase - o.phase
    decreases |es|
  {
    if es == [] {
      assert Bumps(o, es) == {};
    } else {
      var k: nat := |es| - 1;
      StretchPrefix(o, es, k);
      BumpsAreCountedByPhase(o, es[..k]);
      BumpsPrefix(o, es, k);
      PhaseGrows(o, es, k);
    }
  }

  lemma PhaseGrows(o: Osc, es: seq<Event>, k: nat)
    requires Inv(o) && |es| == k + 1 && HoldoverStretch(o, es)
    ensures Run(o, es).phase == Run(o, es[..k]).phase + (if BumpAt(o, es, k) then 1 else 0)
  {
    var e := es[k];
    if e.Reading? {
      HoldoverStep(Run(o, es[..k]), e.a, e.now, e.latched);
    }
  }

  /** What a reading of a stretch shows. */
  ghost predicate ShowsHoldover(o: Osc, es: seq<Event>, i: nat)
    requires Inv(o) && i < |es|
  {
    var c := Run(o, es[..i + 1]).clockClass;
    && ((c.Holdover? || c.Uncalibrated?) <==> !BumpAt(o, es, i))
    && (BumpAt(o, es, i) ==> c.Lock?)
    && (!BumpAt(o, es, i) && es[i].now - Run(o, es[..i]).gnssLastFix > DAY ==> c.Uncalibrated?)
  }

  lemma ReadingShowsHoldover(o: Osc, es: seq<Event>, i: nat)
    requires Inv(o) && o.latchFixed && HoldoverStretch(o, es) && i < |es| && es[i].Reading?
    ensures ShowsHoldover(o, es, i)
  {
    var before, e := Run(o, es[..i]), es[i];
    assert es[..i + 1][..i] == es[..i];
    assert Run(o, es[..i + 1]) == CtrlStep(before, e.a, e.now, e.latched);
    HoldoverStep(before, e.a, e.now, e.latched);
  }

  /** With fixed firmware, in any unbroken stretch of holdover readings the class shows
      HOLDOVER or UNCALIBRATED at all but at most two of them, exactly those that bump the
      phase and show LOCK; and at every other reading more than a day after the last fix it
      shows UNCALIBRATED. */
  lemma HoldoverShowsAtMostTwoLocks(o: Osc, es: seq<Event>)
    requires Inv(o) && o.latchFixed && HoldoverStretch(o, es)
    ensures |Bumps(o, es)| <= 2
    ensures forall i: nat :: i < |es| && es[i].Reading? ==> ShowsHoldover(o, es, i)
  {
    BumpsAreCountedByPhase(o, es);
    forall i: nat | i < |es| && es[i].Reading?
      ensures ShowsHoldover(o, es, i)
    {
      ReadingShowsHoldover(o, es, i);
    }
  }

  /** UNCALIBRATED does not last: within a day of the last fix, a second holdover reading in
      a row shows HOLDOVER although the oscillator was never calibrated. */
  lemma UncalibratedBecomesHoldover(o: Osc, a: Attributes, b: Attributes, t1: int, t2: int,
                                    l1: Option<int>, l2: Option<int>)
    requires Inv(o) && o.latchFixed && o.clockClass.Calibrating?
    requires t1 <= t2 && t2 - o.start <= 600 && t2 - o.gnssLastFix <= DAY
    requires !a.ppsInDetected && !b.ppsInDetected
    ensures CtrlStep(o, a, t1, l1).clockClass == Uncalibrated
    ensures CtrlStep(CtrlStep(o, a, t1, l1), b, t2, l2).clockClass == Holdover
  {
    HoldoverStep(o, a, t1, l1);
    InvStep(o, Reading(t1, a, l1));
    HoldoverStep(CtrlStep(o, a, t1, l1), b, t2, l2);
  }

  // ---------------------------------------------------------------- driver

  /** What one round of the loop that switches disciplining off gets back. */
  datatype SwitchReply = SetFailed | GetFailed | Disciplining(on: bool)

  /** The procedure succeeds exactly when disciplining is seen off at once or within the
      first two rounds, and the latch command itself is accepted. */
  predicate LatchSucceeds(disciplining: bool, replies: nat -> SwitchReply, accepted: bool) {
    && accepted
    && (|| !disciplining
        || replies(0) == Disciplining(false)
        || (replies(0) == Disciplining(true) && replies(1) == Disciplining(false)))
  }

  /** In other words: the command is accepted, and disciplining was off or has been seen off in a
      round that was not the last of the three, after being seen on in every round before. */
  lemma LatchSucceedsIff(disciplining: bool, replies: nat -> SwitchReply, accepted: bool)
    ensures LatchSucceeds(disciplining, replies, accepted) <==>
              && accepted
              && (disciplining ==> exists k: nat :: k + 1 < 3 && replies(k) == Disciplining(false)
                                     && forall j: nat :: j < k ==> replies(j) == Disciplining(true))
  {
    assert replies(0) == Disciplining(false) ==> 0 + 1 < 3;
    if replies(0) == Disciplining(true) && replies(1) == Disciplining(false) {
      assert forall j: nat :: j < 1 ==> replies(j) == Disciplining(true);
    }
  }

  class Oscillator {
    var discipliningPhase: int
    var status: Status
    var clockClass: ClockClass
    var holdoverReady: bool
    var discipliningStart: int
    var gnssLastFix: int
    var macLastLatch: int
    var gnssFixStatus: bool
    var latchFixed: bool
    /** What the last {set,TauPps0,...} command asked for. */
    var tau: int

    function View(): Osc
      reads this
    {
      Osc(clockClass, status, holdoverReady, discipliningPhase, discipliningStart,
          gnssFixStatus, gnssLastFix, macLastLatch, latchFixed, tau)
    }

    ghost predicate Valid()
      reads this
    {
      Inv(View())
    }

    /** sa5x_oscillator_new */
    constructor (now: int, fixedFirmware: bool)
      ensures View() == NewOsc(now, fixedFirmware) && Valid()
    {
      latchFixed := fixedFirmware;
      clockClass, status, holdoverReady := Calibrating, Init, false;
      discipliningPhase, discipliningStart := 0, now;
      gnssFixStatus, gnssLastFix, macLastLatch := false, 0, 0;
      tau := TauValue(0);
    }

    /** sa5x_oscillator_latch: true where the source returns 0. latchTime is the clock when the
        command has been accepted. */
    method Latch(disciplining0: bool, replies: nat -> SwitchReply, accepted: bool, latchTime: int) returns (ok: bool)
      modifies this`macLastLatch
      ensures ok == LatchSucceeds(disciplining0, replies, accepted)
      ensures macLastLatch == if ok then latchTime else old(macLastLatch)
    {
      var retry, disciplining := 3, disciplining0;
      while retry > 0 && disciplining
        invariant 0 <= retry <= 3
        invariant retry == 3 ==> disciplining == disciplining0
        invariant retry == 2 ==> disciplining0 && replies(0) == Disciplining(disciplining)
        invariant retry < 2 ==> disciplining0 && replies(0) == Disciplining(true)
        invariant retry == 1 ==> replies(1) == Disciplining(disciplining)
        invariant retry == 0 ==> replies(1) == Disciplining(true)
      {
        var reply := replies(3 - retry);
        if reply.SetFailed? {
          return false;
        }
        if reply.GetFailed? {
          return false;
        }
        disciplining := reply.on;
        retry := retry - 1;
      }
      if retry == 0 {
        return false;
      }
      if !accepted {
        return false;
      }
      macLastLatch := latchTime;
      return true;
    }

    /** The first part of sa5x_oscillator_get_ctrl: is the tuning stuck, and the latch. */
    method LatchIfStuck(a: Attributes, now: int,
                        disciplining: bool, replies: nat -> SwitchReply, accepted: bool, latchTime: int)
      returns (latch: bool)
      modifies this`macLastLatch
      ensures latch == WantsLatch(old(View()), a, now)
      ensures macLastLatch ==
                if latch && LatchSucceeds(disciplining, replies, accepted) then latchTime else old(macLastLatch)
    {
      latch := false;
      if a.alarms {
        if a.alarm18 && a.lastCorrection == 0 && !latchFixed {
          latch := true;
        }
      } else if a.lastCorrection == 0 && !a.disciplineLocked &&
                (a.digitalTuning == DIGITAL_TUNING_MAX || a.digitalTuning == -DIGITAL_TUNING_MAX) &&
                now - macLastLatch > TauInterval(0) {
        if !latchFixed {
          latch := true;
        }
      }
      if latch {
        var ok := Latch(disciplining, replies, accepted, latchTime);
      }
    }

    /** The second part: holdover, latch or tracking. */
    method UpdateClass(a: Attributes, now: int, latch: bool) returns (adjustTau: bool)
      modifies this
      ensures (View(), adjustTau) == ClassBranch(old(View()), a, now, latch)
    {
      adjustTau := false;
      var holdover := !gnssFixStatus && now - gnssLastFix >= NO_GNSS_FIX_TIMEOUT;
      holdover := holdover || (!a.ppsInDetected || a.alarm17);
      if holdover {
        clockClass := if clockClass == Calibrating || now - gnssLastFix > DAY then Uncalibrated else Holdover;
        status := InHoldover;
      } else if latch {
        clockClass := Uncalibrated;
        status := InHoldover;
      } else {
        if clockClass == Holdover || clockClass == Uncalibrated {
          clockClass := Calibrating;
          status := Tracking;
          discipliningPhase := 0;
          discipliningStart := now;
          adjustTau := true;
        }
        if !a.disciplineLocked {
          discipliningStart := now;
          if clockClass != Calibrating {
            clockClass := Calibrating;
            status := Tracking;
            discipliningPhase := 0;
            adjustTau := true;
          }
        }
      }
    }

    /** The last part: the phase bump and the adjust_tau block. */
    method AdvancePhase(now: int, adjust: bool)
      requires IsPhase(discipliningPhase)
      modifies this
      ensures View() == Advance(old(View()), now, adjust)
    {
      var adjustTau := adjust;
      if discipliningPhase < DISCIPLINING_PHASES - 1 && now - discipliningStart > TauInterval(discipliningPhase) {
        adjustTau := true;
        discipliningPhase := discipliningPhase + 1;
      }
      if adjustTau {
        tau := TauValue(discipliningPhase);
        if discipliningPhase == 0 {
          clockClass := Calibrating;
          status := Tracking;
        } else {
          clockClass := Lock;
          status := Calibration;
        }
        holdoverReady := discipliningPhase == DISCIPLINING_PHASES - 1;
      }
    }

    /** sa5x_oscillator_get_ctrl after the attributes were read. */
    method GetCtrl(a: Attributes, now: int,
                   disciplining: bool, replies: nat -> SwitchReply, accepted: bool, latchTime: int)
      requires Valid()
      modifies this
      ensures Valid()
      ensures View() == CtrlStep(old(View()), a, now,
                                 if LatchSucceeds(disciplining, replies, accepted) then Some(latchTime) else None)
    {
      ghost var latched := if LatchSucceeds(disciplining, replies, accepted) then Some(latchTime) else None;
      InvStep(View(), Reading(now, a, latched));
      var latch := LatchIfStuck(a, now, disciplining, replies, accepted, latchTime);
      var adjustTau := UpdateClass(a, now, latch);
      AdvancePhase(now, adjustTau || latch);
    }

    /** sa5x_oscillator_push_gnss_info */
    method PushGnssInfo(now: int, fixOk: bool, haveTime: bool)
      requires Valid()
      modifies this
      ensures Valid() && View() == Step(old(View()), GnssInfo(now, fixOk, haveTime))
    {
      gnssFixStatus := fixOk;
      if fixOk && haveTime {
        gnssLastFix := now;
      }
    }
  }
}
