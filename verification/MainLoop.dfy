/** The main loop of src/oscillatord.c in disciplining mode: splitting phase errors into
    timespecs, discarding a reading after a phase jump, and the request mailbox. What the
    devices answer and what the disciplining algorithm decides are inputs of each turn. */
module MainLoop {
  import opened Common
  import opened Timespec

  // ------------------------------------------------------- phase jumps

  /** The offset apply_phase_offset hands to clock_adjtime. */
  function JumpOf(phaseError: int): Ts {
    var plain := phaseError > 0 || TruncMod(phaseError, NS_IN_SEC) == 0;
    Ts(if plain then TruncDiv(phaseError, NS_IN_SEC) else TruncDiv(phaseError, NS_IN_SEC) - 1,
       if plain then TruncMod(phaseError, NS_IN_SEC) else TruncMod(phaseError, NS_IN_SEC) + NS_IN_SEC)
  }

  /** The kernel wants a nanosecond field in [0, 10^9): the split has one, loses nothing, and
      is the only such split. */
  lemma JumpIsExact(phaseError: int, t: Ts)
    ensures 0 <= JumpOf(phaseError).nsec < NS_IN_SEC && Nanos(JumpOf(phaseError)) == phaseError
    ensures 0 <= t.nsec < NS_IN_SEC && Nanos(t) == phaseError ==> t == JumpOf(phaseError)
  {
    var j := JumpOf(phaseError);
    assert Nanos(j) == phaseError;
    if 0 <= t.nsec < NS_IN_SEC && Nanos(t) == phaseError {
      assert (t.sec - j.sec) * NS_IN_SEC == j.nsec - t.nsec;
    }
  }

  // ------------------------------------------------------------- data

  /** enum monitoring_request, and the values outside of it that an int may hold. */
  datatype Request =
    | NoRequest | Calibration | GnssStart | GnssStop | GnssSoft | GnssHard | GnssCold
    | ReadEeprom | SaveEeprom | FakeHoldoverStart | FakeHoldoverStop
    | MroCoarseInc | MroCoarseDec | ResetUbloxSerial
    | OutOfRange(value: int)

  datatype Epoch = Epoch(valid: bool, surveyCompleted: bool, qErr: int)
  datatype Attributes = Attributes(temperature: real, locked: bool)
  datatype Parsed = Known(attr: Attributes) | NotSupported | Unreadable
  datatype Ctrl = Ctrl(fine: nat, coarse: nat)

  /** struct od_input */
  datatype OdInput = OdInput(
    phasemeterStatus: int, coarse: nat, fine: nat, temperature: real, lock: bool,
    phaseError: Ts, valid: bool, surveyCompleted: bool, qErr: int, calibrationRequested: bool)

  const EMPTY: OdInput := OdInput(0, 0, 0, 0.0, false, Ts(0, 0), false, false, 0, false)

  /** What od_process answers, and whether carrying it out succeeds. */
  datatype Verdict =
    | ProcessFails
    | PhaseJump(value: int, applied: bool)
    | Calibrate(hasResults: bool)
    | OtherAction

  /** What one turn of the loop meets. */
  datatype Turn = Turn(
    phaseError: int, status: int, epoch: Option<Epoch>, parsed: Parsed, ctrl: Option<Ctrl>, verdict: Verdict)

  /** The visible effects of the loop, in order. */
  datatype Entry =
    | Call(seen: OdInput, turn: Turn, jump: Option<Ts>)
    | Discarded
    | Taken(request: Request)

  datatype Event = Post(request: Request) | Iterate(turn: Turn)

  datatype State = State(calibration: bool, ignore: bool, fake: bool, slot: Request, running: bool)

  /** The main loop is entered; the slot holds whatever monitoring_init left there. */
  function Start(slot: Request): State {
    State(false, false, false, slot, true)
  }

  /** A turn whose attributes and control values could be read. */
  predicate Complete(t: Turn) {
    t.epoch.Some? && !t.parsed.Unreadable? && t.ctrl.Some?
  }

  /** json_handle_request leaves the slot alone for these. */
  predicate Ignored(r: Request) {
    r.NoRequest? || r.ReadEeprom? || r.OutOfRange?
  }

  function AttributesOf(p: Parsed): Attributes
    requires !p.Unreadable?
  {
    if p.Known? then p.attr else Attributes(0.0, false)
  }

  /** The input of the algorithm for one complete turn. */
  function Seen(sign: int, t: Turn, calibration: bool, fake: bool): OdInput
    requires Complete(t)
  {
    var a, c, e := AttributesOf(t.parsed), t.ctrl.value, t.epoch.value;
    OdInput(t.status, c.coarse, c.fine, a.temperature, a.locked,
            Ts(TruncDiv(sign * t.phaseError, NS_IN_SEC), TruncMod(sign * t.phaseError, NS_IN_SEC)),
            e.valid && !fake, e.surveyCompleted, e.qErr, calibration)
  }

  /** What the algorithm must be given: the readings of the turn, field by field, with the phase
      error normalised and exact, and the two flags. */
  predicate Carries(seen: OdInput, sign: int, t: Turn, calibration: bool, fake: bool)
    requires Complete(t)
  {
    && seen.phasemeterStatus == t.status
    && seen.fine == t.ctrl.value.fine && seen.coarse == t.ctrl.value.coarse
    && (t.parsed.Known? ==> seen.temperature == t.parsed.attr.temperature && seen.lock == t.parsed.attr.locked)
    && (t.parsed.NotSupported? ==> seen.temperature == 0.0 && !seen.lock)
    && Normal(seen.phaseError) && Nanos(seen.phaseError) == sign * t.phaseError
    && (seen.valid <==> t.epoch.value.valid && !fake)
    && seen.surveyCompleted == t.epoch.value.surveyCompleted && seen.qErr == t.epoch.value.qErr
    && seen.calibrationRequested == calibration
  }

  /** Whether the loop goes on after what the algorithm asked for. */
  predicate Survives(v: Verdict) {
    match v
    case ProcessFails => false
    case PhaseJump(_, applied) => applied
    case Calibrate(hasResults) => hasResults
    case OtherAction => true
  }

  function JumpDone(v: Verdict): Option<Ts> {
    if v.PhaseJump? && v.applied then Some(JumpOf(-v.value)) else None
  }

  /** The clock is set exactly for a jump that was asked for and could be applied: by the
      negated value, split as the kernel wants it. */
  predicate JumpsRight(v: Verdict, jump: Option<Ts>) {
    && (jump.Some? <==> v.PhaseJump? && v.applied)
    && (jump.Some? ==> Nanos(jump.value) == -v.value && 0 <= jump.value.nsec < NS_IN_SEC)
  }

  /** The verdicts that end the loop. */
  predicate Fatal(v: Verdict) {
    v.ProcessFails? || (v.PhaseJump? && !v.applied) || (v.Calibrate? && !v.hasResults)
  }

  /** The request handling at the end of a turn. */
  function TakeRequest(s: State): State {
    s.(slot := NoRequest,
       calibration := s.calibration || s.slot.Calibration?,
       fake := s.slot.FakeHoldoverStart? || (s.fake && !s.slot.FakeHoldoverStop?))
  }

  function Step(sign: int, monitoring: bool, s: State, t: Turn): (r: (State, seq<Entry>)) {
    if t.epoch.None? then (s.(running := false), [])
    else if !Complete(t) then (s, [])
    else if s.ignore then (s.(ignore := false), [Discarded])
    else
      var call := Call(Seen(sign, t, s.calibration, s.fake), t, JumpDone(t.verdict));
      var after := s.(calibration := false, ignore := call.jump.Some?);
      if !Survives(t.verdict) then (s.(calibration := false, running := false), [call])
      else if monitoring then (TakeRequest(after), [call, Taken(s.slot)])
      else (after, [call])
  }

  /** The loop and the monitoring thread, if there is one; a request can be posted between any
      two turns. */
  function EventStep(sign: int, monitoring: bool, s: State, e: Event): (State, seq<Entry>) {
    match e
    case Post(r) => (if monitoring && !Ignored(r) then s.(slot := r) else s, [])
    case Iterate(t) => if s.running then Step(sign, monitoring, s, t) else (s, [])
  }

  function Run(sign: int, monitoring: bool, slot: Request, events: seq<Event>): (State, seq<Entry>)
    decreases |events|
  {
    if events == [] then (Start(slot), [])
    else
      var n := |events| - 1;
      var before := Run(sign, monitoring, slot, events[..n]);
      var after := EventStep(sign, monitoring, before.0, events[n]);
      (after.0, before.1 + after.1)
  }

  // -------------------------------------------------- what a run promises

  /** The last call in the log, or -1. */
  function LastCall(log: seq<Entry>): (c: int)
    ensures c == -1 || (0 <= c < |log| && log[c].Call?)
    ensures forall k :: c < k < |log| ==> !log[k].Call?
    decreases |log|
  {
    if log == [] then -1
    else if log[|log| - 1].Call? then |log| - 1
    else LastCall(log[..|log| - 1])
  }

  lemma LastCallIs(log: seq<Entry>, c: nat)
    requires c < |log| && log[c].Call?
    requires forall k :: c < k < |log| ==> !log[k].Call?
    ensures LastCall(log) == c
  {
  }

  /** Fake holdover is on when the last start or stop taken was a start. */
  predicate FakeAfter(log: seq<Entry>)
    decreases |log|
  {
    if log == [] then false
    else
      var n := |log| - 1;
      if log[n] == Taken(FakeHoldoverStart) then true
      else if log[n] == Taken(FakeHoldoverStop) then false
      else FakeAfter(log[..n])
  }

  /** What the log holds after the call at c: the request taken at the end of that turn, and
      one discarded reading if the call made the clock jump. */
  ghost predicate SinceCall(monitoring: bool, log: seq<Entry>, c: nat, discarded: bool)
    requires c < |log| && log[c].Call?
  {
    if monitoring then
      |log| > c + 1 && log[c + 1].Taken? && log[c + 2..] == (if discarded then [Discarded] else [])
    else
      log[c + 1..] == (if discarded then [Discarded] else [])
  }

  /** Whether the request taken after the call at c asks for a calibration. */
  predicate AskedSince(monitoring: bool, log: seq<Entry>, c: int) {
    monitoring && 0 <= c < |log| - 1 && log[c + 1] == Taken(Calibration)
  }

  /** A call, given everything logged before it. */
  ghost predicate RightCall(sign: int, monitoring: bool, before: seq<Entry>, call: Entry)
    requires call.Call?
  {
    var p := LastCall(before);
    && Complete(call.turn)
    && Carries(call.seen, sign, call.turn, AskedSince(monitoring, before, p), FakeAfter(before))
    && JumpsRight(call.turn.verdict, call.jump)
    && (p == -1 ==> before == [])
    && (p >= 0 ==> !Fatal(before[p].turn.verdict))
    && (p >= 0 ==> SinceCall(monitoring, before, p, before[p].jump.Some?))
  }

  ghost predicate RightLog(sign: int, monitoring: bool, log: seq<Entry>) {
    forall i :: 0 <= i < |log| && log[i].Call? ==> RightCall(sign, monitoring, log[..i], log[i])
  }

  /** The state holds just what the log since the last call says, and no call was fatal. */
  ghost predicate Inv(monitoring: bool, s: State, log: seq<Entry>) {
    var c := LastCall(log);
    && (c >= 0 ==> !Fatal(log[c].turn.verdict))
    && s.fake == FakeAfter(log)
    && s.calibration == AskedSince(monitoring, log, c)
    && (c == -1 ==> log == [] && !s.ignore)
    && (c >= 0 ==>
         && (s.ignore ==> log[c].jump.Some?)
         && SinceCall(monitoring, log, c, log[c].jump.Some? && !s.ignore))
  }

  lemma FakeUnchanged(log: seq<Entry>, e: Entry)
    ensures FakeAfter(log + [e]) ==
              if e == Taken(FakeHoldoverStart) then true
              else if e == Taken(FakeHoldoverStop) then false
              else FakeAfter(log)
  {
    assert (log + [e])[..|log|] == log;
  }

  lemma RightLogSnoc(sign: int, monitoring: bool, log: seq<Entry>, e: Entry)
    requires RightLog(sign, monitoring, log)
    requires e.Call? ==> RightCall(sign, monitoring, log, e)
    ensures RightLog(sign, monitoring, log + [e])
  {
    var more := log + [e];
    forall i | 0 <= i < |more| && more[i].Call?
      ensures RightCall(sign, monitoring, more[..i], more[i])
    {
      assert more[..i] == log[..i];
      if i == |log| {
        assert log[..i] == log;
      }
    }
  }

  /** Logging anything but a call. */
  lemma OtherLogged(sign: int, monitoring: bool, log: seq<Entry>, e: Entry)
    requires RightLog(sign, monitoring, log) && !e.Call?
    ensures RightLog(sign, monitoring, log + [e])
    ensures LastCall(log + [e]) == LastCall(log)
    ensures FakeAfter(log + [e]) == if e == Taken(FakeHoldoverStart) then true
                                    else if e == Taken(FakeHoldoverStop) then false
                                    else FakeAfter(log)
  {
    assert (log + [e])[..|log|] == log;
    RightLogSnoc(sign, monitoring, log, e);
    FakeUnchanged(log, e);
  }

  lemma DiscardKeeps(sign: int, monitoring: bool, s: State, log: seq<Entry>)
    requires Inv(monitoring, s, log) && RightLog(sign, monitoring, log) && s.ignore
    ensures Inv(monitoring, s.(ignore := false), log + [Discarded])
    ensures RightLog(sign, monitoring, log + [Discarded])
  {
    var more, c := log + [Discarded], LastCall(log);
    OtherLogged(sign, monitoring, log, Discarded);
    if monitoring {
      assert more[c + 2..] == log[c + 2..] + [Discarded];
    } else {
      assert more[c + 1..] == log[c + 1..] + [Discarded];
    }
  }

  /** Logging a call. */
  lemma CallLogged(sign: int, monitoring: bool, log: seq<Entry>, call: Entry)
    requires RightLog(sign, monitoring, log) && call.Call? && RightCall(sign, monitoring, log, call)
    ensures RightLog(sign, monitoring, log + [call])
    ensures FakeAfter(log + [call]) == FakeAfter(log)
    ensures LastCall(log + [call]) == |log|
  {
    RightLogSnoc(sign, monitoring, log, call);
    FakeUnchanged(log, call);
  }

  /** What the loop is left with after a call that it survives. */
  function AfterCall(monitoring: bool, s: State, call: Entry): (State, seq<Entry>)
    requires call.Call?
  {
    var after := s.(calibration := false, ignore := call.jump.Some?);
    if monitoring then (TakeRequest(after), [call, Taken(s.slot)]) else (after, [call])
  }

  lemma CallAndRequestInv(s: State, c: nat, call: Entry, more: seq<Entry>)
    requires |more| == c + 2 && call.Call? && !Fatal(call.turn.verdict)
    requires more[c] == call && more[c + 1] == Taken(s.slot)
    requires LastCall(more) == c && FakeAfter(more) == AfterCall(true, s, call).0.fake
    ensures Inv(true, AfterCall(true, s, call).0, more)
  {
    assert more[c + 2..] == [];
  }

  lemma CallAndRequestLogged(sign: int, log: seq<Entry>, call: Entry, r: Request)
    requires RightLog(sign, true, log) && call.Call? && RightCall(sign, true, log, call)
    ensures
      var more := (log + [call]) + [Taken(r)];
      && RightLog(sign, true, more) && LastCall(more) == |log|
      && FakeAfter(more) == (r.FakeHoldoverStart? || (FakeAfter(log) && !r.FakeHoldoverStop?))
  {
    CallLogged(sign, true, log, call);
    OtherLogged(sign, true, log + [call], Taken(r));
  }

  lemma CallAndRequestKeeps(sign: int, s: State, log: seq<Entry>, call: Entry, more: seq<Entry>)
    requires RightLog(sign, true, log) && call.Call? && RightCall(sign, true, log, call)
    requires !Fatal(call.turn.verdict)
    requires s.fake == FakeAfter(log) && more == (log + [call]) + [Taken(s.slot)]
    ensures Inv(true, AfterCall(true, s, call).0, more)
    ensures RightLog(sign, true, more)
  {
    CallAndRequestLogged(sign, log, call, s.slot);
    assert AfterCall(true, s, call).0.fake == (s.slot.FakeHoldoverStart? || (s.fake && !s.slot.FakeHoldoverStop?));
    CallAndRequestInv(s, |log|, call, more);
  }

  lemma AfterCallKeeps(sign: int, monitoring: bool, s: State, log: seq<Entry>, call: Entry)
    requires RightLog(sign, monitoring, log) && call.Call? && RightCall(sign, monitoring, log, call)
    requires s.fake == FakeAfter(log) && !Fatal(call.turn.verdict)
    ensures Inv(monitoring, AfterCall(monitoring, s, call).0, log + AfterCall(monitoring, s, call).1)
    ensures RightLog(sign, monitoring, log + AfterCall(monitoring, s, call).1)
  {
    if monitoring {
      CallAndRequestKeeps(sign, s, log, call, log + [call, Taken(s.slot)]);
    } else {
      CallLogged(sign, monitoring, log, call);
    }
  }

  lemma CallKeeps(sign: int, monitoring: bool, s: State, log: seq<Entry>, t: Turn)
    requires Good(sign, monitoring, s, log) && s.running && !s.ignore
    ensures Complete(t) ==> Good(sign, monitoring, Step(sign, monitoring, s, t).0, log + Step(sign, monitoring, s, t).1)
  {
    if !Complete(t) {
      return;
    }
    var call := Call(Seen(sign, t, s.calibration, s.fake), t, JumpDone(t.verdict));
    SeenCarries(sign, t, s.calibration, s.fake);
    JumpDoneIsRight(t.verdict);
    assert RightCall(sign, monitoring, log, call);
    if Survives(t.verdict) {
      AfterCallKeeps(sign, monitoring, s, log, call);
      assert Step(sign, monitoring, s, t) == AfterCall(monitoring, s, call);
    } else {
      CallLogged(sign, monitoring, log, call);
    }
  }

  ghost predicate Good(sign: int, monitoring: bool, s: State, log: seq<Entry>) {
    RightLog(sign, monitoring, log) && (s.running ==> Inv(monitoring, s, log))
  }

  lemma TurnGood(sign: int, monitoring: bool, s: State, log: seq<Entry>, t: Turn)
    requires Good(sign, monitoring, s, log) && s.running
    ensures Good(sign, monitoring, Step(sign, monitoring, s, t).0, log + Step(sign, monitoring, s, t).1)
  {
    if !Complete(t) {
      assert log + [] == log;
    } else if s.ignore {
      DiscardKeeps(sign, monitoring, s, log);
    } else {
      CallKeeps(sign, monitoring, s, log, t);
    }
  }

  /** In every run: each call of od_process sees its own turn's readings, with the phase error
      split exactly; it sees a calibration request exactly when the one request taken since the
      previous call is one, and never on the first call; a valid fix is hidden exactly while
      fake holdover is on; and between two calls exactly one complete reading is discarded
      when the first made the clock jump, and none otherwise. */
  lemma {:induction false} CallsAreRight(sign: int, monitoring: bool, slot: Request, events: seq<Event>)
    ensures Good(sign, monitoring, Run(sign, monitoring, slot, events).0, Run(sign, monitoring, slot, events).1)
    decreases |events|
  {
    if events != [] {
      var n := |events| - 1;
      CallsAreRight(sign, monitoring, slot, events[..n]);
      var before := Run(sign, monitoring, slot, events[..n]);
      assert before.1 + [] == before.1;
      if events[n].Iterate? && before.0.running {
        TurnGood(sign, monitoring, before.0, before.1, events[n].turn);
      }
    }
  }

  /** The same, spelled out for two consecutive calls with monitoring on. */
  lemma BetweenCalls(sign: int, slot: Request, events: seq<Event>, p: nat, i: nat)
    requires p < i < |Run(sign, true, slot, events).1|
    requires Run(sign, true, slot, events).1[p].Call? && Run(sign, true, slot, events).1[i].Call?
    requires forall k :: p < k < i ==> !Run(sign, true, slot, events).1[k].Call?
    ensures
      var log := Run(sign, true, slot, events).1;
      && log[p + 1].Taken?
      && log[p + 1..i] == [log[p + 1]] + (if log[p].jump.Some? then [Discarded] else [])
      && (log[i].seen.calibrationRequested <==> log[p + 1] == Taken(Calibration))
  {
    CallsAreRight(sign, true, slot, events);
    BetweenCallsInLog(sign, Run(sign, true, slot, events).1, p, i);
  }

  lemma BetweenCallsInLog(sign: int, log: seq<Entry>, p: nat, i: nat)
    requires RightLog(sign, true, log) && p < i < |log| && log[p].Call? && log[i].Call?
    requires forall k :: p < k < i ==> !log[k].Call?
    ensures log[p + 1].Taken?
    ensures log[p + 1..i] == [log[p + 1]] + (if log[p].jump.Some? then [Discarded] else [])
    ensures log[i].seen.calibrationRequested <==> log[p + 1] == Taken(Calibration)
  {
    LastCallIs(log[..i], p);
    assert RightCall(sign, true, log[..i], log[i]);
    assert log[p + 1..i] == [log[p + 1]] + log[..i][p + 2..];
  }

  /** The input built for a turn carries its readings. */
  lemma SeenCarries(sign: int, t: Turn, calibration: bool, fake: bool)
    requires Complete(t)
    ensures Carries(Seen(sign, t, calibration, fake), sign, t, calibration, fake)
  {
    assert Seen(sign, t, calibration, fake).phaseError == OfNanos(sign * t.phaseError);
  }

  lemma JumpDoneIsRight(v: Verdict)
    ensures JumpsRight(v, JumpDone(v))
  {
    if v.PhaseJump? {
      JumpIsExact(-v.value, JumpOf(-v.value));
    }
  }

  /** The loop ends in a turn exactly when the receiver gives no data, or the algorithm is called
      and fails, or its jump or calibration does; and it calls the algorithm in exactly those
      complete turns that it does not discard. */
  lemma EndsIff(sign: int, monitoring: bool, s: State, t: Turn)
    requires s.running
    ensures
      var (s', log) := Step(sign, monitoring, s, t);
      var called := Complete(t) && !s.ignore;
      && (!s'.running <==> t.epoch.None? || (called && Fatal(t.verdict)))
      && (called <==> log != [] && log[0].Call?)
      && (called ==> log[0].turn == t)
      && (!called ==> s'.slot == s.slot && s'.calibration == s.calibration && s'.fake == s.fake)
  {
  }

  /** Once the loop has ended nothing more is called, taken or discarded. */
  lemma EndIsFinal(sign: int, monitoring: bool, s: State, t: Turn)
    requires !s.running
    ensures EventStep(sign, monitoring, s, Iterate(t)) == (s, [])
  {
  }

  /** Each request the monitoring thread can post reaches the slot, except the EEPROM read, which
      it answers itself. */
  lemma PostsReachTheSlot(sign: int, s: State, r: Request)
    ensures EventStep(sign, true, s, Post(r)).0 ==
              s.(slot := if r == NoRequest || r == ReadEeprom || r.OutOfRange? then s.slot else r)
    ensures EventStep(sign, false, s, Post(r)).0 == s
  {
  }

  // --------------------------------------------------------- the mailbox

  /** a can be had from b by leaving elements out. */
  predicate Subsequence(a: seq<Request>, b: seq<Request>)
    decreases |b|
  {
    if a == [] then true
    else if b == [] then false
    else
      var m, n := |a| - 1, |b| - 1;
      (a[m] == b[n] && Subsequence(a[..m], b[..n])) || Subsequence(a, b[..n])
  }

  lemma SubsequenceGrows(a: seq<Request>, b: seq<Request>, x: Request)
    requires Subsequence(a, b)
    ensures Subsequence(a, b + [x]) && Subsequence(a + [x], b + [x])
  {
    assert (b + [x])[..|b|] == b && (a + [x])[..|a|] == a;
  }

  /** What happens to the slot: a request is put there, or the loop empties it. */
  datatype Mail = Put(request: Request) | Take

  function MailOf(monitoring: bool, e: Event, entries: seq<Entry>): seq<Mail> {
    match e
    case Post(r) => if monitoring && !Ignored(r) then [Put(r)] else []
    case Iterate(_) => if entries != [] && entries[|entries| - 1].Taken? then [Take] else []
  }

  /** The history of the slot in a run. */
  function Mailbox(sign: int, monitoring: bool, slot: Request, events: seq<Event>): seq<Mail>
    decreases |events|
  {
    if events == [] then []
    else
      var n := |events| - 1;
      var before := Run(sign, monitoring, slot, events[..n]);
      Mailbox(sign, monitoring, slot, events[..n])
      + MailOf(monitoring, events[n], EventStep(sign, monitoring, before.0, events[n]).1)
  }

  /** All requests that were put into the slot. */
  function Posted(mail: seq<Mail>): seq<Request>
    decreases |mail|
  {
    if mail == [] then []
    else
      var n := |mail| - 1;
      Posted(mail[..n]) + (if mail[n].Put? then [mail[n].request] else [])
  }

  /** Those of them that were not overwritten: the slot was emptied before the next request was
      put there, or none was; putNext says that a request follows the given history. */
  function Kept(mail: seq<Mail>, putNext: bool): seq<Request>
    decreases |mail|
  {
    if mail == [] then []
    else
      var n := |mail| - 1;
      Kept(mail[..n], mail[n].Put?) + (if mail[n].Put? && !putNext then [mail[n].request] else [])
  }

  lemma KeptSnoc(mail: seq<Mail>, m: Mail)
    ensures Kept(mail + [m], true) == Kept(mail, m.Put?)
    ensures Kept(mail + [m], false) == Kept(mail, m.Put?) + (if m.Put? then [m.request] else [])
    ensures Posted(mail + [m]) == Posted(mail) + (if m.Put? then [m.request] else [])
  {
    assert (mail + [m])[..|mail|] == mail;
    assert Kept(mail, m.Put?) + [] == Kept(mail, m.Put?);
  }

  lemma {:induction false} KeptIsSubsequence(mail: seq<Mail>, putNext: bool)
    ensures Subsequence(Kept(mail, putNext), Posted(mail))
    decreases |mail|
  {
    if mail != [] {
      var n := |mail| - 1;
      KeptIsSubsequence(mail[..n], mail[n].Put?);
      if mail[n].Put? {
        SubsequenceGrows(Kept(mail[..n], true), Posted(mail[..n]), mail[n].request);
      }
      assert Kept(mail[..n], mail[n].Put?) + [] == Kept(mail[..n], mail[n].Put?);
      assert Posted(mail[..n]) + [] == Posted(mail[..n]);
    }
  }

  function Waiting(slot: Request): seq<Request> {
    if slot.NoRequest? then [] else [slot]
  }

  /** The requests the loop acted on. */
  function Acted(log: seq<Entry>): seq<Request>
    decreases |log|
  {
    if log == [] then []
    else
      var n := |log| - 1;
      Acted(log[..n]) + (if log[n].Taken? then Waiting(log[n].request) else [])
  }

  lemma ActedSnoc(log: seq<Entry>, e: Entry)
    ensures Acted(log + [e]) == Acted(log) + (if e.Taken? then Waiting(e.request) else [])
  {
    assert (log + [e])[..|log|] == log;
  }

  lemma ActedOnEntries(log: seq<Entry>, e: seq<Entry>, r: Request)
    requires e == [] || e == [Discarded] || (|e| == 1 && e[0].Call?) || (|e| == 2 && e[0].Call? && e[1] == Taken(r))
    ensures Acted(log + e) == Acted(log) + (if |e| == 2 then Waiting(r) else [])
  {
    assert Acted(log) + [] == Acted(log);
    if |e| == 0 {
      assert log + e == log;
    } else {
      ActedSnoc(log, e[0]);
      if |e| == 1 {
        assert e == [e[0]];
      } else {
        ActedSnoc(log + [e[0]], e[1]);
        assert log + e == (log + [e[0]]) + [e[1]];
      }
    }
  }

  /** A turn empties the slot and acts on what was in it, or does neither. */
  lemma StepMailbox(sign: int, monitoring: bool, s: State, log: seq<Entry>, t: Turn)
    ensures
      var r := Step(sign, monitoring, s, t);
      if MailOf(monitoring, Iterate(t), r.1) == [Take] then
        r.0.slot == NoRequest && Acted(log + r.1) == Acted(log) + Waiting(s.slot)
      else
        MailOf(monitoring, Iterate(t), r.1) == [] && r.0.slot == s.slot && Acted(log + r.1) == Acted(log)
  {
    assert Acted(log) + [] == Acted(log);
    ActedOnEntries(log, Step(sign, monitoring, s, t).1, s.slot);
  }

  /** Every request that was not overwritten has been acted on, in order, or is still waiting. */
  ghost predicate MailboxOk(s: State, log: seq<Entry>, mail: seq<Mail>) {
    Acted(log) + Waiting(s.slot) == Kept(mail, false) && Acted(log) == Kept(mail, true)
  }

  lemma EventMailbox(sign: int, monitoring: bool, s: State, log: seq<Entry>, mail: seq<Mail>, e: Event)
    requires MailboxOk(s, log, mail)
    ensures
      var r := EventStep(sign, monitoring, s, e);
      MailboxOk(r.0, log + r.1, mail + MailOf(monitoring, e, r.1))
  {
    var acted := Acted(log);
    assert log + [] == log && mail + [] == mail && acted + [] == acted;
    match e
    case Post(r) =>
      KeptSnoc(mail, Put(r));
    case Iterate(t) =>
      KeptSnoc(mail, Take);
      assert Kept(mail, false) + [] == Kept(mail, false);
      StepMailbox(sign, monitoring, s, log, t);
  }

  /** What the slot held at the start, as if it had been put there before the run. */
  function Initially(slot: Request): seq<Mail> {
    if slot.NoRequest? then [] else [Put(slot)]
  }

  /** The first thing that happens to the slot is that a request is put there. */
  predicate PutFirst(mail: seq<Mail>) {
    mail != [] && mail[0].Put?
  }

  ghost predicate MailboxKept(sign: int, monitoring: bool, slot: Request, events: seq<Event>) {
    var (s, log) := Run(sign, monitoring, slot, events);
    MailboxOk(s, log, Initially(slot) + Mailbox(sign, monitoring, slot, events))
  }

  lemma MailboxStep(sign: int, monitoring: bool, slot: Request, events: seq<Event>)
    requires events != [] && MailboxKept(sign, monitoring, slot, events[..|events| - 1])
    ensures MailboxKept(sign, monitoring, slot, events)
  {
    var front, e := events[..|events| - 1], events[|events| - 1];
    var before, mail := Run(sign, monitoring, slot, front), Mailbox(sign, monitoring, slot, front);
    EventMailbox(sign, monitoring, before.0, before.1, Initially(slot) + mail, e);
    AssocMail(Initially(slot), mail, MailOf(monitoring, e, EventStep(sign, monitoring, before.0, e).1));
  }

  lemma AssocMail(a: seq<Mail>, b: seq<Mail>, c: seq<Mail>)
    ensures (a + b) + c == a + (b + c)
  {
  }

  lemma {:induction false} MailboxRun(sign: int, monitoring: bool, slot: Request, events: seq<Event>)
    ensures MailboxKept(sign, monitoring, slot, events)
    decreases |events|
  {
    if events == [] {
      MailboxAtStart(sign, monitoring, slot);
    } else {
      MailboxRun(sign, monitoring, slot, events[..|events| - 1]);
      MailboxStep(sign, monitoring, slot, events);
    }
  }

  lemma MailboxAtStart(sign: int, monitoring: bool, slot: Request)
    ensures MailboxKept(sign, monitoring, slot, [])
  {
    assert Initially(slot) + [] == Initially(slot);
  }

  /** What was in the slot at the start counts as one more request, unless one is put over it. */
  lemma {:induction false} KeptFromStart(r: Request, mail: seq<Mail>, putNext: bool)
    ensures Kept([Put(r)] + mail, putNext) ==
              (if PutFirst(mail) || (mail == [] && putNext) then [] else [r]) + Kept(mail, putNext)
    decreases |mail|
  {
    var all := [Put(r)] + mail;
    if mail == [] {
      assert all == [Put(r)] && all[..0] == [];
    } else {
      var n := |mail| - 1;
      assert all[..|all| - 1] == [Put(r)] + mail[..n];
      KeptFromStart(r, mail[..n], mail[n].Put?);
      var head := if PutFirst(mail) then [] else [r];
      var last := if mail[n].Put? && !putNext then [mail[n].request] else [];
      assert (head + Kept(mail[..n], mail[n].Put?)) + last == head + (Kept(mail[..n], mail[n].Put?) + last);
    }
  }

  /** Of a slot with the given contents at the start and the given history: seen are exactly the
      requests that were not posted over before they were taken, each once and in the order in
      which they were posted, except that what the slot held at the start comes first. So all
      of them were posted exactly when the slot was empty then, or was posted over before it
      was first taken. */
  ghost predicate OnceEach(seen: seq<Request>, slot: Request, mail: seq<Mail>) {
    && seen == (if slot.NoRequest? || PutFirst(mail) then [] else [slot]) + Kept(mail, false)
    && (seen == Kept(mail, false) <==> slot.NoRequest? || PutFirst(mail))
    && Subsequence(Kept(mail, false), Posted(mail))
  }

  lemma KeptMeansOnceEach(slot: Request, mail: seq<Mail>)
    ensures OnceEach(Kept(Initially(slot) + mail, false), slot, mail)
  {
    KeptIsSubsequence(mail, false);
    if slot.NoRequest? {
      assert Initially(slot) + mail == mail;
    } else {
      KeptFromStart(slot, mail, false);
    }
  }

  /** No request is lost unless another one is posted over it before the loop takes it, and none
      is acted on that was not posted, except what the slot held at the start. */
  lemma RequestsAreActedOnOnce(sign: int, monitoring: bool, slot: Request, events: seq<Event>)
    ensures
      var (s, log) := Run(sign, monitoring, slot, events);
      OnceEach(Acted(log) + Waiting(s.slot), slot, Mailbox(sign, monitoring, slot, events))
  {
    MailboxRun(sign, monitoring, slot, events);
    KeptMeansOnceEach(slot, Mailbox(sign, monitoring, slot, events));
  }

  lemma RunSnoc(sign: int, monitoring: bool, slot: Request, events: seq<Event>, e: Event)
    ensures
      var before := Run(sign, monitoring, slot, events);
      var r := EventStep(sign, monitoring, before.0, e);
      && Run(sign, monitoring, slot, events + [e]) == (r.0, before.1 + r.1)
      && Mailbox(sign, monitoring, slot, events + [e]) ==
         Mailbox(sign, monitoring, slot, events) + MailOf(monitoring, e, r.1)
  {
    assert (events + [e])[..|events|] == events;
  }

  /** A turn in which the algorithm is called and nothing else happens. */
  lemma PlainTurn(sign: int, s: State, t: Turn)
    requires Complete(t) && t.verdict.OtherAction? && !s.ignore
    ensures
      var r := Step(sign, true, s, t);
      && r.1 == [Call(Seen(sign, t, s.calibration, s.fake), t, None), Taken(s.slot)]
      && r.0.running == s.running && !r.0.ignore && r.0.slot == NoRequest
      && r.0.calibration == s.slot.Calibration?
      && MailOf(true, Iterate(t), r.1) == [Take]
  {
  }

  /** The other case occurs: a calibration that nobody posted reaches the algorithm. */
  lemma UnpostedCalibration(sign: int, t: Turn, u: Turn)
    requires Complete(t) && Complete(u) && t.verdict.OtherAction? && u.verdict.OtherAction?
    ensures Posted(Mailbox(sign, true, Calibration, [Iterate(t), Iterate(u)])) == []
    ensures
      var log := Run(sign, true, Calibration, [Iterate(t), Iterate(u)]).1;
      |log| == 4 && log[1] == Taken(Calibration) && log[2].Call? && log[2].seen.calibrationRequested
  {
    var s1 := Step(sign, true, Start(Calibration), t).0;
    PlainTurn(sign, Start(Calibration), t);
    PlainTurn(sign, s1, u);
    RunSnoc(sign, true, Calibration, [], Iterate(t));
    RunSnoc(sign, true, Calibration, [Iterate(t)], Iterate(u));
    assert [] + [Iterate(t)] == [Iterate(t)] && [Iterate(t)] + [Iterate(u)] == [Iterate(t), Iterate(u)];
    KeptSnoc([], Take);
    KeptSnoc([Take], Take);
    assert [] + [Take] == [Take];
  }

  /** What the slot holds, by its history. */
  function SlotAfter(slot: Request, mail: seq<Mail>): Request {
    if mail == [] then slot
    else if mail[|mail| - 1].Put? then mail[|mail| - 1].request
    else NoRequest
  }

  /** The slot holds the latest request put there since it was last emptied, and what it held at
      the start only as long as nothing has happened to it. */
  lemma {:induction false} WaitingIsLatest(sign: int, monitoring: bool, slot: Request, events: seq<Event>)
    ensures Run(sign, monitoring, slot, events).0.slot == SlotAfter(slot, Mailbox(sign, monitoring, slot, events))
    decreases |events|
  {
    if events != [] {
      var n := |events| - 1;
      WaitingIsLatest(sign, monitoring, slot, events[..n]);
      var before, mail := Run(sign, monitoring, slot, events[..n]), Mailbox(sign, monitoring, slot, events[..n]);
      var last := MailOf(monitoring, events[n], EventStep(sign, monitoring, before.0, events[n]).1);
      assert last == [] ==> mail + last == mail;
      match events[n]
      case Post(r) =>
      case Iterate(t) => StepMailbox(sign, monitoring, before.0, [], t);
    }
  }

  // ----------------------------------------------------- the loop itself

  class Monitoring {
    var request: Request

    /** monitoring_init does not set the request: it keeps what the allocated memory held. */
    constructor (leftover: Request)
      ensures request == leftover
    {
      request := leftover;
    }

    /** json_handle_request, under the mutex. */
    method HandleRequest(r: Request)
      modifies this
      ensures request == if Ignored(r) then old(request) else r
    {
      match r
      case NoRequest =>
      case ReadEeprom =>
      case OutOfRange(_) =>
      case _ => request := r;
    }
  }

  class Daemon {
    const sign: int
    const monitoring: Monitoring?
    var input: OdInput
    var ignoreNextIrq: bool
    var fakeHoldoverActivated: bool
    var running: bool
    ghost var log: seq<Entry>

    ghost function View(): State
      reads this, monitoring
    {
      State(input.calibrationRequested, ignoreNextIrq, fakeHoldoverActivated,
            if monitoring == null then NoRequest else monitoring.request, running)
    }

    constructor (phaseSign: int, mon: Monitoring?)
      ensures sign == phaseSign && monitoring == mon && log == []
      ensures View() == Start(if mon == null then NoRequest else mon.request)
    {
      sign, monitoring := phaseSign, mon;
      input, ignoreNextIrq, fakeHoldoverActivated, running, log := EMPTY, false, false, true, [];
    }

    /** apply_phase_offset: offset is what the kernel is asked to add to the clock. */
    method ApplyPhaseOffset(phaseError: int, accepted: bool) returns (offset: Ts, ok: bool)
      ensures Nanos(offset) == phaseError && 0 <= offset.nsec < NS_IN_SEC && offset == JumpOf(phaseError)
      ensures ok == accepted
    {
      var sec, nsec := TruncDiv(phaseError, NS_IN_SEC), TruncMod(phaseError, NS_IN_SEC);
      if phaseError > 0 || nsec == 0 {
        offset := Ts(sec, nsec);
      } else {
        offset := Ts(sec - 1, nsec + NS_IN_SEC);
      }
      JumpIsExact(phaseError, offset);
      ok := accepted;
    }

    /** The block that follows od_process for the action it chose; jump is what the clock was
        moved by. */
    method ProcessOutput(v: Verdict) returns (goesOn: bool, jump: Option<Ts>)
      modifies this`ignoreNextIrq
      ensures goesOn == Survives(v) && jump == JumpDone(v)
      ensures ignoreNextIrq == (old(ignoreNextIrq) || jump.Some?)
    {
      jump := None;
      match v
      case ProcessFails => goesOn := false;
      case PhaseJump(value, applied) =>
        var offset, ok := ApplyPhaseOffset(-value, applied);
        if !ok {
          return false, None;
        }
        jump := Some(offset);
        ignoreNextIrq := true;
        goesOn := true;
      case Calibrate(hasResults) => goesOn := hasResults;
      case OtherAction => goesOn := true;
    }

    method HandleMonitoring(m: Monitoring)
      requires monitoring == m
      modifies this, m
      ensures View() == TakeRequest(old(View())) && log == old(log) + [Taken(old(m.request))]
    {
      var request := m.request;
      m.request := NoRequest;
      log := log + [Taken(request)];
      match request
      case Calibration => input := input.(calibrationRequested := true);
      case FakeHoldoverStart => fakeHoldoverActivated := true;
      case FakeHoldoverStop => fakeHoldoverActivated := false;
      case _ =>
    }

    /** Fills in the input of the algorithm. */
    method FillInput(t: Turn, attr: Attributes)
      requires Complete(t) && attr == AttributesOf(t.parsed)
      requires input.valid == t.epoch.value.valid && input.surveyCompleted == t.epoch.value.surveyCompleted
      requires input.qErr == t.epoch.value.qErr
      modifies this`input
      ensures input == Seen(sign, t, old(input.calibrationRequested), fakeHoldoverActivated)
    {
      input := input.(phasemeterStatus := t.status, coarse := t.ctrl.value.coarse, fine := t.ctrl.value.fine,
                      temperature := attr.temperature, lock := attr.locked,
                      phaseError := Ts(TruncDiv(sign * t.phaseError, NS_IN_SEC),
                                       TruncMod(sign * t.phaseError, NS_IN_SEC)));
      if fakeHoldoverActivated {
        input := input.(valid := false);
      }
    }

    /** One turn of the main loop. */
    method Iteration(t: Turn)
      requires running
      modifies this, monitoring
      ensures View() == Step(sign, monitoring != null, old(View()), t).0
      ensures log == old(log) + Step(sign, monitoring != null, old(View()), t).1
    {
      if t.epoch.None? {
        running := false;
        return;
      }
      input := input.(valid := t.epoch.value.valid, surveyCompleted := t.epoch.value.surveyCompleted,
                      qErr := t.epoch.value.qErr);
      var attr := Attributes(0.0, false);
      match t.parsed {
        case Known(a) => attr := a;
        case NotSupported =>
        case Unreadable => return;
      }
      if t.ctrl.None? {
        return;
      }
      if ignoreNextIrq {
        ignoreNextIrq := false;
        log := log + [Discarded];
        return;
      }
      FillInput(t, attr);
      Process(t);
    }

    /** The call of od_process and everything after it. */
    method Process(t: Turn)
      requires running && Complete(t) && !ignoreNextIrq
      requires input == Seen(sign, t, input.calibrationRequested, fakeHoldoverActivated)
      modifies this, monitoring
      ensures View() == Step(sign, monitoring != null, old(View()), t).0
      ensures log == old(log) + Step(sign, monitoring != null, old(View()), t).1
    {
      ghost var start, seen := View(), input;
      input := EMPTY;
      var goesOn, jump := ProcessOutput(t.verdict);
      ghost var call := Call(seen, t, jump);
      log := log + [call];
      if !goesOn {
        running := false;
        return;
      }
      assert View() == start.(calibration := false, ignore := call.jump.Some?);
      if monitoring != null {
        HandleMonitoring(monitoring);
        assert log == old(log) + [call, Taken(start.slot)];
      }
    }

    /** The main loop with the monitoring thread posting between its turns: a whole run, so all
        that is proved of runs holds of the log. */
    method Execute(events: seq<Event>)
      requires View() == Start(View().slot) && log == []
      modifies this, monitoring
      ensures (View(), log) == Run(sign, monitoring != null, old(View().slot), events)
      ensures RightLog(sign, monitoring != null, log)
      ensures OnceEach(Acted(log) + Waiting(View().slot), old(View().slot),
                       Mailbox(sign, monitoring != null, old(View().slot), events))
    {
      ghost var slot := View().slot;
      for i := 0 to |events|
        invariant (View(), log) == Run(sign, monitoring != null, slot, events[..i])
      {
        ghost var before := View();
        assert events[..i + 1][..i] == events[..i];
        match events[i] {
          case Post(r) =>
            if monitoring != null {
              monitoring.HandleRequest(r);
            }
            assert log + [] == log;
          case Iterate(t) =>
            if running {
              Iteration(t);
            }
            assert !before.running ==> log + [] == log;
        }
      }
      assert events[..|events|] == events;
      CallsAreRight(sign, monitoring != null, slot, events);
      RequestsAreActedOnOnce(sign, monitoring != null, slot, events);
    }
  }
}
