/** The shared-memory protocol of a mode-1 NTP segment as a step machine: one writer
    (src/ntpshm/ntpshmwrite.c:67-84), which may start anew and reset the segment at any time
    (src/ntpshm/timehint.c:182-186), and any number of readers
    (src/ntpshm/ntpshmread.c:80-114), of which some consume. Every load and store of a word is
    one step and the steps interleave freely; memory_barrier makes this order the order every
    process sees. The reader's memcpy may visit the fields in any order. */
module ShmProtocol {
  import opened NtpSegment
  import opened Timespec

  /** The sample fields, numbered in the order in which the writer stores them. */
  type Payload = f: seq<int> | |f| == NUM_FIELDS witness [0, 0, 0, 0, 0, 0, 0, 0]

  /** Where the writer stands: before its next write, after valid = 0, with the first i
      fields stored, after the second count++; or ntpshm_alloc is preparing the segment. */
  datatype Writer = Resting | Invalidated | Storing(i: nat) | Counted | Resetting

  /** History of one read: how often the segment had been reset when valid was tested, the
      record it was reset to last, the latest write begun then, and the latest writes begun and
      complete when count was loaded. */
  datatype Hist = Hist(stamp: nat, base: nat, begunAtTest: nat, begunAtSample: nat, doneAtSample: nat)

  datatype Reader =
    | Free
    | Tested(stamp: nat, base: nat, begunAtTest: nat)
    | Copying(cnt: int, copied: map<nat, int>, hist: Hist)
    | Copied(cnt: int, payload: Payload, hist: Hist)

  /** undisturbed says that no reset of the segment fell into the read. */
  datatype Outcome = ReadNotReady | ReadClash | ReadOk(cnt: int, payload: Payload, hist: Hist, undisturbed: bool)

  /** The segment, the program counters, and the history: records[k] is the sample of the k-th
      write begun or what the segment was reset to, base is the latest of the latter, and stamp
      counts the resets begun and ended. */
  datatype State = State(
    valid: int, count: int, fields: Payload,
    writer: Writer, records: seq<Payload>, base: nat, stamp: nat,
    readers: map<nat, Reader>, logs: map<nat, seq<Outcome>>)

  function ReaderOf(s: State, r: nat): Reader {
    if r in s.readers then s.readers[r] else Free
  }

  function LogOf(s: State, r: nat): seq<Outcome> {
    if r in s.logs then s.logs[r] else []
  }

  function Begun(s: State): int {
    |s.records| - 1
  }

  /** Writes whose second count++ has happened. */
  function Done(s: State): int {
    if s.writer.Invalidated? || s.writer.Storing? then Begun(s) - 1 else Begun(s)
  }

  datatype Action =
    | Invalidate(data: Payload)          // valid = 0, a new write begins
    | CountOdd                           // first count++
    | StoreField                         // next field
    | CountEven                          // second count++
    | MarkValid                          // valid = 1
    | TestValid(r: nat)                  // if (shm->valid == 0) return NOT_READY
    | LoadCount(r: nat)                  // cnt = shm->count
    | CopyField(r: nat, f: nat)          // one word of the memcpy
    | EndCopy(r: nat, consume: bool)     // if (consume) shm->valid = 0
    | CheckCount(r: nat)                 // cnt != shm->count ? CLASH : OK
    | BeginReset                         // ntpshm_alloc, also of a process that replaces the writer
    | Scribble(valid: int, count: int, fields: Payload)   // any stores on the way
    | EndReset                           // the segment is in its initial state

  predicate Enabled(s: State, a: Action) {
    match a
    case Invalidate(_) => s.writer.Resting?
    case CountOdd => s.writer.Invalidated?
    case StoreField => s.writer.Storing? && s.writer.i < NUM_FIELDS
    case CountEven => s.writer.Storing? && s.writer.i == NUM_FIELDS
    case MarkValid => s.writer.Counted?
    case TestValid(r) => ReaderOf(s, r).Free?
    case LoadCount(r) => ReaderOf(s, r).Tested?
    case CopyField(r, f) => ReaderOf(s, r).Copying? && f < NUM_FIELDS && f !in ReaderOf(s, r).copied
    case EndCopy(r, _) => ReaderOf(s, r).Copying? && AllCopied(ReaderOf(s, r).copied)
    case CheckCount(r) => ReaderOf(s, r).Copied?
    case BeginReset => !s.writer.Resetting?
    case Scribble(_, _, _) => s.writer.Resetting?
    case EndReset => s.writer.Resetting?
  }

  /** Nothing was reset since the given number of resets begun and ended. */
  predicate Same(s: State, stamp: nat) {
    stamp == s.stamp && !s.writer.Resetting?
  }

  predicate AllCopied(copied: map<nat, int>) {
    forall f: nat :: f < NUM_FIELDS ==> f in copied
  }

  function PayloadOf(copied: map<nat, int>): (p: Payload)
    requires AllCopied(copied)
  {
    seq(NUM_FIELDS, (f: nat) requires f < NUM_FIELDS => copied[f])
  }

  function Finish(s: State, r: nat, o: Outcome): State {
    s.(readers := s.readers[r := Free], logs := s.logs[r := LogOf(s, r) + [o]])
  }

  function Do(s: State, a: Action): State
    requires |s.records| > 0 && Enabled(s, a)
  {
    match a
    case Invalidate(data) => s.(valid := 0, writer := Invalidated, records := s.records + [data])
    case CountOdd => s.(count := s.count + 1, writer := Storing(0))
    case StoreField =>
      var i := s.writer.i;
      s.(fields := s.fields[i := s.records[Begun(s)][i]], writer := Storing(i + 1))
    case CountEven => s.(count := s.count + 1, writer := Counted)
    case MarkValid => s.(valid := 1, writer := Resting)
    case TestValid(r) =>
      if s.valid == 0 then Finish(s, r, ReadNotReady)
      else s.(readers := s.readers[r := Tested(s.stamp, s.base, Begun(s))])
    case LoadCount(r) =>
      var rd := ReaderOf(s, r);
      var h := Hist(rd.stamp, rd.base, rd.begunAtTest, Begun(s), if Done(s) < 0 then 0 else Done(s));
      s.(readers := s.readers[r := Copying(s.count, map[], h)])
    case CopyField(r, f) =>
      var rd := ReaderOf(s, r);
      s.(readers := s.readers[r := rd.(copied := rd.copied[f := s.fields[f]])])
    case EndCopy(r, consume) =>
      var rd := ReaderOf(s, r);
      s.(valid := if consume then 0 else s.valid,
         readers := s.readers[r := Copied(rd.cnt, PayloadOf(rd.copied), rd.hist)])
    case CheckCount(r) =>
      var rd := ReaderOf(s, r);
      Finish(s, r, if rd.cnt != s.count then ReadClash
                   else ReadOk(rd.cnt, rd.payload, rd.hist, Same(s, rd.hist.stamp)))
    case BeginReset => s.(writer := Resetting, stamp := s.stamp + 1)
    case Scribble(v, c, f) => s.(valid := v, count := c, fields := f)
    case EndReset =>
      var seg := FreshSeg();
      s.(valid := seg.valid, count := seg.count, fields := Fields(seg.sample), writer := Resting,
         records := s.records + [Fields(seg.sample)], base := |s.records|, stamp := s.stamp + 1)
  }

  function Init(fields: Payload): State {
    State(0, 0, fields, Resting, [fields], 0, 0, map[], map[])
  }

  /** acts is a legal run from s and ends in t. */
  ghost predicate Reach(s: State, acts: seq<Action>, t: State)
    decreases |acts|
  {
    |s.records| > 0 &&
    if acts == [] then s == t
    else Enabled(s, acts[0]) && Reach(Do(s, acts[0]), acts[1..], t)
  }

  // ------------------------------------------------------------- invariant

  /** The count tells how far the writer is, and the fields hold what it has stored. */
  ghost predicate WriterInv(s: State) {
    var n := Begun(s);
    var k := n - s.base;
    s.base < |s.records| &&
    match s.writer
    case Resting => s.count == 2 * k && s.fields == s.records[n] && (s.valid != 0 ==> k >= 1)
    case Invalidated => k >= 1 && s.valid == 0 && s.count == 2 * k - 2 && s.fields == s.records[n - 1]
    case Storing(i) => k >= 1 && s.valid == 0 && s.count == 2 * k - 1 && i <= NUM_FIELDS
                       && Mixed(s.fields, s.records[n - 1], s.records[n], i)
    case Counted => k >= 1 && s.valid == 0 && s.count == 2 * k && s.fields == s.records[n]
    case Resetting => true
  }

  /** The first i fields are new, the others old. */
  ghost predicate Mixed(p: Payload, older: Payload, newer: Payload, i: nat) {
    && (forall f :: 0 <= f < NUM_FIELDS && f < i ==> p[f] == newer[f])
    && (forall f :: 0 <= f < NUM_FIELDS && i <= f ==> p[f] == older[f])
  }

  /** What a field copied under sample cnt can be while neither count nor stamp has moved. */
  ghost predicate FieldOfSample(records: seq<Payload>, base: nat, cnt: int, f: nat, v: int)
    requires f < NUM_FIELDS
  {
    && 0 <= cnt && base + (cnt + 1) / 2 < |records|
    && (v == records[base + (cnt + 1) / 2][f] || (cnt % 2 == 1 && v == records[base + cnt / 2][f]))
  }

  /** The history agrees with the sample: an even sample counts the complete writes since the
      last reset, an odd one says that a write began after the valid test. */
  ghost predicate HistOk(cnt: int, h: Hist, begun: int) {
    && h.base < h.begunAtTest <= h.begunAtSample <= begun
    && 2 * (h.begunAtTest - h.base) <= cnt
    && (cnt % 2 == 0 ==> cnt == 2 * (h.doneAtSample - h.base))
    && (cnt % 2 == 1 ==> cnt == 2 * (h.begunAtSample - h.base) - 1 && h.begunAtTest < h.begunAtSample)
  }

  ghost predicate ReaderInv(s: State, rd: Reader) {
    match rd
    case Free => true
    case Tested(stamp, base, b) =>
      && stamp <= s.stamp
      && (Same(s, stamp) ==> base == s.base && base < b <= Begun(s) && 2 * (b - base) <= s.count)
    case Copying(cnt, copied, h) =>
      && h.stamp <= s.stamp
      && (forall f :: f in copied ==> f < NUM_FIELDS)
      && (Same(s, h.stamp) ==> h.base == s.base && cnt <= s.count && HistOk(cnt, h, Begun(s)))
      && (Same(s, h.stamp) && s.count == cnt ==>
            forall f :: f in copied ==> FieldOfSample(s.records, h.base, cnt, f, copied[f]))
    case Copied(cnt, p, h) =>
      && h.stamp <= s.stamp
      && (Same(s, h.stamp) ==> h.base == s.base && cnt <= s.count && HistOk(cnt, h, Begun(s)))
      && (Same(s, h.stamp) && s.count == cnt ==>
            forall f: nat :: f < NUM_FIELDS ==> FieldOfSample(s.records, h.base, cnt, f, p[f]))
  }

  /** The sample cnt since the reset to record base is no later than the segment is now. */
  ghost predicate NoLater(base: nat, cnt: int, s: State) {
    base < s.base || (base == s.base && (s.writer.Resetting? || cnt <= s.count))
  }

  ghost predicate OutcomeInv(s: State, o: Outcome) {
    o.ReadOk? && o.undisturbed ==>
      && NoLater(o.hist.base, o.cnt, s) && HistOk(o.cnt, o.hist, Begun(s))
      && forall f: nat :: f < NUM_FIELDS ==> FieldOfSample(s.records, o.hist.base, o.cnt, f, o.payload[f])
  }

  ghost predicate Good(o: Outcome) {
    o.ReadOk? && o.undisturbed
  }

  /** Later reads of one reader never report an older sample. */
  ghost predicate Forward(log: seq<Outcome>) {
    forall i, j :: 0 <= i < j < |log| && Good(log[i]) && Good(log[j]) ==>
      log[i].hist.base < log[j].hist.base || (log[i].hist.base == log[j].hist.base && log[i].cnt <= log[j].cnt)
  }

  ghost predicate Inv(s: State) {
    && WriterInv(s)
    && (forall r: nat :: ReaderInv(s, ReaderOf(s, r)))
    && (forall r: nat :: LogInv(s, LogOf(s, r)))
  }

  /** What a step can never take back. */
  ghost predicate Later(s: State, t: State) {
    && s.records <= t.records && s.stamp <= t.stamp && s.base <= t.base
    && (s.stamp == t.stamp ==> s.base == t.base && s.writer.Resetting? == t.writer.Resetting?)
    && (s.base == t.base && !t.writer.Resetting? ==> !s.writer.Resetting? && s.count <= t.count)
  }

  lemma ReaderInvLater(s: State, t: State, rd: Reader)
    requires Later(s, t) && ReaderInv(s, rd)
    ensures ReaderInv(t, rd)
  {
  }

  lemma OutcomeInvLater(s: State, t: State, o: Outcome)
    requires Later(s, t) && OutcomeInv(s, o)
    ensures OutcomeInv(t, o)
  {
  }

  lemma WriterInvStep(s: State, a: Action)
    requires WriterInv(s) && Enabled(s, a)
    ensures WriterInv(Do(s, a)) && Later(s, Do(s, a))
  {
    var n := Begun(s);
    match a
    case Invalidate(data) =>
      assert (s.records + [data])[n] == s.records[n];
    case CountOdd =>
    case StoreField =>
      var t := Do(s, a);
      var i := s.writer.i;
      assert t.fields[i] == s.records[n][i];
    case CountEven =>
      assert s.fields == s.records[n];
    case _ =>
  }

  /** The fields now, as the sample taken now would describe them. */
  lemma FieldNow(s: State, f: nat)
    requires WriterInv(s) && !s.writer.Resetting? && f < NUM_FIELDS
    ensures FieldOfSample(s.records, s.base, s.count, f, s.fields[f])
  {
  }

  function Actor(a: Action): int {
    match a
    case TestValid(r) => r
    case LoadCount(r) => r
    case CopyField(r, _) => r
    case EndCopy(r, _) => r
    case CheckCount(r) => r
    case _ => -1
  }

  lemma CopyFieldStep(s: State, r: nat, f: nat)
    requires WriterInv(s) && Enabled(s, CopyField(r, f)) && ReaderInv(s, ReaderOf(s, r))
    ensures ReaderInv(Do(s, CopyField(r, f)), ReaderOf(Do(s, CopyField(r, f)), r))
  {
    if !s.writer.Resetting? {
      FieldNow(s, f);
    }
  }

  lemma EndCopyStep(s: State, r: nat, consume: bool)
    requires WriterInv(s) && Enabled(s, EndCopy(r, consume)) && ReaderInv(s, ReaderOf(s, r))
    ensures ReaderInv(Do(s, EndCopy(r, consume)), ReaderOf(Do(s, EndCopy(r, consume)), r))
  {
    var rd := ReaderOf(s, r);
    var p := PayloadOf(rd.copied);
    assert forall f: nat :: f < NUM_FIELDS ==> f in rd.copied && p[f] == rd.copied[f];
  }

  lemma ActorReaderStep(s: State, a: Action, r: nat)
    requires WriterInv(s) && Enabled(s, a) && Actor(a) == r
    requires ReaderInv(s, ReaderOf(s, r))
    ensures ReaderInv(Do(s, a), ReaderOf(Do(s, a), r))
  {
    match a
    case CopyField(r, f) => CopyFieldStep(s, r, f);
    case EndCopy(r, consume) => EndCopyStep(s, r, consume);
    case _ =>
  }

  ghost predicate LogInv(s: State, log: seq<Outcome>) {
    Forward(log) && forall i :: 0 <= i < |log| ==> OutcomeInv(s, log[i])
  }

  /** One more outcome, of a read that ends now. */
  lemma LogSnoc(s: State, log: seq<Outcome>, o: Outcome)
    requires LogInv(s, log) && OutcomeInv(s, o)
    requires Good(o) ==> o.hist.base == s.base && o.cnt == s.count && !s.writer.Resetting?
    ensures LogInv(s, log + [o])
  {
    var more := log + [o];
    assert forall i :: 0 <= i < |log| ==> more[i] == log[i] && OutcomeInv(s, log[i]);
  }

  lemma LogLater(s: State, t: State, log: seq<Outcome>)
    requires Later(s, t) && LogInv(s, log)
    ensures LogInv(t, log)
  {
    forall i | 0 <= i < |log|
      ensures OutcomeInv(t, log[i])
    {
      OutcomeInvLater(s, t, log[i]);
    }
  }

  /** The logs: only the acting reader's log grows, by one outcome that satisfies the invariant. */
  lemma LogStep(s: State, a: Action, r: nat)
    requires WriterInv(s) && Enabled(s, a)
    requires ReaderInv(s, ReaderOf(s, r)) && LogInv(s, LogOf(s, r))
    ensures LogInv(Do(s, a), LogOf(Do(s, a), r))
  {
    WriterInvStep(s, a);
    var t := Do(s, a);
    if a == CheckCount(r) {
      var rd := ReaderOf(s, r);
      LogSnoc(s, LogOf(s, r), if rd.cnt != s.count then ReadClash
                              else ReadOk(rd.cnt, rd.payload, rd.hist, Same(s, rd.hist.stamp)));
    } else if a == TestValid(r) && s.valid == 0 {
      LogSnoc(s, LogOf(s, r), ReadNotReady);
    }
    LogLater(s, t, LogOf(t, r));
  }

  lemma InvStep(s: State, a: Action)
    requires Inv(s) && Enabled(s, a)
    ensures Inv(Do(s, a))
  {
    var t := Do(s, a);
    WriterInvStep(s, a);
    forall r: nat
      ensures ReaderInv(t, ReaderOf(t, r))
    {
      if Actor(a) == r {
        ActorReaderStep(s, a, r);
      } else {
        assert ReaderOf(t, r) == ReaderOf(s, r);
        ReaderInvLater(s, t, ReaderOf(s, r));
      }
    }
    forall r: nat
      ensures LogInv(t, LogOf(t, r))
    {
      LogStep(s, a, r);
    }
  }

  lemma {:induction false} InvRun(s: State, acts: seq<Action>, t: State)
    requires Inv(s) && Reach(s, acts, t)
    ensures Inv(t)
    decreases |acts|
  {
    if acts != [] {
      InvStep(s, acts[0]);
      InvRun(Do(s, acts[0]), acts[1..], t);
    }
  }

  // ---------------------------------------------------------- main theorem

  /** An OK read with an even sample: exactly the record of the write that was the latest
      complete one when the count was sampled. */
  ghost predicate ReadsLatest(o: Outcome, records: seq<Payload>)
    requires o.ReadOk?
  {
    && o.hist.base < o.hist.doneAtSample < |records|
    && o.cnt == 2 * (o.hist.doneAtSample - o.hist.base)
    && o.payload == records[o.hist.doneAtSample]
  }

  /** One with an odd sample: a write began between the valid test and the sample, and every
      word belongs to that write or to the record before it. */
  ghost predicate ReadsMixture(o: Outcome, records: seq<Payload>)
    requires o.ReadOk?
  {
    && o.hist.begunAtTest < o.hist.begunAtSample < |records|
    && forall f :: 0 <= f < NUM_FIELDS ==>
         || o.payload[f] == records[o.hist.begunAtSample][f]
         || o.payload[f] == records[o.hist.begunAtSample - 1][f]
  }

  lemma OutcomeMeaning(t: State, o: Outcome)
    requires OutcomeInv(t, o) && Good(o)
    ensures if o.cnt % 2 == 0 then ReadsLatest(o, t.records) else ReadsMixture(o, t.records)
  {
    var n := o.hist.base + (o.cnt + 1) / 2;
    if o.cnt % 2 == 0 {
      assert FieldOfSample(t.records, o.hist.base, o.cnt, 0, o.payload[0]);
      assert n == o.hist.doneAtSample;
      forall f: nat | f < NUM_FIELDS
        ensures o.payload[f] == t.records[n][f]
      {
        assert FieldOfSample(t.records, o.hist.base, o.cnt, f, o.payload[f]);
      }
    } else {
      assert n == o.hist.begunAtSample && o.hist.base + o.cnt / 2 == n - 1;
      forall f | 0 <= f < NUM_FIELDS
        ensures o.payload[f] == t.records[n][f] || o.payload[f] == t.records[n - 1][f]
      {
        assert FieldOfSample(t.records, o.hist.base, o.cnt, f, o.payload[f]);
      }
    }
  }

  /** Over every interleaving, resets of the segment included: an OK read that no reset fell
      into returns, if its sample is even, exactly the latest write complete at the sample, and
      otherwise a mixture of a write begun after its valid test with the record before; and a
      reader never goes backwards. */
  lemma ReadsAreConsistent(initial: Payload, acts: seq<Action>, t: State, r: nat)
    requires Reach(Init(initial), acts, t)
    ensures forall i :: 0 <= i < |LogOf(t, r)| && Good(LogOf(t, r)[i]) ==>
      var o := LogOf(t, r)[i];
      if o.cnt % 2 == 0 then ReadsLatest(o, t.records) else ReadsMixture(o, t.records)
    ensures Forward(LogOf(t, r))
  {
    InvRun(Init(initial), acts, t);
    assert LogInv(t, LogOf(t, r));
    forall i | 0 <= i < |LogOf(t, r)| && Good(LogOf(t, r)[i])
      ensures var o := LogOf(t, r)[i];
              if o.cnt % 2 == 0 then ReadsLatest(o, t.records) else ReadsMixture(o, t.records)
    {
      OutcomeMeaning(t, LogOf(t, r)[i]);
    }
  }

  predicate StampZero(rd: Reader) {
    match rd
    case Free => true
    case Tested(stamp, _, _) => stamp == 0
    case Copying(_, _, h) => h.stamp == 0
    case Copied(_, _, h) => h.stamp == 0
  }

  /** No reset has begun so far, and no OK read knows of one. */
  ghost predicate NeverReset(s: State) {
    && s.stamp == 0 && !s.writer.Resetting?
    && (forall r: nat :: StampZero(ReaderOf(s, r)))
    && (forall r: nat, i :: 0 <= i < |LogOf(s, r)| && LogOf(s, r)[i].ReadOk? ==> LogOf(s, r)[i].undisturbed)
  }

  lemma NeverResetStep(s: State, a: Action)
    requires NeverReset(s) && |s.records| > 0 && Enabled(s, a) && a != BeginReset
    ensures NeverReset(Do(s, a))
  {
    var t := Do(s, a);
    forall r: nat
      ensures StampZero(ReaderOf(t, r))
    {
      assert StampZero(ReaderOf(s, r));
      assert Actor(a) != r ==> ReaderOf(t, r) == ReaderOf(s, r);
    }
    forall r: nat, i | 0 <= i < |LogOf(t, r)| && LogOf(t, r)[i].ReadOk?
      ensures LogOf(t, r)[i].undisturbed
    {
      assert StampZero(ReaderOf(s, r));
      if i < |LogOf(s, r)| {
        assert LogOf(t, r)[i] == LogOf(s, r)[i];
      }
    }
  }

  /** While the segment is not reset ReadsAreConsistent covers every OK read. */
  lemma {:induction false} WithoutResetAllAreUndisturbed(s: State, acts: seq<Action>, t: State)
    requires NeverReset(s) && Reach(s, acts, t) && BeginReset !in acts
    ensures NeverReset(t)
    decreases |acts|
  {
    if acts != [] {
      var a, rest := acts[0], acts[1..];
      assert acts == [a] + rest;
      NeverResetStep(s, a);
      WithoutResetAllAreUndisturbed(Do(s, a), rest, t);
    }
  }

  /** End to end: under every interleaving, an OK read with an even sample that no reset fell
      into converts its words into exactly the two times, leap and precision given to the write
      it names. */
  lemma EvenReadReturnsWrittenTimes(initial: Payload, acts: seq<Action>, t: State, r: nat, i: nat, read: Sample,
                                    realTs: Ts, clockTs: Ts, precision: int, leap: int)
    requires Reach(Init(initial), acts, t)
    requires i < |LogOf(t, r)| && Good(LogOf(t, r)[i]) && LogOf(t, r)[i].cnt % 2 == 0
    requires LogOf(t, r)[i].payload == Fields(read)
    requires LogOf(t, r)[i].hist.doneAtSample < |t.records|
    requires t.records[LogOf(t, r)[i].hist.doneAtSample] == Fields(SampleOf(realTs, clockTs, precision, leap))
    requires Normal(realTs) && Normal(clockTs) && realTs.nsec >= 0 && clockTs.nsec >= 0
    ensures ReadTvt(read) == realTs && ReadTvr(read) == clockTs
    ensures read.leap == leap && read.precision == precision
  {
    ReadsAreConsistent(initial, acts, t, r);
    FieldsInjective(read, SampleOf(realTs, clockTs, precision, leap));
    FieldRoundTrip(realTs.nsec);
    FieldRoundTrip(clockTs.nsec);
  }

  // ------------------------------------------------- particular schedules

  lemma {:induction false} ReachTrans(s: State, a: seq<Action>, t: State, b: seq<Action>, u: State)
    requires Reach(s, a, t) && Reach(t, b, u)
    ensures Reach(s, a + b, u)
    decreases |a|
  {
    if a == [] {
      assert a + b == b;
    } else {
      ReachTrans(Do(s, a[0]), a[1..], t, b, u);
      assert (a + b)[1..] == a[1..] + b;
    }
  }

  lemma OneStep(s: State, a: Action)
    requires |s.records| > 0 && Enabled(s, a)
    requires |Do(s, a).records| > 0
    ensures Reach(s, [a], Do(s, a))
  {
    assert [a][1..] == [];
    assert Reach(Do(s, a), [], Do(s, a));
  }

  /** b's fields up to i, a's fields from there on. */
  function Mix(a: Payload, b: Payload, i: nat): Payload
    requires i <= NUM_FIELDS
  {
    b[..i] + a[i..]
  }

  /** The writer stores its fields i up to j with nobody in between. */
  lemma {:induction false} StoreUpTo(s: State, before: Payload, i: nat, j: nat)
    returns (acts: seq<Action>)
    requires |s.records| > 0 && s.writer == Storing(i) && i <= j <= NUM_FIELDS
    requires s.fields == Mix(before, s.records[Begun(s)], i)
    ensures Reach(s, acts, s.(fields := Mix(before, s.records[Begun(s)], j), writer := Storing(j)))
    decreases j - i
  {
    var data := s.records[Begun(s)];
    if i == j {
      acts := [];
    } else {
      var t := Do(s, StoreField);
      assert t.fields == Mix(before, data, i + 1);
      var rest := StoreUpTo(t, before, i + 1, j);
      OneStep(s, StoreField);
      acts := [StoreField] + rest;
      ReachTrans(s, [StoreField], t, rest, t.(fields := Mix(before, data, j), writer := Storing(j)));
    }
  }

  /** The first k fields of p. */
  function Upto(p: Payload, k: nat): map<nat, int>
    requires k <= NUM_FIELDS
  {
    map f: nat | f < k :: p[f]
  }

  /** Reader r copies the fields k up to j with nobody in between; it has copied the first c of
      them from p, and the others from the segment as it is now. */
  lemma {:induction false} CopyUpTo(s: State, r: nat, cnt: int, h: Hist, p: Payload, c: nat, k: nat, j: nat)
    returns (acts: seq<Action>)
    requires |s.records| > 0 && c <= k <= j <= NUM_FIELDS
    requires ReaderOf(s, r) == Copying(cnt, Upto(Mix(s.fields, p, c), k), h)
    ensures Reach(s, acts, s.(readers := s.readers[r := Copying(cnt, Upto(Mix(s.fields, p, c), j), h)]))
    decreases j - k
  {
    var from := Mix(s.fields, p, c);
    if k == j {
      acts := [];
      assert r in s.readers;
      assert s.readers[r := Copying(cnt, Upto(from, j), h)] == s.readers;
    } else {
      var t := Do(s, CopyField(r, k));
      assert from[k] == s.fields[k];
      assert Upto(from, k)[k := s.fields[k]] == Upto(from, k + 1);
      var rest := CopyUpTo(t, r, cnt, h, p, c, k + 1, j);
      OneStep(s, CopyField(r, k));
      acts := [CopyField(r, k)] + rest;
      var u := s.(readers := s.readers[r := Copying(cnt, Upto(from, j), h)]);
      assert u == t.(readers := t.readers[r := Copying(cnt, Upto(from, j), h)]);
      ReachTrans(s, [CopyField(r, k)], t, rest, u);
    }
  }

  /** A reader that has copied everything and is then left alone with the count it sampled. */
  lemma FinishRead(s: State, r: nat, consume: bool, p: Payload, h: Hist) returns (acts: seq<Action>, t: State)
    requires |s.records| > 0 && ReaderOf(s, r) == Copying(s.count, Upto(p, NUM_FIELDS), h)
    ensures Reach(s, acts, t)
    ensures LogOf(t, r) == LogOf(s, r) + [ReadOk(s.count, p, h, Same(s, h.stamp))]
    ensures ReaderOf(t, r).Free?
    ensures t.valid == if consume then 0 else s.valid
    ensures t.count == s.count && t.fields == s.fields && t.writer == s.writer && t.records == s.records
  {
    assert PayloadOf(Upto(p, NUM_FIELDS)) == p;
    var c := Do(s, EndCopy(r, consume));
    OneStep(s, EndCopy(r, consume));
    t := Do(c, CheckCount(r));
    OneStep(c, CheckCount(r));
    acts := [EndCopy(r, consume)] + [CheckCount(r)];
    ReachTrans(s, [EndCopy(r, consume)], c, [CheckCount(r)], t);
  }

  /** A reader that has passed the valid test and is then left alone returns what the
      segment holds, whatever the parity of the count. */
  lemma UndisturbedRead(s: State, r: nat, consume: bool)
    returns (acts: seq<Action>, t: State)
    requires |s.records| > 0 && ReaderOf(s, r).Tested?
    ensures Reach(s, acts, t)
    ensures exists h: Hist :: h.stamp == ReaderOf(s, r).stamp
                        && LogOf(t, r) == LogOf(s, r) + [ReadOk(s.count, s.fields, h, Same(s, h.stamp))]
    ensures ReaderOf(t, r).Free?
    ensures t.valid == if consume then 0 else s.valid
    ensures t.count == s.count && t.fields == s.fields && t.writer == s.writer && t.records == s.records
  {
    var a := Do(s, LoadCount(r));
    OneStep(s, LoadCount(r));
    var h := ReaderOf(a, r).hist;
    assert Mix(s.fields, s.fields, 0) == s.fields && Upto(s.fields, 0) == map[];
    var copy := CopyUpTo(a, r, s.count, h, s.fields, 0, 0, NUM_FIELDS);
    var b := a.(readers := a.readers[r := Copying(s.count, Upto(s.fields, NUM_FIELDS), h)]);
    ReachTrans(s, [LoadCount(r)], a, copy, b);
    var finish;
    finish, t := FinishRead(b, r, consume, s.fields, h);
    acts := ([LoadCount(r)] + copy) + finish;
    ReachTrans(s, [LoadCount(r)] + copy, b, finish, t);
    assert LogOf(t, r) == LogOf(s, r) + [ReadOk(s.count, s.fields, h, Same(s, h.stamp))];
  }

  /** A write that begins and stores i fields. */
  lemma PartialWrite(s: State, data: Payload, i: nat)
    returns (acts: seq<Action>, t: State)
    requires |s.records| > 0 && s.writer.Resting? && i <= NUM_FIELDS
    ensures Reach(s, acts, t)
    ensures t == s.(valid := 0, count := s.count + 1, writer := Storing(i),
                    fields := Mix(s.fields, data, i), records := s.records + [data])
  {
    var a := Do(s, Invalidate(data));
    OneStep(s, Invalidate(data));
    var b := Do(a, CountOdd);
    OneStep(a, CountOdd);
    ReachTrans(s, [Invalidate(data)], a, [CountOdd], b);
    assert Mix(s.fields, data, 0) == s.fields;
    var stores := StoreUpTo(b, s.fields, 0, i);
    t := b.(fields := Mix(s.fields, data, i), writer := Storing(i));
    acts := ([Invalidate(data)] + [CountOdd]) + stores;
    ReachTrans(s, [Invalidate(data)] + [CountOdd], b, stores, t);
  }

  /** The writer alone publishes its data and nothing else. */
  lemma UndisturbedWrite(s: State, data: Payload)
    returns (acts: seq<Action>, t: State)
    requires |s.records| > 0 && s.writer.Resting?
    ensures Reach(s, acts, t)
    ensures t == s.(valid := 1, count := s.count + 2, fields := data, records := s.records + [data])
  {
    var stores, a := PartialWrite(s, data, NUM_FIELDS);
    assert Mix(s.fields, data, NUM_FIELDS) == data;
    var b := Do(a, CountEven);
    OneStep(a, CountEven);
    t := Do(b, MarkValid);
    OneStep(b, MarkValid);
    ReachTrans(a, [CountEven], b, [MarkValid], t);
    acts := stores + ([CountEven] + [MarkValid]);
    ReachTrans(s, stores, a, [CountEven] + [MarkValid], t);
  }

  /** The parity condition of ReadsAreConsistent is needed: for every two samples and every
      cut point, some run returns the mixture of the two as OK, under an odd sample. */
  lemma OddSampleCanBeTorn(initial: Payload, first: Payload, second: Payload, cut: nat, r: nat)
    returns (acts: seq<Action>, t: State)
    requires cut <= NUM_FIELDS
    ensures Reach(Init(initial), acts, t)
    ensures t.records == [initial, first, second]
    ensures |LogOf(t, r)| == 1 && LogOf(t, r)[0].ReadOk? && LogOf(t, r)[0].cnt % 2 == 1
    ensures LogOf(t, r)[0].payload == Mix(first, second, cut)
  {
    var s0 := Init(initial);
    var w1, s1 := UndisturbedWrite(s0, first);
    var s2 := Do(s1, TestValid(r));
    OneStep(s1, TestValid(r));
    ReachTrans(s0, w1, s1, [TestValid(r)], s2);
    var w2, s3 := PartialWrite(s2, second, cut);
    ReachTrans(s0, w1 + [TestValid(r)], s2, w2, s3);
    var rd, s4 := UndisturbedRead(s3, r, false);
    t := s4;
    acts := ((w1 + [TestValid(r)]) + w2) + rd;
    ReachTrans(s0, (w1 + [TestValid(r)]) + w2, s3, rd, s4);
    assert t.records == [initial, first, second];
  }

  /** ntpshm_alloc prepares the segment with nobody in between. */
  lemma UndisturbedReset(s: State) returns (acts: seq<Action>, t: State)
    requires |s.records| > 0 && !s.writer.Resetting?
    ensures Reach(s, acts, t)
    ensures t == s.(valid := 0, count := 0, fields := Fields(FreshSeg().sample), writer := Resting,
                    records := s.records + [Fields(FreshSeg().sample)], base := |s.records|, stamp := s.stamp + 2)
  {
    var a := Do(s, BeginReset);
    OneStep(s, BeginReset);
    t := Do(a, EndReset);
    OneStep(a, EndReset);
    acts := [BeginReset] + [EndReset];
    ReachTrans(s, [BeginReset], a, [EndReset], t);
  }

  /** A reader that has passed the valid test samples the count and copies the first j fields. */
  lemma PartialRead(s: State, r: nat, j: nat) returns (acts: seq<Action>, t: State)
    requires |s.records| > 0 && ReaderOf(s, r).Tested? && j <= NUM_FIELDS
    ensures Reach(s, acts, t)
    ensures exists h: Hist :: h.stamp == ReaderOf(s, r).stamp
                        && t == s.(readers := s.readers[r := Copying(s.count, Upto(s.fields, j), h)])
  {
    var a := Do(s, LoadCount(r));
    OneStep(s, LoadCount(r));
    var h := ReaderOf(a, r).hist;
    assert Mix(s.fields, s.fields, 0) == s.fields && Upto(s.fields, 0) == map[];
    var copy := CopyUpTo(a, r, s.count, h, s.fields, 0, 0, j);
    t := a.(readers := a.readers[r := Copying(s.count, Upto(s.fields, j), h)]);
    acts := [LoadCount(r)] + copy;
    ReachTrans(s, [LoadCount(r)], a, copy, t);
    assert t == s.(readers := s.readers[r := Copying(s.count, Upto(s.fields, j), h)]);
  }

  /** That resets are excluded in ReadsAreConsistent is needed as well: count starts again at 0,
      so for every two samples and every cut some run returns the mixture of one written before
      a reset and one written after it as OK, under an even sample. */
  lemma EvenSampleTornByReset(initial: Payload, first: Payload, second: Payload, cut: nat, r: nat)
    returns (acts: seq<Action>, t: State)
    requires cut <= NUM_FIELDS
    ensures Reach(Init(initial), acts, t)
    ensures |LogOf(t, r)| == 1 && LogOf(t, r)[0].ReadOk? && !LogOf(t, r)[0].undisturbed
    ensures LogOf(t, r)[0].cnt % 2 == 0 && LogOf(t, r)[0].payload == Mix(second, first, cut)
  {
    var s0 := Init(initial);
    var w1, s1 := UndisturbedWrite(s0, first);
    var s2 := Do(s1, TestValid(r));
    OneStep(s1, TestValid(r));
    ReachTrans(s0, w1, s1, [TestValid(r)], s2);
    var rd, s3 := PartialRead(s2, r, cut);
    ReachTrans(s0, w1 + [TestValid(r)], s2, rd, s3);
    acts, t := ResetWriteFinish(s3, r, first, second, cut, s3.readers[r].hist);
    ReachTrans(s0, (w1 + [TestValid(r)]) + rd, s3, acts, t);
    acts := ((w1 + [TestValid(r)]) + rd) + acts;
  }

  lemma ResetWriteFinish(s: State, r: nat, first: Payload, second: Payload, cut: nat, h: Hist)
    returns (acts: seq<Action>, t: State)
    requires |s.records| > 0 && s.writer.Resting? && cut <= NUM_FIELDS && h.stamp <= s.stamp
    requires ReaderOf(s, r) == Copying(2, Upto(first, cut), h)
    ensures Reach(s, acts, t)
    ensures LogOf(t, r) == LogOf(s, r) + [ReadOk(2, Mix(second, first, cut), h, false)]
  {
    var reset, s1 := UndisturbedReset(s);
    var write, s2 := UndisturbedWrite(s1, second);
    ReachTrans(s, reset, s1, write, s2);
    assert Upto(Mix(second, first, cut), cut) == Upto(first, cut);
    var copy := CopyUpTo(s2, r, 2, h, first, cut, cut, NUM_FIELDS);
    var s3 := s2.(readers := s2.readers[r := Copying(2, Upto(Mix(second, first, cut), NUM_FIELDS), h)]);
    ReachTrans(s, reset + write, s2, copy, s3);
    var finish;
    finish, t := FinishRead(s3, r, false, Mix(second, first, cut), h);
    acts := ((reset + write) + copy) + finish;
    ReachTrans(s, (reset + write) + copy, s3, finish, t);
  }

  // ------------------------------------- agreement with the whole methods

  /** The step machine's segment is the struct of module NtpSegment. */
  ghost predicate Represents(s: State, seg: Seg) {
    seg.mode == 1 && s.valid == seg.valid && s.count == seg.count && s.fields == Fields(seg.sample)
  }

  /** ntp_write is the writer's step sequence run without interruption. */
  lemma WriteIsUndisturbedRun(s: State, seg: Seg, realTs: Ts, clockTs: Ts, precision: int, leap: int)
    returns (acts: seq<Action>, t: State)
    requires |s.records| > 0 && s.writer.Resting? && Represents(s, seg)
    ensures Reach(s, acts, t) && t.writer.Resting?
    ensures Represents(t, Written(seg, realTs, clockTs, precision, leap))
  {
    acts, t := UndisturbedWrite(s, Fields(SampleOf(realTs, clockTs, precision, leap)));
  }

  /** ntp_read without interference returns OK with the fields that ReadStat converts. */
  lemma ReadIsUndisturbedRun(s: State, seg: Seg, r: nat, consume: bool, before: Stat)
    returns (acts: seq<Action>, t: State)
    requires |s.records| > 0 && Represents(s, seg) && ReaderOf(s, r).Free? && !s.writer.Resetting?
    ensures Reach(s, acts, t)
    ensures |LogOf(t, r)| == |LogOf(s, r)| + 1 && ReaderOf(t, r).Free?
    ensures
      var o := LogOf(t, r)[|LogOf(s, r)|];
      var st := ReadStat(Quiet(seg), before);
      && (seg.valid == 0 ==> o == ReadNotReady && st.status == NotReady)
      && (seg.valid != 0 ==> Good(o) && o.payload == Fields(seg.sample) && st.status == Ok)
    ensures Represents(t, if consume && seg.valid != 0 then seg.(valid := 0) else seg)
  {
    var a := Do(s, TestValid(r));
    OneStep(s, TestValid(r));
    if seg.valid == 0 {
      acts, t := [TestValid(r)], a;
    } else {
      var rd, u := UndisturbedRead(a, r, consume);
      acts, t := [TestValid(r)] + rd, u;
      ReachTrans(s, [TestValid(r)], a, rd, u);
    }
  }

  /** How an outcome of the step machine is reported in shm_stat. */
  predicate Reported(o: Outcome, status: Status) {
    match o
    case ReadNotReady => status == NotReady
    case ReadClash => status == Clash
    case ReadOk(_, _, _, _) => status == Ok
  }

  /** Step machine and method agree on every read, however it was interrupted: the outcome that
      the last check of a read logs is the one ReadStat gives for what its loads returned, with
      the count seen at the check, and an OK read carries the words copied. */
  lemma CheckIsReadStat(s: State, r: nat, copy: Seg, before: Stat, valid: int)
    requires |s.records| > 0 && Enabled(s, CheckCount(r)) && valid != 0
    requires copy.mode == 1 && Fields(copy.sample) == ReaderOf(s, r).payload
    ensures
      var log := LogOf(Do(s, CheckCount(r)), r);
      var o := log[|log| - 1];
      && Reported(o, ReadStat(Loads(valid, ReaderOf(s, r).cnt, copy, s.count), before).status)
      && (o.ReadOk? ==> o.payload == Fields(copy.sample) && o.cnt == s.count)
      && (o.ReadClash? <==> ReaderOf(s, r).cnt != s.count)
  {
  }

  /** The reader whose sample this is has not checked it yet. */
  predicate Holds(rd: Reader, cnt: int) {
    (rd.Copying? && rd.cnt == cnt) || (rd.Copied? && rd.cnt == cnt)
  }

  /** Nothing in acts moves the count or belongs to reader r but its copying. */
  predicate LeavesCount(acts: seq<Action>, r: nat) {
    forall i :: 0 <= i < |acts| ==>
      && !acts[i].CountOdd? && !acts[i].CountEven? && !acts[i].Scribble? && !acts[i].EndReset?
      && acts[i] != CheckCount(r)
  }

  /** From the sample on, reader r keeps it until it checks, and the count stays. */
  lemma {:induction false} SampleIsKept(s: State, acts: seq<Action>, t: State, r: nat, cnt: int)
    requires Reach(s, acts, t) && LeavesCount(acts, r) && Holds(ReaderOf(s, r), cnt)
    ensures Holds(ReaderOf(t, r), cnt) && t.count == s.count
    decreases |acts|
  {
    if acts != [] {
      assert acts == [acts[0]] + acts[1..] && LeavesCount(acts[1..], r);
      SampleIsKept(Do(s, acts[0]), acts[1..], t, r, cnt);
    }
  }

  /** A read clashes only if the count was stored to between its two loads of it: whatever else
      the writer, other readers and this one do in between, the check passes. */
  lemma ClashNeedsAMovedCount(s: State, r: nat, acts: seq<Action>, t: State)
    requires |s.records| > 0 && Enabled(s, LoadCount(r))
    requires Reach(Do(s, LoadCount(r)), acts, t) && LeavesCount(acts, r)
    requires |t.records| > 0 && Enabled(t, CheckCount(r))
    ensures
      var log := LogOf(Do(t, CheckCount(r)), r);
      log[|log| - 1].ReadOk? && log[|log| - 1].cnt == s.count
  {
    SampleIsKept(Do(s, LoadCount(r)), acts, t, r, s.count);
  }

  /** Between two stores to it the count does not come back while nothing is reset. */
  lemma {:induction false} CountGrows(s: State, acts: seq<Action>, t: State)
    requires Inv(s) && !s.writer.Resetting? && Reach(s, acts, t) && BeginReset !in acts
    ensures t.count >= s.count && !t.writer.Resetting?
    ensures (exists i :: 0 <= i < |acts| && (acts[i].CountOdd? || acts[i].CountEven?)) ==> t.count > s.count
    decreases |acts|
  {
    if acts != [] {
      var a, rest := acts[0], acts[1..];
      assert acts == [a] + rest;
      InvStep(s, a);
      CountGrows(Do(s, a), rest, t);
      if exists i :: 0 <= i < |acts| && (acts[i].CountOdd? || acts[i].CountEven?) {
        var i :| 0 <= i < |acts| && (acts[i].CountOdd? || acts[i].CountEven?);
        if i > 0 {
          assert rest[i - 1] == acts[i];
        }
      }
    }
  }

  lemma {:induction false} SampleUntilCheck(s: State, acts: seq<Action>, t: State, r: nat, cnt: int)
    requires Reach(s, acts, t) && CheckCount(r) !in acts && Holds(ReaderOf(s, r), cnt)
    ensures Holds(ReaderOf(t, r), cnt)
    decreases |acts|
  {
    if acts != [] {
      assert acts == [acts[0]] + acts[1..];
      SampleUntilCheck(Do(s, acts[0]), acts[1..], t, r, cnt);
    }
  }

  /** Conversely every store to the count in between is noticed, as long as nothing is reset. */
  lemma MovedCountClashes(initial: Payload, before: seq<Action>, s: State, r: nat, acts: seq<Action>, t: State)
    requires Reach(Init(initial), before, s) && |s.records| > 0
    requires Enabled(s, LoadCount(r)) && !s.writer.Resetting?
    requires Reach(Do(s, LoadCount(r)), acts, t) && CheckCount(r) !in acts && BeginReset !in acts
    requires exists i :: 0 <= i < |acts| && (acts[i].CountOdd? || acts[i].CountEven?)
    requires |t.records| > 0 && Enabled(t, CheckCount(r))
    ensures
      var log := LogOf(Do(t, CheckCount(r)), r);
      log[|log| - 1].ReadClash?
  {
    InvRun(Init(initial), before, s);
    InvStep(s, LoadCount(r));
    CountGrows(Do(s, LoadCount(r)), acts, t);
    SampleUntilCheck(Do(s, LoadCount(r)), acts, t, r, s.count);
  }
}
