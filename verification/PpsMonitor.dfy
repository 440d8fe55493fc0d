/** The PPS edge monitor of src/ntpshm/ppsthread.c on its RFC 2783 path, with PPS_CANWAIT:
    which edges are accepted as the start of a second, and when the report hook is called. */
module PpsMonitor {
  import opened Timespec

  /** time_pps_fetch: it times out, it fails otherwise, or it returns the times of the last
      assert and of the last clear edge. */
  datatype Fetch = TimedOut | Failed | Got(assertTs: Ts, clearTs: Ts)

  /** A struct timedelta_t: GPS time and system time of one instant. */
  datatype Fix = Fix(gps: Ts, clock: Ts)

  /** What get_edge_rfc2783 finds out; assertEdge is edge == 1. */
  datatype Edge = Edge(assertEdge: bool, ts: Ts, prevTs: Ts)

  datatype Monitor = Monitor(stateLast: bool, unchangedCount: nat, pulseAssert: Ts, pulseClear: Ts)

  datatype Outcome =
    | NoEdge                       // the loop goes on without a new edge
    | Strange                      // same edge as before and no known cycle
    | Ignored                      // stage two or three rejects the edge
    | WentBackwards
    | OutOfRange
    | Reported(gps: Ts, clock: Ts) // the report hook is called

  // ----------------------------------------------------------- stage one

  /** The later of the two edges, and the one before it. */
  function LastEdge(f: Fetch): Edge {
    match f
    case Got(a, c) =>
      if a.sec > c.sec || (a.sec == c.sec && a.nsec > c.nsec) then
        Edge(true, a, if c.sec == 0 then a else c)
      else
        Edge(false, c, a)
    case _ => Edge(false, Ts(0, 0), Ts(0, 0))
  }

  /** Edges are taken in the order of time; a tie counts as a clear edge. */
  lemma LastEdgeIsLatest(a: Ts, c: Ts)
    requires Normal(a) && Normal(c)
    ensures
      var e := LastEdge(Got(a, c));
      && (e.assertEdge <==> Nanos(a) > Nanos(c))
      && Nanos(e.ts) >= Nanos(a) && Nanos(e.ts) >= Nanos(c)
      && (e.ts == if e.assertEdge then a else c)
      && (e.prevTs == if !e.assertEdge || c.sec == 0 then a else c)
  {
    ComparisonsAreInstantOrder(a, c);
  }

  method GetEdge(f: Fetch) returns (retry: bool, e: Edge)
    ensures retry <==> f.TimedOut?
    ensures e == LastEdge(f)
    ensures !f.Got? ==> e == Edge(false, Ts(0, 0), Ts(0, 0))
  {
    e := Edge(false, Ts(0, 0), Ts(0, 0));
    match f {
      case TimedOut => retry := true;
      case Failed => retry := false;
      case Got(a, c) =>
        retry := false;
        var assertEdge: bool;
        if a.sec > c.sec {
          assertEdge := true;
        } else if a.sec < c.sec {
          assertEdge := false;
        } else if a.nsec > c.nsec {
          assertEdge := true;
        } else {
          assertEdge := false;
        }
        if assertEdge {
          e := Edge(true, a, if 0 == c.sec then a else c);
        } else {
          e := Edge(false, c, a);
        }
    }
  }

  function Usec(later: Ts, earlier: Ts): int {
    TruncDiv(DiffNs(later, earlier), 1000)
  }

  // ----------------------------------------------------------- stage two

  /** The cycle lengths for which an edge of unchanged direction is an invisible pulse. */
  predicate KnownCycle(cycle: int) {
    180_000 < cycle < 220_000 || 900_000 < cycle < 1_100_000 || 1_800_000 < cycle < 2_200_000
  }

  /** The pairs of cycle and duration, in microseconds, that are accepted. */
  predicate Accepts(cycle: int, duration: int, assertEdge: bool) {
    || (180_000 <= cycle < 201_000 && duration < 100_000)
    || (900_000 <= cycle < 1_100_000 &&
          (duration == 0 || duration >= 555_000 || (duration >= 450_000 && assertEdge)))
    || (1_800_000 <= cycle < 2_200_000 && 990_000 <= duration < 1_100_000)
  }

  method Categorize(cycle: int, duration: int, assertEdge: bool) returns (ok: bool)
    ensures ok <==> Accepts(cycle, duration, assertEdge)
  {
    ok := false;
    if 0 > cycle {
    } else if 180_000 > cycle {
    } else if 201_000 > cycle {
      if 100_000 > duration {
        ok := true;
      }
    } else if 900_000 > cycle {
    } else if 1_100_000 > cycle {
      if 0 == duration {
        ok := true;
      } else if 450_000 > duration {
      } else if 555_000 > duration {
        if assertEdge {
          ok := true;
        }
      } else {
        ok := true;
      }
    } else if 1_800_000 > cycle {
    } else if 2_200_000 > cycle {
      if 990_000 > duration {
      } else if 1_100_000 > duration {
        ok := true;
      }
    }
  }

  // --------------------------------------------------- stages three, four

  function Bumped(unchangedCount: nat): nat {
    if unchangedCount + 1 == 10 then 0 else unchangedCount + 1
  }

  function Cycle(m: Monitor, e: Edge): int {
    Usec(e.ts, if e.assertEdge then m.pulseAssert else m.pulseClear)
  }

  /** unchanged after the comparison with the last state. */
  function UnchangedNow(m: Monitor, e: Edge): nat {
    if e.assertEdge != m.stateLast || KnownCycle(Cycle(m, e)) then 0 else Bumped(m.unchangedCount)
  }

  function Duration(m: Monitor, e: Edge): int {
    if e.assertEdge == m.stateLast && KnownCycle(Cycle(m, e)) then 0 else Usec(e.ts, e.prevTs)
  }

  /** The verdict of stage two on an edge that is not strange. */
  predicate StageTwo(m: Monitor, e: Edge) {
    UnchangedNow(m, e) == 0 && Accepts(Cycle(m, e), Duration(m, e), e.assertEdge)
  }

  function Deliver(e: Edge, fix: Fix): Outcome {
    var delay := Diff(e.ts, fix.clock);
    if 0 > delay.sec || 0 > delay.nsec then WentBackwards
    else if 2 < delay.sec || (1 == delay.sec && 100_000_000 < delay.nsec) then OutOfRange
    else Reported(Ts(fix.gps.sec + 1, 0), e.ts)
  }

  function Verdict(m: Monitor, e: Edge, fix: Fix): Outcome {
    if UnchangedNow(m, e) != 0 then Strange
    else if !StageTwo(m, e) || fix.gps.sec <= 0 then Ignored
    else Deliver(e, fix)
  }

  function AfterEdge(m: Monitor, e: Edge): Monitor {
    Monitor(e.assertEdge, UnchangedNow(m, e),
            if e.assertEdge then e.ts else e.prevTs,
            if e.assertEdge then e.prevTs else e.ts)
  }

  /** The tests on the fields of a normalised delay, as bounds on the delay itself. */
  lemma DelayWindow(d: Ts)
    requires Normal(d)
    ensures 0 > d.sec || 0 > d.nsec <==> Nanos(d) < 0
    ensures !(0 > d.sec || 0 > d.nsec) && !(2 < d.sec || (1 == d.sec && 100_000_000 < d.nsec)) <==>
              0 <= Nanos(d) <= 1_100_000_000 || 2_000_000_000 <= Nanos(d) < 3_000_000_000
  {
  }

  lemma DeliveredDelays(e: Edge, fix: Fix)
    requires Normal(e.ts) && Normal(fix.clock)
    ensures
      var d := Nanos(e.ts) - Nanos(fix.clock);
      && (Deliver(e, fix).Reported? <==> 0 <= d <= 1_100_000_000 || 2_000_000_000 <= d < 3_000_000_000)
      && (Deliver(e, fix).WentBackwards? <==> d < 0)
      && (Deliver(e, fix).OutOfRange? <==> 1_100_000_000 < d < 2_000_000_000 || 3_000_000_000 <= d)
  {
    DiffExact(e.ts, fix.clock);
    DelayWindow(Diff(e.ts, fix.clock));
  }

  /** The report hook is called for an accepted edge exactly when the true delay since the
      last fix lies in [0, 1.1 s] or in [2 s, 3 s). */
  lemma ReportedDelays(m: Monitor, e: Edge, fix: Fix)
    requires Normal(e.ts) && Normal(fix.clock)
    ensures
      var d := Nanos(e.ts) - Nanos(fix.clock);
      Verdict(m, e, fix).Reported? <==>
        && StageTwo(m, e) && fix.gps.sec > 0
        && (0 <= d <= 1_100_000_000 || 2_000_000_000 <= d < 3_000_000_000)
  {
    DeliveredDelays(e, fix);
  }

  /** A reported edge is paired with the full second after the fix's, to the nanosecond, and
      with its own system time. */
  lemma ReportedPair(m: Monitor, e: Edge, fix: Fix)
    ensures
      var o := Verdict(m, e, fix);
      o.Reported? ==>
        && Nanos(o.gps) == fix.gps.sec * NS_IN_SEC + 1_000_000_000
        && o.gps.nsec == 0 && o.clock == e.ts
  {
  }

  /** Why an edge that stage two accepts is not reported. */
  lemma RejectedDelays(m: Monitor, e: Edge, fix: Fix)
    requires Normal(e.ts) && Normal(fix.clock)
    ensures
      var o, d := Verdict(m, e, fix), Nanos(e.ts) - Nanos(fix.clock);
      var usable := StageTwo(m, e) && fix.gps.sec > 0;
      && (o.WentBackwards? <==> usable && d < 0)
      && (o.OutOfRange? <==> usable && (1_100_000_000 < d < 2_000_000_000 || 3_000_000_000 <= d))
      && (o.Ignored? <==> UnchangedNow(m, e) == 0 && !usable)
      && !o.NoEdge?
  {
    DeliveredDelays(e, fix);
  }

  /** A kernel that captures one edge only: the edge has the direction of the last one. At the
      known cycles it passes for an invisible pulse and is accepted at 5 Hz and 1 Hz, but not at
      0.5 Hz; at any other cycle it is counted, and every tenth such edge is let through to be
      judged by its cycle and duration. */
  lemma SameDirection(m: Monitor, e: Edge)
    requires e.assertEdge == m.stateLast && m.unchangedCount < 10
    ensures
      var c := TruncDiv(Nanos(e.ts) - Nanos(if m.stateLast then m.pulseAssert else m.pulseClear), 1000);
      var known := 180_000 < c < 220_000 || 900_000 < c < 1_100_000 || 1_800_000 < c < 2_200_000;
      && (known ==> UnchangedNow(m, e) == 0
                    && (StageTwo(m, e) <==> 180_000 < c < 201_000 || 900_000 < c < 1_100_000))
      && (!known ==> UnchangedNow(m, e) == (m.unchangedCount + 1) % 10)
  {
  }

  /** A kernel that captures assert edges only, or clear edges only, leaves the other time at 0:
      each edge is then measured against the one before, and at about 1 Hz, to a microsecond
      within the limits, every edge from the second on is accepted. */
  lemma OneEdgeKernels(m: Monitor, first: Ts, second: Ts, asserts: bool)
    requires Normal(first) && Normal(second) && 0 < first.sec
    requires 900_001_000 <= Nanos(second) - Nanos(first) < 1_100_000_000
    ensures
      var zero := Ts(0, 0);
      var e := LastEdge(if asserts then Got(first, zero) else Got(zero, first));
      var next := LastEdge(if asserts then Got(second, zero) else Got(zero, second));
      && e.assertEdge == next.assertEdge == asserts && e.ts == first && next.ts == second
      && Cycle(AfterEdge(m, e), next) == TruncDiv(Nanos(second) - Nanos(first), 1000)
      && StageTwo(AfterEdge(m, e), next)
  {
    ComparisonsAreInstantOrder(second, first);
    ComparisonsAreInstantOrder(first, Ts(0, 0));
    ComparisonsAreInstantOrder(second, Ts(0, 0));
  }

  /** A fetch that fails without timing out goes on as a clear edge at time 0, which is never
      reported, whatever edges came before. */
  lemma FailedFetchIsNotReported(m: Monitor, fix: Fix)
    requires Nanos(m.pulseClear) >= 0
    ensures !Verdict(m, LastEdge(Failed), fix).Reported?
  {
  }

  class PpsThread {
    var stateLast: bool
    var unchangedCount: nat
    var pulseAssert: Ts
    var pulseClear: Ts
    var lastFixtime: Fix
    var ppsOut: Fix
    var ppsoutCount: nat

    function View(): Monitor
      reads this
    {
      Monitor(stateLast, unchangedCount, pulseAssert, pulseClear)
    }

    constructor ()
      ensures View() == Monitor(false, 0, Ts(0, 0), Ts(0, 0)) && ppsoutCount == 0
    {
      stateLast, unchangedCount, ppsoutCount := false, 0, 0;
      pulseAssert, pulseClear := Ts(0, 0), Ts(0, 0);
      lastFixtime := Fix(Ts(0, 0), Ts(0, 0));
      ppsOut := Fix(Ts(0, 0), Ts(0, 0));
    }

    /** Stage three and four for an edge that stage two accepted. */
    method Report(e: Edge) returns (o: Outcome)
      modifies this`ppsOut, this`ppsoutCount
      ensures o == Deliver(e, lastFixtime)
      ensures ppsoutCount == old(ppsoutCount) + (if o.Reported? then 1 else 0)
      ensures ppsOut == if o.Reported? then Fix(o.gps, o.clock) else old(ppsOut)
    {
      var gps := Ts(lastFixtime.gps.sec + 1, 0);
      var delay := Diff(e.ts, lastFixtime.clock);
      if 0 > delay.sec || 0 > delay.nsec {
        o := WentBackwards;
      } else if 2 < delay.sec || (1 == delay.sec && 100_000_000 < delay.nsec) {
        o := OutOfRange;
      } else {
        o := Reported(gps, e.ts);
        ppsOut := Fix(gps, e.ts);
        ppsoutCount := ppsoutCount + 1;
      }
    }

    /** Stage one after get_edge_rfc2783, and stage two. m is the state at the top of the loop. */
    method TakeEdge(e: Edge, ghost m: Monitor) returns (strange: bool, ok: bool)
      requires View() == m.(unchangedCount := Bumped(m.unchangedCount))
      modifies this`stateLast, this`unchangedCount, this`pulseAssert, this`pulseClear
      ensures View() == AfterEdge(m, e)
      ensures strange <==> UnchangedNow(m, e) != 0
      ensures !strange ==> (ok <==> StageTwo(m, e))
    {
      var cycle := Usec(e.ts, if e.assertEdge then pulseAssert else pulseClear);
      var duration := Usec(e.ts, e.prevTs);
      if e.assertEdge {
        pulseAssert, pulseClear := e.ts, e.prevTs;
      } else {
        pulseAssert, pulseClear := e.prevTs, e.ts;
      }
      if e.assertEdge != stateLast {
        unchangedCount := 0;
      } else if KnownCycle(cycle) {
        duration := 0;
        unchangedCount := 0;
      }
      stateLast := e.assertEdge;
      strange := unchangedCount != 0;
      ok := Categorize(cycle, duration, e.assertEdge);
    }

    /** One turn of the main loop; fixIn is what pps_thread_fixin stored last. */
    method Turn(f: Fetch, fixIn: Fix) returns (o: Outcome)
      modifies this
      ensures f.TimedOut? ==> o == NoEdge && View() == old(View()).(unchangedCount := Bumped(old(unchangedCount)))
      ensures !f.TimedOut? ==> View() == AfterEdge(old(View()), LastEdge(f))
      ensures lastFixtime == if f.Got? then fixIn else old(lastFixtime)
      ensures !f.TimedOut? ==> o == Verdict(old(View()), LastEdge(f), lastFixtime)
      ensures ppsoutCount == old(ppsoutCount) + (if o.Reported? then 1 else 0)
      ensures ppsOut == if o.Reported? then Fix(o.gps, o.clock) else old(ppsOut)
    {
      ghost var m := View();
      unchangedCount := unchangedCount + 1;
      if unchangedCount == 10 {
        unchangedCount := 0;
      }
      var retry, e := GetEdge(f);
      if f.Got? {
        lastFixtime := fixIn;
      }
      if retry {
        return NoEdge;
      }
      var strange, ok := TakeEdge(e, m);
      if strange {
        return Strange;
      }
      if lastFixtime.gps.sec == 0 {
        ok := false;
      } else if ok && 0 >= lastFixtime.gps.sec {
        ok := false;
      }
      if !ok {
        return Ignored;
      }
      o := Report(e);
    }
  }

  // ----------------------------------------------------------- pulse train

  /** When the edges of a pulse come, in nanoseconds: even numbers are assert edges, odd ones
      clear edges. Period and width may differ from pulse to pulse. */
  type Train = int -> int

  /** The edges come one after the other, and after the first second of the clock. */
  ghost predicate Running(p: Train) {
    (forall i, j :: -1 <= i < j ==> p(i) < p(j)) && p(-1) >= NS_IN_SEC
  }

  function EdgeTs(p: Train, j: int): Ts {
    OfNanos(p(j))
  }

  /** What the kernel returns once edge j has come. */
  function TrainFetch(p: Train, j: int): Fetch {
    if j % 2 == 0 then Got(EdgeTs(p, j), EdgeTs(p, j - 1)) else Got(EdgeTs(p, j - 1), EdgeTs(p, j))
  }

  lemma TrainEdge(p: Train, j: nat)
    requires Running(p)
    ensures LastEdge(TrainFetch(p, j)) == Edge(j % 2 == 0, EdgeTs(p, j), EdgeTs(p, j - 1))
  {
    var now, prev := EdgeTs(p, j), EdgeTs(p, j - 1);
    assert p(j - 1) < p(j) && p(-1) <= p(j - 1);
    assert prev.sec > 0;
    ComparisonsAreInstantOrder(now, prev);
    ComparisonsAreInstantOrder(prev, now);
  }

  lemma UsecOfNanos(a: int, b: int)
    ensures Usec(OfNanos(a), OfNanos(b)) == TruncDiv(a - b, 1000)
  {
    ComparisonsAreInstantOrder(OfNanos(a), OfNanos(b));
  }

  /** The monitor's state after the edges i .. j - 1 of the train, whatever it was before. */
  function AfterEdges(m: Monitor, p: Train, i: nat, j: nat): Monitor
    requires i <= j
    decreases j - i
  {
    if i == j then m else AfterEdge(AfterEdges(m, p, i, j - 1), LastEdge(TrainFetch(p, j - 1)))
  }

  /** Two edges of opposite direction in a row: the second one is measured against the stored
      times of the first. */
  lemma AlternatingEdge(m: Monitor, prev: Edge, e: Edge)
    requires e.assertEdge != prev.assertEdge && e.prevTs == prev.ts
    ensures
      var before := AfterEdge(m, prev);
      && UnchangedNow(before, e) == 0
      && Cycle(before, e) == Usec(e.ts, prev.prevTs)
      && Duration(before, e) == Usec(e.ts, e.prevTs)
  {
  }

  /** From the second edge it sees, a monitor in any state measures the time since the last
      edge of this direction as the cycle and the time since the previous edge as the
      duration, both in whole microseconds. */
  lemma SteadyFromSecondEdge(m: Monitor, p: Train, i: nat, j: nat)
    requires Running(p) && i < j
    ensures
      var before := AfterEdges(m, p, i, j);
      var e := LastEdge(TrainFetch(p, j));
      && UnchangedNow(before, e) == 0
      && Cycle(before, e) == TruncDiv(p(j) - p(j - 2), 1000)
      && Duration(before, e) == TruncDiv(p(j) - p(j - 1), 1000)
      && e.assertEdge == (j % 2 == 0)
  {
    TrainEdge(p, j);
    TrainEdge(p, j - 1);
    var before := AfterEdges(m, p, i, j - 1);
    assert AfterEdges(m, p, i, j) == AfterEdge(before, LastEdge(TrainFetch(p, j - 1)));
    TrainMeasures(before, p, j);
  }

  lemma TrainMeasures(m: Monitor, p: Train, j: nat)
    requires j > 0
    ensures
      var prev := Edge((j - 1) % 2 == 0, EdgeTs(p, j - 1), EdgeTs(p, j - 2));
      var e := Edge(j % 2 == 0, EdgeTs(p, j), EdgeTs(p, j - 1));
      && UnchangedNow(AfterEdge(m, prev), e) == 0
      && Cycle(AfterEdge(m, prev), e) == TruncDiv(p(j) - p(j - 2), 1000)
      && Duration(AfterEdge(m, prev), e) == TruncDiv(p(j) - p(j - 1), 1000)
  {
    assert (j - 1) % 2 == 0 <==> j % 2 != 0;
    AlternatingEdge(m, Edge((j - 1) % 2 == 0, EdgeTs(p, j - 1), EdgeTs(p, j - 2)),
                    Edge(j % 2 == 0, EdgeTs(p, j), EdgeTs(p, j - 1)));
    UsecOfNanos(p(j), p(j - 1));
    UsecOfNanos(p(j), p(j - 2));
  }

  predicate Accepted(m: Monitor, p: Train, i: nat, j: nat)
    requires i < j
  {
    StageTwo(AfterEdges(m, p, i, j), LastEdge(TrainFetch(p, j)))
  }

  /** A cycle of about one second. */
  predicate OneHertz(cycle: int) {
    900_000_000 <= cycle < 1_100_000_000
  }

  /** Which durations are accepted at 1 Hz; below 1 us the edge passes for an invisible pulse. */
  predicate LongEnough(duration: int, assertEdge: bool) {
    duration < 1000 || duration >= (if assertEdge then 450_000_000 else 555_000_000)
  }

  /** Stage two's thresholds on whole microseconds, as thresholds on nanoseconds. */
  lemma AcceptsAtOneHertz(cycle: int, duration: int, assertEdge: bool)
    requires OneHertz(cycle) && 0 < duration
    ensures Accepts(TruncDiv(cycle, 1000), TruncDiv(duration, 1000), assertEdge) <==>
              LongEnough(duration, assertEdge)
  {
  }

  /** Stage two at every rate, in nanoseconds: a short low or high time at 5 Hz, the 1 Hz rule,
      and half of a square wave at 0.5 Hz; no edge at any other rate. */
  lemma AcceptedAtAnyRate(m: Monitor, p: Train, i: nat, j: nat)
    requires Running(p) && i < j
    ensures
      var c, d := p(j) - p(j - 2), p(j) - p(j - 1);
      Accepted(m, p, i, j) <==>
        || (180_000_000 <= c < 201_000_000 && d < 100_000_000)
        || (OneHertz(c) && LongEnough(d, j % 2 == 0))
        || (1_800_000_000 <= c < 2_200_000_000 && 990_000_000 <= d < 1_100_000_000)
  {
    SteadyFromSecondEdge(m, p, i, j);
    assert p(j - 2) < p(j - 1) < p(j);
    AcceptsInNanos(p(j) - p(j - 2), p(j) - p(j - 1), j % 2 == 0);
  }

  lemma AcceptsInNanos(c: int, d: int, assertEdge: bool)
    requires 0 < d < c
    ensures Accepts(TruncDiv(c, 1000), TruncDiv(d, 1000), assertEdge) <==>
              || (180_000_000 <= c < 201_000_000 && d < 100_000_000)
              || (OneHertz(c) && LongEnough(d, assertEdge))
              || (1_800_000_000 <= c < 2_200_000_000 && 990_000_000 <= d < 1_100_000_000)
  {
  }

  /** The law of the whole monitor over a train: an edge that is accepted at its rate and comes
      within 1.1 s after a fix is published with the second after the fix's. If that is the
      second at which the edge really came, the pair holds the true offset of the system clock. */
  lemma EdgeIsPublished(m: Monitor, p: Train, i: nat, j: nat, fix: Fix)
    requires Running(p) && i < j && OneHertz(p(j) - p(j - 2)) && LongEnough(p(j) - p(j - 1), j % 2 == 0)
    requires Normal(fix.clock) && fix.gps.sec > 0 && 0 <= p(j) - Nanos(fix.clock) <= 1_100_000_000
    ensures
      var o := Verdict(AfterEdges(m, p, i, j), LastEdge(TrainFetch(p, j)), fix);
      && o.Reported? && o.gps.nsec == 0
      && Nanos(o.gps) == (fix.gps.sec + 1) * NS_IN_SEC && Nanos(o.clock) == p(j)
  {
    AcceptedIff(m, p, i, j);
    TrainEdge(p, j);
    var before := AfterEdges(m, p, i, j);
    ReportedDelays(before, LastEdge(TrainFetch(p, j)), fix);
    ReportedPair(before, LastEdge(TrainFetch(p, j)), fix);
  }

  /** Two published edges differ in GPS time by the seconds between their fixes, and in system
      time by the time between the edges. */
  lemma ReportsAreApart(m: Monitor, p: Train, i: nat, j: nat, k: nat, f: Fix, g: Fix)
    requires Running(p) && i < j && i < k
    ensures
      var first := Verdict(AfterEdges(m, p, i, j), LastEdge(TrainFetch(p, j)), f);
      var second := Verdict(AfterEdges(m, p, i, k), LastEdge(TrainFetch(p, k)), g);
      first.Reported? && second.Reported? ==>
        && Nanos(second.gps) - Nanos(first.gps) == (g.gps.sec - f.gps.sec) * NS_IN_SEC
        && Nanos(second.clock) - Nanos(first.clock) == p(k) - p(j)
  {
    TrainEdge(p, j);
    TrainEdge(p, k);
    ReportedPair(AfterEdges(m, p, i, j), LastEdge(TrainFetch(p, j)), f);
    ReportedPair(AfterEdges(m, p, i, k), LastEdge(TrainFetch(p, k)), g);
  }

  lemma AcceptedIff(m: Monitor, p: Train, i: nat, j: nat)
    requires Running(p) && i < j && OneHertz(p(j) - p(j - 2))
    ensures Accepted(m, p, i, j) <==> LongEnough(p(j) - p(j - 1), j % 2 == 0)
  {
    SteadyFromSecondEdge(m, p, i, j);
    assert p(j - 1) < p(j);
    AcceptsAtOneHertz(p(j) - p(j - 2), p(j) - p(j - 1), j % 2 == 0);
  }

  /** The time since the previous edge, taken from whichever of the edges j and j + 1 ends the
      low time (an assert edge) or the high time (a clear edge). */
  function TimeBefore(p: Train, j: nat, assertEdge: bool): int {
    if (j % 2 == 0) == assertEdge then p(j) - p(j - 1) else p(j + 1) - p(j)
  }

  /** Of the two edges of a period, both are accepted exactly when the high time lies in
      [555 ms, period - 450 ms] or one of the two times is below 1 us; neither exactly when the
      high time lies strictly between period - 450 ms and 555 ms. So at most one is accepted
      when the period is below 1.005 s and both times reach 1 us, and at least one when the
      period is not below 1.005 s. */
  predicate PeriodLaw(low: int, high: int, period: int, first: bool, second: bool) {
    && period == low + high
    && (first && second <==> 555_000_000 <= high <= period - 450_000_000 || high < 1000 || low < 1000)
    && (!first && !second <==> period - 450_000_000 < high < 555_000_000)
    && (period < 1_005_000_000 && low >= 1000 && high >= 1000 ==> !(first && second))
    && (period >= 1_005_000_000 ==> first || second)
  }

  lemma BothEdges(p: Train, j: nat, first: bool, second: bool)
    requires p(j - 1) < p(j) < p(j + 1) && OneHertz(p(j + 1) - p(j - 1))
    requires first <==> LongEnough(p(j) - p(j - 1), j % 2 == 0)
    requires second <==> LongEnough(p(j + 1) - p(j), (j + 1) % 2 == 0)
    ensures PeriodLaw(TimeBefore(p, j, true), TimeBefore(p, j, false), p(j + 1) - p(j - 1), first, second)
  {
    assert (j + 1) % 2 == 0 <==> j % 2 != 0;
  }

  lemma NextAcceptedIff(m: Monitor, p: Train, i: nat, j: nat)
    requires Running(p) && i < j && OneHertz(p(j + 1) - p(j - 1))
    ensures Accepted(m, p, i, j + 1) <==> LongEnough(p(j + 1) - p(j), (j + 1) % 2 == 0)
    ensures p(j - 1) < p(j) < p(j + 1)
  {
    AcceptedIff(m, p, i, j + 1);
  }

  /** PeriodLaw holds of any two neighbouring edges j, j + 1 after the first one seen, in either
      order of polarity, that come about one second after their predecessors. */
  lemma EdgesPerPeriod(m: Monitor, p: Train, i: nat, j: nat)
    requires Running(p) && i < j
    requires OneHertz(p(j) - p(j - 2)) && OneHertz(p(j + 1) - p(j - 1))
    ensures PeriodLaw(TimeBefore(p, j, true), TimeBefore(p, j, false), p(j + 1) - p(j - 1),
                      Accepted(m, p, i, j), Accepted(m, p, i, j + 1))
  {
    AcceptedIff(m, p, i, j);
    NextAcceptedIff(m, p, i, j);
    BothEdges(p, j, Accepted(m, p, i, j), Accepted(m, p, i, j + 1));
  }

  /** A pulse a second, 500 ns long. */
  function ShortPulse(): Train {
    (j: int) => (5 + j / 2) * NS_IN_SEC + (if j % 2 == 0 then 0 else 500)
  }

  lemma ShortPulseTimes(j: int)
    ensures ShortPulse()(j) - ShortPulse()(j - 2) == NS_IN_SEC
    ensures ShortPulse()(j) - ShortPulse()(j - 1) == if j % 2 == 0 then NS_IN_SEC - 500 else 500
  {
    assert (j - 2) / 2 == j / 2 - 1;
  }

  lemma ShortPulseRuns()
    ensures Running(ShortPulse())
  {
    forall i, j | -1 <= i < j
      ensures ShortPulse()(i) < ShortPulse()(j)
    {
      assert i / 2 <= j / 2;
    }
  }

  /** The case of a time below 1 us occurs: both edges of every such pulse are accepted. */
  lemma ShortPulseCountsTwice(m: Monitor, i: nat, j: nat)
    requires i < j
    ensures Running(ShortPulse())
    ensures Accepted(m, ShortPulse(), i, j)
  {
    ShortPulseRuns();
    ShortPulseTimes(j);
    AcceptedIff(m, ShortPulse(), i, j);
  }
}
