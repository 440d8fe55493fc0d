/** The phasemeter thread: src/phasemeter.c. It pairs the two interleaved 1PPS event
    streams online and reports a phase error for each pair. */
module Phasemeter {

  const EXTTS_INDEX_ART_INTERNAL_PPS: int := 5
  const EXTTS_INDEX_GNSS_PPS: int := 0
  const MILLISECONDS_500: int := 500_000_000
  const NS_PER_SEC: int := 1_000_000_000

  /** What read() on the clock yields: nothing usable, or an event. */
  datatype Raw = ReadFailed | Event(sec: int, nsec: int, index: int)

  /** A timestamp of one of the two pulse sources. */
  datatype Stamp = Stamp(timestamp: int, gnss: bool)

  datatype Report =
    | NoGnss          // PHASEMETER_NO_GNSS_TIMESTAMPS
    | NoInternal      // PHASEMETER_NO_ART_INTERNAL_TIMESTAMPS
    | Both(phaseError: int)

  /** read_extts with the index filter of its callers. */
  predicate Usable(e: Raw) {
    e.Event? && e.sec >= 0 && (e.index == EXTTS_INDEX_ART_INTERNAL_PPS || e.index == EXTTS_INDEX_GNSS_PPS)
  }

  function StampOf(e: Raw): Stamp
    requires Usable(e)
  {
    Stamp(e.sec * NS_PER_SEC + e.nsec, e.index == EXTTS_INDEX_GNSS_PPS)
  }

  /** The usable timestamps of an event stream, in order. */
  function Filter(raw: seq<Raw>): seq<Stamp> {
    if raw == [] then []
    else if Usable(raw[0]) then [StampOf(raw[0])] + Filter(raw[1..])
    else Filter(raw[1..])
  }

  /** An event counts if its second is not negative and its index is 0, the receiver's pulse, or
      5, the internal one; it is kept as nanoseconds, in its place in the stream. */
  lemma {:induction false} FilterKeeps(raw: seq<Raw>, e: Raw)
    ensures Filter(raw + [e]) ==
              Filter(raw) + (if e.Event? && e.sec >= 0 && (e.index == 0 || e.index == 5)
                             then [Stamp(e.sec * 1_000_000_000 + e.nsec, e.index == 0)] else [])
    decreases |raw|
  {
    if raw == [] {
      assert raw + [e] == [e] && [e][1..] == [];
    } else {
      assert (raw + [e])[1..] == raw[1..] + [e];
      FilterKeeps(raw[1..], e);
    }
  }

  // ---------------------------------------------------------- specification

  /** GNSS minus internal, whichever of the two came first. */
  function PhaseError(a: Stamp, b: Stamp): int {
    if a.gnss then a.timestamp - b.timestamp else b.timestamp - a.timestamp
  }

  /** Two timestamps of different sources at most half a second apart. */
  predicate Match(a: Stamp, b: Stamp) {
    a.gnss != b.gnss && -MILLISECONDS_500 <= PhaseError(a, b) <= MILLISECONDS_500
  }

  /** The reports for a stream of timestamps that is read without an unmatched one in hand. */
  function Reports(s: seq<Stamp>): seq<Report>
    decreases |s|
  {
    if |s| < 2 then []
    else if Match(s[0], s[1]) then [Both(PhaseError(s[0], s[1]))] + Reports(s[2..])
    else if s[0].gnss == s[1].gnss then [if s[0].gnss then NoInternal else NoGnss] + Reports(s[1..])
    else Reports(s[1..])
  }

  /** The positions at which the loop pairs a timestamp with its successor, from offset k. */
  function Pairs(s: seq<Stamp>, k: nat): seq<nat>
    requires k <= |s|
    decreases |s| - k
  {
    if |s| - k < 2 then []
    else if Match(s[k], s[k + 1]) then [k] + Pairs(s, k + 2)
    else Pairs(s, k + 1)
  }

  /** The phase errors among some reports. */
  function Errors(r: seq<Report>): seq<int> {
    if r == [] then []
    else if r[0].Both? then [r[0].phaseError] + Errors(r[1..])
    else Errors(r[1..])
  }

  // ------------------------------------------------------ optimal matching

  /** m names disjoint pairs of neighbours, all at k or later, all of them matches. */
  ghost predicate Matching(s: seq<Stamp>, m: seq<nat>, k: nat) {
    && (forall i :: 0 <= i < |m| ==> k <= m[i] && m[i] + 1 < |s| && Match(s[m[i]], s[m[i] + 1]))
    && (forall i, j :: 0 <= i < j < |m| ==> m[i] + 2 <= m[j])
  }

  lemma {:induction false} PairsIsMatching(s: seq<Stamp>, k: nat)
    requires k <= |s|
    ensures Matching(s, Pairs(s, k), k)
    decreases |s| - k
  {
    if |s| - k >= 2 {
      if Match(s[k], s[k + 1]) {
        PairsIsMatching(s, k + 2);
      } else {
        PairsIsMatching(s, k + 1);
      }
    }
  }

  lemma {:induction false} PairsIsOptimal(s: seq<Stamp>, m: seq<nat>, k: nat)
    requires k <= |s| && Matching(s, m, k)
    ensures |m| <= |Pairs(s, k)|
    decreases |s| - k
  {
    if m != [] {
      assert m[0] + 1 < |s|;
      var rest := m[1..];
      assert Matching(s, rest, k + 2) by {
        assert forall i :: 0 <= i < |rest| ==> rest[i] == m[i + 1] && m[0] + 2 <= m[i + 1];
      }
      if Match(s[k], s[k + 1]) {
        PairsIsOptimal(s, rest, k + 2);
      } else {
        assert forall i :: 0 <= i < |m| ==> m[0] <= m[i];
        assert m[0] != k;
        PairsIsOptimal(s, m, k + 1);
      }
    }
  }

  lemma {:induction false} ErrorsAreThosePairs(s: seq<Stamp>, k: nat)
    requires k <= |s|
    ensures |Errors(Reports(s[k..]))| == |Pairs(s, k)|
    ensures forall i :: 0 <= i < |Pairs(s, k)| ==>
              && Pairs(s, k)[i] + 1 < |s|
              && Errors(Reports(s[k..]))[i] == PhaseError(s[Pairs(s, k)[i]], s[Pairs(s, k)[i] + 1])
    decreases |s| - k
  {
    PairsIsMatching(s, k);
    if |s| - k >= 2 {
      NextError(s[k..]);
      assert s[k..][1..] == s[k + 1..] && s[k..][2..] == s[k + 2..];
      if Match(s[k], s[k + 1]) {
        ErrorsAreThosePairs(s, k + 2);
      } else {
        ErrorsAreThosePairs(s, k + 1);
      }
    }
  }

  /** The greedy loop is an optimal matching: the phase errors it reports are those of
      pairwise disjoint matches, and no choice of disjoint matches of neighbours is larger. */
  lemma ReportsAreMaximumMatching(raw: seq<Raw>, other: seq<nat>)
    requires Matching(Filter(raw), other, 0)
    ensures
      var s := Filter(raw);
      var e := Errors(Reports(s));
      && Matching(s, Pairs(s, 0), 0)
      && |e| == |Pairs(s, 0)|
      && (forall i :: 0 <= i < |e| ==> e[i] == PhaseError(s[Pairs(s, 0)[i]], s[Pairs(s, 0)[i] + 1]))
      && |other| <= |e|
  {
    var s := Filter(raw);
    PairsIsMatching(s, 0);
    PairsIsOptimal(s, other, 0);
    ErrorsAreThosePairs(s, 0);
    assert s[0..] == s;
  }

  // --------------------------------------------------- one pulse per second

  /** One second: the internal pulse is offset by d from the GNSS pulse. */
  datatype Second = Second(d: int, gnssFirst: bool)

  predicate InOrder(p: Second) {
    && -MILLISECONDS_500 <= p.d <= MILLISECONDS_500
    && (p.d > 0 ==> p.gnssFirst) && (p.d < 0 ==> !p.gnssFirst)
  }

  /** The two timestamps of second k, in the order in which they arrive. */
  function TwoStamps(k: int, p: Second): seq<Stamp> {
    var g := Stamp(k * NS_PER_SEC, true);
    var i := Stamp(k * NS_PER_SEC + p.d, false);
    if p.gnssFirst then [g, i] else [i, g]
  }

  /** The timestamps of the seconds ps, of which the first is second k. */
  function Stream(k: int, ps: seq<Second>): (s: seq<Stamp>)
    ensures |s| == 2 * |ps|
    decreases |ps|
  {
    if ps == [] then [] else TwoStamps(k, ps[0]) + Stream(k + 1, ps[1..])
  }

  function Negated(ps: seq<Second>): (r: seq<int>)
    ensures |r| == |ps|
  {
    seq(|ps|, (i: nat) requires i < |ps| => -ps[i].d)
  }

  lemma {:induction false} StreamFromItsStart(k: int, ps: seq<Second>)
    requires forall i :: 0 <= i < |ps| ==> InOrder(ps[i])
    ensures Reports(Stream(k, ps)) == seq(|ps|, (i: nat) requires i < |ps| => Both(-ps[i].d))
    decreases |ps|
  {
    if ps != [] {
      var s := Stream(k, ps);
      assert InOrder(ps[0]);
      assert s[0] == TwoStamps(k, ps[0])[0] && s[1] == TwoStamps(k, ps[0])[1];
      assert s[2..] == Stream(k + 1, ps[1..]);
      assert Match(s[0], s[1]) && PhaseError(s[0], s[1]) == -ps[0].d;
      StreamFromItsStart(k + 1, ps[1..]);
    }
  }

  lemma {:induction false} ErrorsOfAllBoth(r: seq<Report>)
    requires forall i :: 0 <= i < |r| ==> r[i].Both?
    ensures Errors(r) == seq(|r|, (i: nat) requires i < |r| => r[i].phaseError)
    decreases |r|
  {
    if r != [] {
      ErrorsOfAllBoth(r[1..]);
    }
  }

  /** The second timestamp of p matches the first one of the next second q: both start with the
      same source, and the one that is off its second is off by half a second towards the other. */
  predicate Slips(p: Second, q: Second) {
    p.gnssFirst == q.gnssFirst && (if p.gnssFirst then p.d == MILLISECONDS_500 else q.d == -MILLISECONDS_500)
  }

  /** What a thread reports that has missed the first event of the first second: it pairs across
      seconds as long as they slip, and is in step from then on. */
  function LateErrors(ps: seq<Second>): seq<int>
    requires ps != []
    decreases |ps|
  {
    if |ps| == 1 then []
    else if Slips(ps[0], ps[1]) then
      [if ps[0].gnssFirst then MILLISECONDS_500 else -MILLISECONDS_500] + LateErrors(ps[1..])
    else Negated(ps[1..])
  }

  lemma NextError(s: seq<Stamp>)
    requires |s| >= 2
    ensures Errors(Reports(s)) ==
              if Match(s[0], s[1]) then [PhaseError(s[0], s[1])] + Errors(Reports(s[2..]))
              else Errors(Reports(s[1..]))
  {
    if Match(s[0], s[1]) {
      assert Reports(s)[1..] == Reports(s[2..]);
    } else if s[0].gnss == s[1].gnss {
      assert Reports(s)[1..] == Reports(s[1..]);
    }
  }

  lemma AcrossSeconds(k: int, p: Second, q: Second)
    requires InOrder(p) && InOrder(q)
    ensures Match(TwoStamps(k, p)[1], TwoStamps(k + 1, q)[0]) <==> Slips(p, q)
    ensures Slips(p, q) ==>
              PhaseError(TwoStamps(k, p)[1], TwoStamps(k + 1, q)[0]) ==
              if p.gnssFirst then MILLISECONDS_500 else -MILLISECONDS_500
  {
  }

  /** A stream without its first timestamp. */
  lemma LateStream(k: int, ps: seq<Second>)
    requires |ps| > 1
    ensures
      var late, rest := Stream(k, ps)[1..], Stream(k + 1, ps[1..]);
      && late[0] == TwoStamps(k, ps[0])[1] && late[1] == TwoStamps(k + 1, ps[1])[0]
      && late[1..] == rest && late[2..] == rest[1..]
  {
    var late, rest := Stream(k, ps)[1..], Stream(k + 1, ps[1..]);
    assert late == [TwoStamps(k, ps[0])[1]] + rest;
  }

  lemma ErrorsFromItsStart(k: int, ps: seq<Second>)
    requires forall i :: 0 <= i < |ps| ==> InOrder(ps[i])
    ensures Errors(Reports(Stream(k, ps))) == Negated(ps)
  {
    StreamFromItsStart(k, ps);
    ErrorsOfAllBoth(Reports(Stream(k, ps)));
  }

  lemma {:induction false} JoiningLate(k: int, ps: seq<Second>)
    requires ps != [] && forall i :: 0 <= i < |ps| ==> InOrder(ps[i])
    ensures Errors(Reports(Stream(k, ps)[1..])) == LateErrors(ps)
    decreases |ps|
  {
    if |ps| > 1 {
      LateStream(k, ps);
      NextError(Stream(k, ps)[1..]);
      AcrossSeconds(k, ps[0], ps[1]);
      if Slips(ps[0], ps[1]) {
        JoiningLate(k + 1, ps[1..]);
      } else {
        ErrorsFromItsStart(k + 1, ps[1..]);
      }
    }
  }

  /** A late joiner reports every second after the first correctly exactly when the first one
      does not slip into the second, which takes an offset of a full half second. */
  lemma LateIsRightIff(ps: seq<Second>)
    requires ps != [] && forall i :: 0 <= i < |ps| ==> InOrder(ps[i])
    ensures LateErrors(ps) == Negated(ps[1..]) <==> |ps| == 1 || !Slips(ps[0], ps[1])
  {
    if |ps| > 1 && Slips(ps[0], ps[1]) {
      assert InOrder(ps[1]);
      assert LateErrors(ps)[0] != Negated(ps[1..])[0];
    }
  }

  /** With offsets of at most half a second: from the first event on every second gives exactly
      one report, with the phase error -d; a thread that joins in the middle of the first second
      does so from the second one on exactly when the first does not slip; and the value
      survives the 32-bit field it is stored in. */
  lemma OneExactReportPerSecond(k: int, ps: seq<Second>)
    requires ps != [] && forall i :: 0 <= i < |ps| ==> InOrder(ps[i])
    ensures Errors(Reports(Stream(k, ps))) == Negated(ps)
    ensures Errors(Reports(Stream(k, ps)[1..])) == Negated(ps[1..]) <==> |ps| == 1 || !Slips(ps[0], ps[1])
    ensures forall i :: 0 <= i < |ps| ==> ToInt32(Negated(ps)[i]) == Negated(ps)[i]
  {
    ErrorsFromItsStart(k, ps);
    JoiningLate(k, ps);
    LateIsRightIff(ps);
    forall i | 0 <= i < |ps|
      ensures ToInt32(Negated(ps)[i]) == Negated(ps)[i]
    {
      assert InOrder(ps[i]);
    }
  }

  /** Below half a second nothing slips, wherever the thread joins. */
  lemma BelowHalfASecondIsRight(k: int, ps: seq<Second>)
    requires ps != [] && forall i :: 0 <= i < |ps| ==> InOrder(ps[i])
    requires forall i :: 0 <= i < |ps| ==> -MILLISECONDS_500 < ps[i].d < MILLISECONDS_500
    ensures Errors(Reports(Stream(k, ps))) == Negated(ps)
    ensures Errors(Reports(Stream(k, ps)[1..])) == Negated(ps[1..])
  {
    OneExactReportPerSecond(k, ps);
  }

  /** Conversion to the int32_t field phase_error. */
  function ToInt32(x: int): (r: int)
    ensures -0x8000_0000 <= r < 0x8000_0000
    ensures -0x8000_0000 <= x < 0x8000_0000 ==> r == x
  {
    (x + 0x8000_0000) % 0x1_0000_0000 - 0x8000_0000
  }

  lemma {:induction false} SlippingForEver(ps: seq<Second>, d: int)
    requires ps != [] && (d == MILLISECONDS_500 || d == -MILLISECONDS_500)
    requires forall i :: 0 <= i < |ps| ==> ps[i] == Second(d, d > 0)
    ensures |LateErrors(ps)| == |ps| - 1
    ensures forall i :: 0 <= i < |ps| - 1 ==> LateErrors(ps)[i] == d
    decreases |ps|
  {
    if |ps| > 1 {
      SlippingForEver(ps[1..], d);
    }
  }

  /** With the internal pulse half a second late in every second, or half a second early, a
      thread that joins in the middle of a second pairs across seconds for ever, and reports
      the wrong sign. */
  lemma HalfSecondOffsetIsNeverCorrected(k: int, ps: seq<Second>, d: int)
    requires ps != [] && (d == MILLISECONDS_500 || d == -MILLISECONDS_500)
    requires forall i :: 0 <= i < |ps| ==> ps[i] == Second(d, d > 0)
    ensures
      var e := Errors(Reports(Stream(k, ps)[1..]));
      |e| == |ps| - 1 && forall i :: 0 <= i < |e| ==> e[i] == d && e[i] != -ps[i + 1].d
  {
    JoiningLate(k, ps);
    SlippingForEver(ps, d);
  }

  // ---------------------------------------------------------------- thread

  datatype Status = Initial | BothTimestamps | NoGnssTimestamps | NoInternalTimestamps

  /** What status and phase_error hold after some reports; phasemeter_init leaves the error
      unset. */
  function Shown(unset: int, log: seq<Report>): (Status, int)
    decreases |log|
  {
    if log == [] then (Initial, unset)
    else
      var before := Shown(unset, log[..|log| - 1]);
      match log[|log| - 1]
      case NoGnss => (NoGnssTimestamps, before.1)
      case NoInternal => (NoInternalTimestamps, before.1)
      case Both(e) => (BothTimestamps, ToInt32(e))
  }

  /** The error shown is the last one reported; before the first one it is whatever the memory
      held, under each of the other statuses. */
  lemma {:induction false} ShownErrorIsLastReported(unset: int, log: seq<Report>)
    ensures Shown(unset, log).1 ==
              if Errors(log) == [] then unset else ToInt32(Errors(log)[|Errors(log)| - 1])
    ensures log == [] ==> Shown(unset, log).0 == Initial
    ensures log != [] ==>
              var last := log[|log| - 1];
              && (Shown(unset, log).0 == NoGnssTimestamps <==> last.NoGnss?)
              && (Shown(unset, log).0 == NoInternalTimestamps <==> last.NoInternal?)
              && (Shown(unset, log).0 == BothTimestamps <==> last.Both?)
    decreases |log|
  {
    if log != [] {
      var front, last := log[..|log| - 1], log[|log| - 1];
      ShownErrorIsLastReported(unset, front);
      assert log == front + [last];
      ErrorsSnoc(front, last);
    }
  }

  lemma {:induction false} ErrorsSnoc(log: seq<Report>, r: Report)
    ensures Errors(log + [r]) == Errors(log) + (if r.Both? then [r.phaseError] else [])
    decreases |log|
  {
    if log != [] {
      assert (log + [r])[1..] == log[1..] + [r];
      ErrorsSnoc(log[1..], r);
    }
  }

  /** When one source falls silent every further pulse of the other one announces just that. */
  lemma {:induction false} SilenceIsAnnounced(unset: int, s: seq<Stamp>, gnss: bool)
    requires |s| >= 2 && forall i :: 0 <= i < |s| ==> s[i].gnss == gnss
    ensures |Reports(s)| == |s| - 1
    ensures forall i :: 0 <= i < |Reports(s)| ==> Reports(s)[i] == if gnss then NoInternal else NoGnss
    ensures Shown(unset, Reports(s)) == (if gnss then NoInternalTimestamps else NoGnssTimestamps, unset)
    decreases |s|
  {
    assert Reports(s) == [if gnss then NoInternal else NoGnss] + Reports(s[1..]);
    if |s| > 2 {
      SilenceIsAnnounced(unset, s[1..], gnss);
    }
    NoPairsNoErrors(Reports(s));
    ShownErrorIsLastReported(unset, Reports(s));
  }

  lemma {:induction false} NoPairsNoErrors(log: seq<Report>)
    requires forall i :: 0 <= i < |log| ==> !log[i].Both?
    ensures Errors(log) == []
    decreases |log|
  {
    if log != [] {
      NoPairsNoErrors(log[1..]);
    }
  }

  /** What is still to be processed: the timestamp in hand, if any, and the events from i on. */
  ghost function Pending(found: bool, st: Stamp, raw: seq<Raw>, i: nat): seq<Stamp>
    requires i <= |raw|
  {
    if found then [st] + Filter(raw[i..]) else []
  }

  /** The first report of a stream, by the branches of the loop. */
  lemma FirstReport(a: Stamp, b: Stamp, rest: seq<Stamp>)
    ensures Match(a, b) ==> Reports([a] + ([b] + rest)) == [Both(PhaseError(a, b))] + Reports(rest)
    ensures a.gnss == b.gnss ==>
              Reports([a] + ([b] + rest)) == [if a.gnss then NoInternal else NoGnss] + Reports([b] + rest)
    ensures a.gnss != b.gnss && !Match(a, b) ==> Reports([a] + ([b] + rest)) == Reports([b] + rest)
  {
    var s := [a] + ([b] + rest);
    assert s[0] == a && s[1] == b && s[1..] == [b] + rest && s[2..] == rest;
  }

  lemma Moved(log: seq<Report>, r: Report, rest: seq<Report>)
    ensures log + ([r] + rest) == (log + [r]) + rest
  {
  }

  /** The do-while loops around read_extts: the next usable event at or after position i. */
  method NextStamp(raw: seq<Raw>, i: nat) returns (found: bool, st: Stamp, j: nat)
    requires i <= |raw|
    ensures i <= j <= |raw|
    ensures found ==> i < j
    ensures Filter(raw[i..]) == Pending(found, st, raw, j)
  {
    j := i;
    st := Stamp(0, false);
    while j < |raw|
      invariant i <= j <= |raw|
      invariant Filter(raw[i..]) == Filter(raw[j..])
    {
      assert raw[j..][0] == raw[j] && raw[j..][1..] == raw[j + 1..];
      j := j + 1;
      if Usable(raw[j - 1]) {
        return true, StampOf(raw[j - 1]), j;
      }
    }
    found := false;
  }

  /** The stop flag as the thread sees it: stops(0) at the start, stops(n) with the n-th report. */
  type StopFlag = nat -> bool

  ghost predicate UnstoppedBefore(stops: StopFlag, n: nat) {
    forall m: nat :: m < n ==> !stops(m)
  }

  class Meter {
    var status: Status
    var phaseError: int
    var published: nat
    /** What the allocated memory held in the place of phaseError. */
    ghost const unset: int
    ghost var log: seq<Report>

    /** get_phase_error sees the last report. */
    ghost predicate Valid()
      reads this
    {
      (status, phaseError) == Shown(unset, log) && published == |log|
    }

    /** phasemeter_init */
    constructor (leftover: int)
      ensures Valid() && log == [] && unset == leftover
    {
      status, phaseError, published, log, unset := Initial, leftover, 0, [], leftover;
    }

    /** One critical section of the thread: it publishes and reads the stop flag. */
    method Publish(r: Report, stops: StopFlag) returns (stop: bool)
      requires Valid() && UnstoppedBefore(stops, |log| + 1)
      modifies this
      ensures Valid() && log == old(log) + [r]
      ensures stop == stops(|log|) && UnstoppedBefore(stops, |log|)
    {
      match r {
        case NoGnss => status := NoGnssTimestamps;
        case NoInternal => status := NoInternalTimestamps;
        case Both(e) => status, phaseError := BothTimestamps, ToInt32(e);
      }
      log, published := log + [r], published + 1;
      stop := stops(published);
      assert log[..|log| - 1] == old(log);
    }

    /** The three branches of the loop for two timestamps in hand. */
    method Compare(ts1: Stamp, ts2: Stamp, stops: StopFlag, ghost rest: seq<Stamp>, ghost all: seq<Report>)
      returns (paired: bool, stop: bool)
      requires Valid() && UnstoppedBefore(stops, |log| + 1)
      requires log + Reports([ts1] + ([ts2] + rest)) == all
      modifies this
      ensures Valid() && UnstoppedBefore(stops, |log|) && stop == stops(|log|)
      ensures paired <==> Match(ts1, ts2)
      ensures log + Reports(if paired then rest else [ts2] + rest) == all
    {
      FirstReport(ts1, ts2, rest);
      Moved(log, Both(PhaseError(ts1, ts2)), Reports(rest));
      Moved(log, if ts1.gnss then NoInternal else NoGnss, Reports([ts2] + rest));
      paired, stop := false, false;
      if !ts1.gnss && ts1.gnss == ts2.gnss {
        stop := Publish(NoGnss, stops);
      } else if ts1.gnss && ts1.gnss == ts2.gnss {
        stop := Publish(NoInternal, stops);
      } else {
        var diff := ts2.timestamp - ts1.timestamp;
        diff := if ts1.gnss then -diff else diff;
        if diff > MILLISECONDS_500 || diff < -MILLISECONDS_500 {
          return;
        }
        stop := Publish(Both(diff), stops);
        paired := true;
      }
    }

    /** phasemeter_thread on a finite event stream: the reports are those of the
        specification, cut off after the first one at which the stop flag was set. */
    method Thread(raw: seq<Raw>, stops: StopFlag)
      requires Valid() && log == []
      modifies this
      ensures Valid() && UnstoppedBefore(stops, |log|)
      ensures log <= Reports(Filter(raw))
      ensures log == Reports(Filter(raw)) || stops(|log|)
    {
      var stop := stops(0);
      var found, ts1, i := NextStamp(raw, 0);
      assert raw[0..] == raw;
      ghost var all := Reports(Filter(raw));
      while found && !stop
        invariant Valid() && i <= |raw|
        invariant stop == stops(|log|) && UnstoppedBefore(stops, |log|)
        invariant log + Reports(Pending(found, ts1, raw, i)) == all
        decreases |raw| - i, found
      {
        var more, ts2, j := NextStamp(raw, i);
        if !more {
          found := false;
        } else {
          var paired;
          paired, stop := Compare(ts1, ts2, stops, Filter(raw[j..]), all);
          if paired {
            found, ts1, i := NextStamp(raw, j);
          } else {
            ts1, i := ts2, j;
          }
        }
      }
    }
  }
}
