/** One NTP shared-memory segment and its two users, ntp_write and ntp_read:
    src/ntpshm/ntpshm.h, src/ntpshm/ntpshmwrite.c and src/ntpshm/ntpshmread.c.
    The interleaved protocol is in module ShmProtocol. */
module NtpSegment {
  import opened Timespec

  const TWO32: int := 0x1_0000_0000
  const LEAP_NOWARNING: int := 0
  const LEAP_NOTINSYNC: int := 3

  type uint32 = x: int | 0 <= x < TWO32

  /** The value a 32-bit unsigned variable holds after a conversion. */
  function W32(x: int): (r: uint32)
    ensures 0 <= x < TWO32 ==> r == x
    ensures -TWO32 <= x < 0 ==> r == x + TWO32
  {
    x % TWO32
  }

  /** The fields that carry a sample, in the order in which ntp_write stores them. */
  datatype Sample = Sample(
    clockSec: int, clockUSec: int, clockNSec: uint32,
    recvSec: int, recvUSec: int, recvNSec: uint32,
    leap: int, precision: int)

  const NUM_FIELDS: nat := 8

  function Fields(s: Sample): (f: seq<int>)
    ensures |f| == NUM_FIELDS
  {
    [s.clockSec, s.clockUSec, s.clockNSec, s.recvSec, s.recvUSec, s.recvNSec, s.leap, s.precision]
  }

  lemma FieldsInjective(a: Sample, b: Sample)
    requires Fields(a) == Fields(b)
    ensures a == b
  {
    assert forall i :: 0 <= i < NUM_FIELDS ==> Fields(a)[i] == Fields(b)[i];
    assert a.clockSec == Fields(a)[0] && a.clockUSec == Fields(a)[1] && a.clockNSec == Fields(a)[2];
    assert a.recvSec == Fields(a)[3] && a.recvUSec == Fields(a)[4] && a.recvNSec == Fields(a)[5];
    assert a.leap == Fields(a)[6] && a.precision == Fields(a)[7];
  }

  /** The whole struct shmTime. */
  datatype Seg = Seg(mode: int, count: int, sample: Sample, nsamples: int, valid: int)

  /** A segment as ntpshm_alloc hands it out. */
  function FreshSeg(): Seg {
    Seg(1, 0, Sample(0, 0, 0, 0, 0, 0, LEAP_NOTINSYNC, -20), 3, 0)
  }

  datatype Status = Ok | NoSegment | NotReady | BadMode | Clash

  datatype Stat = Stat(status: Status, tvc: Ts, tvr: Ts, tvt: Ts, precision: int, leap: int)

  // ---------------------------------------------------------------- writer

  /** The sample ntp_write publishes for the pair (real, clock), both already normalised. */
  function SampleOf(realTs: Ts, clockTs: Ts, precision: int, leap: int): Sample {
    Sample(realTs.sec, TruncDiv(realTs.nsec, 1000), W32(realTs.nsec),
           clockTs.sec, TruncDiv(clockTs.nsec, 1000), W32(clockTs.nsec),
           leap, precision)
  }

  /** A leap warning is passed on in June and December only. */
  function LeapFor(month: int, leapNotify: int): int {
    if month != 5 && month != 11 then LEAP_NOWARNING else leapNotify
  }

  /** The segment after one complete ntp_write. */
  function Written(s: Seg, realTs: Ts, clockTs: Ts, precision: int, leap: int): Seg {
    s.(count := s.count + 2, sample := SampleOf(realTs, clockTs, precision, leap), valid := 1)
  }

  // ---------------------------------------------------------------- reader

  /** Both nanosecond fields extend their microsecond field, in the reader's unsigned arithmetic. */
  predicate NanosAgree(s: Sample) {
    && W32(s.clockNSec - W32(s.clockUSec * 1000)) < 1000
    && W32(s.recvNSec - W32(s.recvUSec * 1000)) < 1000
  }

  function ReadTvt(s: Sample): Ts {
    Ts(s.clockSec, if NanosAgree(s) then s.clockNSec else s.clockUSec * 1000)
  }

  function ReadTvr(s: Sample): Ts {
    Ts(s.recvSec, if NanosAgree(s) then s.recvNSec else s.recvUSec * 1000)
  }

  /** What the loads of one ntp_read return: valid, count, the copied words, count again. A
      writer may store between any two of them. */
  datatype Loads = Loads(valid: int, count: int, copy: Seg, countAgain: int)

  /** The loads when nobody stores in between. */
  function Quiet(seg: Seg): Loads {
    Loads(seg.valid, seg.count, seg, seg.count)
  }

  /** What ntp_read leaves in *shm_stat. */
  function ReadStat(l: Loads, before: Stat): Stat {
    var st := before.(tvc := Ts(0, 0));
    var sample := l.copy.sample;
    if l.valid == 0 then st.(status := NotReady)
    else if l.copy.mode > 0 && l.count != l.countAgain then st.(status := Clash)
    else if l.copy.mode == 0 || l.copy.mode == 1 then
      st.(status := Ok, tvr := ReadTvr(sample), tvt := ReadTvt(sample),
          leap := sample.leap, precision := sample.precision)
    else
      st.(status := BadMode, leap := sample.leap, precision := sample.precision)
  }

  // ------------------------------------------------------------ properties

  predicate MicrosInRange(s: Sample) {
    0 <= s.clockUSec < 1_000_000 && 0 <= s.recvUSec < 1_000_000
  }

  /** Despite the wrap-around the test accepts exactly the pairs whose microseconds are
      the truncated nanoseconds. */
  lemma WrapTestMeansTruncation(usec: int, nsec: uint32)
    requires 0 <= usec < 1_000_000
    ensures W32(nsec - W32(usec * 1000)) < 1000 <==> nsec / 1000 == usec
  {
    var base := usec * 1000;
    assert W32(base) == base;
    if nsec >= base {
      assert W32(nsec - base) == nsec - base;
      assert nsec - base < 1000 <==> nsec / 1000 == usec;
    } else {
      assert W32(nsec - base) == nsec - base + TWO32;
      assert nsec / 1000 < usec;
    }
  }

  /** Whatever another process left in the segment: the two nanosecond fields are adopted
      together or not at all, exactly when both truncate to their microseconds, and a
      timestamp is never more than 999 ns above its microsecond value. */
  lemma ReconcileWholeSegment(s: Sample)
    requires MicrosInRange(s)
    ensures NanosAgree(s) <==> s.clockNSec / 1000 == s.clockUSec && s.recvNSec / 1000 == s.recvUSec
    ensures (ReadTvt(s).nsec == s.clockNSec && ReadTvr(s).nsec == s.recvNSec)
         || (ReadTvt(s).nsec == s.clockUSec * 1000 && ReadTvr(s).nsec == s.recvUSec * 1000)
    ensures s.clockUSec * 1000 <= ReadTvt(s).nsec <= s.clockUSec * 1000 + 999
    ensures s.recvUSec * 1000 <= ReadTvr(s).nsec <= s.recvUSec * 1000 + 999
    ensures ReadTvt(s).sec == s.clockSec && ReadTvr(s).sec == s.recvSec
  {
    WrapTestMeansTruncation(s.clockUSec, s.clockNSec);
    WrapTestMeansTruncation(s.recvUSec, s.recvNSec);
  }

  /** When ntp_read ends how, for all it can load; and only an OK read touches the times, only
      an OK or a BAD_MODE one leap and precision. A clash needs a positive mode: a segment in a
      negative mode is refused for its mode, however its count moves. */
  lemma ReadEndsHow(l: Loads, before: Stat)
    ensures
      var st, mode, moved := ReadStat(l, before), l.copy.mode, l.count != l.countAgain;
      && (st.status == NotReady <==> l.valid == 0)
      && (st.status == Clash <==> l.valid != 0 && mode > 0 && moved)
      && (st.status == BadMode <==> l.valid != 0 && (mode < 0 || (mode > 1 && !moved)))
      && (st.status == Ok <==> l.valid != 0 && (mode == 0 || (mode == 1 && !moved)))
      && st.tvc == Ts(0, 0)
      && (st.status != Ok ==> st.tvr == before.tvr && st.tvt == before.tvt)
      && (st.status == NotReady || st.status == Clash ==>
            st.leap == before.leap && st.precision == before.precision)
      && (st.status == Ok || st.status == BadMode ==>
            st.leap == l.copy.sample.leap && st.precision == l.copy.sample.precision)
  {
  }

  /** One timestamp field through the writer and the reader's test. */
  lemma FieldRoundTrip(nsec: int)
    requires -NS_IN_SEC < nsec < NS_IN_SEC
    ensures nsec >= 0 ==> W32(W32(nsec) - W32(TruncDiv(nsec, 1000) * 1000)) < 1000 && W32(nsec) == nsec
    ensures nsec < 0 ==> W32(nsec) != nsec
    ensures nsec < 0 && W32(W32(nsec) - W32(TruncDiv(nsec, 1000) * 1000)) >= 1000 ==>
              TruncDiv(nsec, 1000) * 1000 != nsec
  {
    var base := TruncDiv(nsec, 1000) * 1000;
    if nsec >= 0 {
      assert 0 <= base <= nsec < base + 1000;
    } else if base == nsec {
      assert W32(nsec) - W32(base) == 0;
    }
  }

  /** Where other programs find a published pair: the reference time in the clock fields, the
      system time in the receive fields, each in seconds with truncated microseconds and, for a
      time whose parts are not negative, with its nanoseconds. */
  lemma PublishedFieldsMeanTimes(seg: Seg, realTs: Ts, clockTs: Ts, precision: int, leap: int)
    requires Normal(realTs) && Normal(clockTs) && realTs.nsec >= 0 && clockTs.nsec >= 0
    ensures
      var w := Written(seg, realTs, clockTs, precision, leap);
      && w.sample.clockSec * NS_IN_SEC + w.sample.clockNSec == Nanos(realTs)
      && w.sample.recvSec * NS_IN_SEC + w.sample.recvNSec == Nanos(clockTs)
      && w.sample.clockUSec * 1000 <= realTs.nsec < w.sample.clockUSec * 1000 + 1000
      && w.sample.recvUSec * 1000 <= clockTs.nsec < w.sample.recvUSec * 1000 + 1000
      && w.sample.leap == leap && w.sample.precision == precision
      && w.valid == 1 && w.count == seg.count + 2 && w.mode == seg.mode && w.nsamples == seg.nsamples
  {
  }

  /** A write that nobody disturbs is read back to the nanosecond, in modes 0 and 1 alike,
      exactly when neither timestamp has a negative nanosecond part. */
  lemma WriteReadRoundTrip(seg: Seg, realTs: Ts, clockTs: Ts, precision: int, leap: int, before: Stat)
    requires seg.mode == 0 || seg.mode == 1
    requires Normal(realTs) && Normal(clockTs)
    ensures
      var w := Written(seg, realTs, clockTs, precision, leap);
      var st := ReadStat(Quiet(w), before);
      && st.status == Ok && st.leap == leap && st.precision == precision
      && st.tvt.sec == realTs.sec && st.tvr.sec == clockTs.sec
      && ((st.tvt == realTs && st.tvr == clockTs) <==> (realTs.nsec >= 0 && clockTs.nsec >= 0))
  {
    FieldRoundTrip(realTs.nsec);
    FieldRoundTrip(clockTs.nsec);
  }

  /** The same for the caller's own, not yet normalised pair of times. */
  lemma PublishedInstantsAreReadBack(seg: Seg, realTs: Ts, clockTs: Ts, precision: int, leap: int, before: Stat)
    requires seg.mode == 0 || seg.mode == 1
    requires OneStepSuffices(realTs) && OneStepSuffices(clockTs)
    requires Nanos(realTs) >= 0 && Nanos(clockTs) >= 0
    ensures
      var w := Written(seg, NormStep(realTs), NormStep(clockTs), precision, leap);
      var st := ReadStat(Quiet(w), before);
      st.status == Ok && Nanos(st.tvt) == Nanos(realTs) && Nanos(st.tvr) == Nanos(clockTs)
  {
    NormStepExact(realTs);
    NormStepExact(clockTs);
    WriteReadRoundTrip(seg, NormStep(realTs), NormStep(clockTs), precision, leap, before);
  }

  // --------------------------------------------------------------- objects

  class ShmStat {
    var status: Status
    var tvc: Ts
    var tvr: Ts
    var tvt: Ts
    var precision: int
    var leap: int

    function View(): Stat
      reads this
    {
      Stat(status, tvc, tvr, tvt, precision, leap)
    }
  }

  class ShmTime {
    var mode: int
    var count: int
    var clockTimeStampSec: int
    var clockTimeStampUSec: int
    var receiveTimeStampSec: int
    var receiveTimeStampUSec: int
    var leap: int
    var precision: int
    var nsamples: int
    var valid: int
    var clockTimeStampNSec: uint32
    var receiveTimeStampNSec: uint32

    function View(): Seg
      reads this
    {
      Seg(mode, count,
          Sample(clockTimeStampSec, clockTimeStampUSec, clockTimeStampNSec,
                 receiveTimeStampSec, receiveTimeStampUSec, receiveTimeStampNSec,
                 leap, precision),
          nsamples, valid)
    }

    /** The initialisation in ntpshm_alloc. */
    method Reset()
      modifies this
      ensures View() == FreshSeg()
      ensures mode == 1 && count == 0 && valid == 0 && leap == 3 && precision == -20 && nsamples == 3
      ensures clockTimeStampSec == 0 && clockTimeStampUSec == 0 && clockTimeStampNSec == 0
      ensures receiveTimeStampSec == 0 && receiveTimeStampUSec == 0 && receiveTimeStampNSec == 0
    {
      mode, count, valid := 0, 0, 0;
      clockTimeStampSec, clockTimeStampUSec, clockTimeStampNSec := 0, 0, 0;
      receiveTimeStampSec, receiveTimeStampUSec, receiveTimeStampNSec := 0, 0, 0;
      mode := 1;
      leap := LEAP_NOTINSYNC;
      precision := -20;
      nsamples := 3;
    }

    /** The stores of ntp_write between its two increments of count. */
    method StoreSample(realTs: Ts, clockTs: Ts, precision0: int, leap0: int)
      modifies this
      ensures View() == old(View()).(sample := SampleOf(realTs, clockTs, precision0, leap0))
    {
      clockTimeStampSec := realTs.sec;
      clockTimeStampUSec := TruncDiv(realTs.nsec, 1000);
      clockTimeStampNSec := W32(realTs.nsec);
      receiveTimeStampSec := clockTs.sec;
      receiveTimeStampUSec := TruncDiv(clockTs.nsec, 1000);
      receiveTimeStampNSec := W32(clockTs.nsec);
      leap := leap0;
      precision := precision0;
    }

    /** ntp_write: real and clock are the members of *td, month is what gmtime_r said. */
    method Write(realTs: Cell, clockTs: Cell, month: int, precision0: int, leapNotify: int)
      requires realTs != clockTs
      modifies this, realTs, clockTs
      ensures realTs.View() == NormStep(old(realTs.View()))
      ensures clockTs.View() == NormStep(old(clockTs.View()))
      ensures View() == Written(old(View()), realTs.View(), clockTs.View(), precision0, LeapFor(month, leapNotify))
      ensures leap == if month == 5 || month == 11 then leapNotify else 0
    {
      var leap0 := leapNotify;
      if 5 != month && 11 != month {
        leap0 := LEAP_NOWARNING;
      }
      realTs.Norm();
      clockTs.Norm();
      valid := 0;
      count := count + 1;
      StoreSample(realTs.View(), clockTs.View(), precision0, leap0);
      count := count + 1;
      valid := 1;
    }
  }

  /** ntp_read. What the loads return is an input: the segment may change between them. */
  method Read(shm: ShmTime?, stat: ShmStat, consume: bool, l: Loads) returns (r: Status)
    modifies stat, if shm != null then {shm} else {}
    ensures r == stat.status
    ensures shm == null ==> stat.View() == old(stat.View()).(status := NoSegment)
    ensures shm != null ==> stat.View() == ReadStat(l, old(stat.View()))
    ensures shm != null ==>
              shm.View() == if l.valid != 0 && consume then old(shm.View()).(valid := 0) else old(shm.View())
  {
    if shm == null {
      stat.status := NoSegment;
      return NoSegment;
    }
    stat.tvc := Ts(0, 0);
    if l.valid == 0 {
      stat.status := NotReady;
      return NotReady;
    }
    var cnt := l.count;
    var copy := l.copy;
    if consume {
      shm.valid := 0;
    }
    if copy.mode > 0 && cnt != l.countAgain {
      stat.status := Clash;
      return stat.status;
    }
    stat.status := Ok;
    if copy.mode == 0 || copy.mode == 1 {
      var rNs, cNs := copy.sample.recvUSec * 1000, copy.sample.clockUSec * 1000;
      if W32(copy.sample.clockNSec - W32(cNs)) < 1000 && W32(copy.sample.recvNSec - W32(rNs)) < 1000 {
        cNs := copy.sample.clockNSec;
        rNs := copy.sample.recvNSec;
      }
      stat.tvr := Ts(copy.sample.recvSec, rNs);
      stat.tvt := Ts(copy.sample.clockSec, cNs);
    } else {
      stat.status := BadMode;
    }
    stat.leap := copy.sample.leap;
    stat.precision := copy.sample.precision;
    r := stat.status;
  }
}
