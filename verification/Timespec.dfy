/** Signed, normalised timespec arithmetic: src/ntpshm/timespec.h.
    A normalised value keeps its seconds and nanoseconds on the same side of zero. */
module Timespec {

  const NS_IN_SEC: int := 1_000_000_000
  const MS_IN_NS: int := 1_000_000
  const MS_IN_SEC: int := 1000

  datatype Ts = Ts(sec: int, nsec: int)

  /** The instant a timespec stands for, in nanoseconds. */
  function Nanos(t: Ts): int {
    t.sec * NS_IN_SEC + t.nsec
  }

  /** The three cases of the header comment: the fields never disagree in sign. */
  predicate Normal(t: Ts) {
    && -NS_IN_SEC < t.nsec < NS_IN_SEC
    && (t.sec > 0 ==> t.nsec >= 0)
    && (t.sec < 0 ==> t.nsec <= 0)
  }

  /** C division, which truncates toward zero. */
  function TruncDiv(a: int, b: int): (q: int)
    requires b > 0
    ensures a >= 0 ==> 0 <= q * b <= a < q * b + b
    ensures a <= 0 ==> q * b - b < a <= q * b <= 0
  {
    if a >= 0 then a / b else -((-a) / b)
  }

  /** The remainder that goes with TruncDiv. */
  function TruncMod(a: int, b: int): (r: int)
    requires b > 0
    ensures a == TruncDiv(a, b) * b + r
    ensures -b < r < b && (a >= 0 ==> r >= 0) && (a <= 0 ==> r <= 0)
  {
    a - TruncDiv(a, b) * b
  }

  /** The one normalised timespec that stands for n nanoseconds. */
  function OfNanos(n: int): (t: Ts)
    ensures Normal(t) && Nanos(t) == n
  {
    Ts(TruncDiv(n, NS_IN_SEC), TruncMod(n, NS_IN_SEC))
  }

  lemma NormalUnique(a: Ts, b: Ts)
    requires Normal(a) && Normal(b) && Nanos(a) == Nanos(b)
    ensures a == b
  {
    assert (a.sec - b.sec) * NS_IN_SEC == b.nsec - a.nsec;
  }

  /** What one call of TS_NORM does: at most one second is moved between the fields. */
  function NormStep(t: Ts): Ts {
    if t.sec >= 1 || (t.sec == 0 && t.nsec >= 0) then
      if t.nsec >= NS_IN_SEC then Ts(t.sec + 1, t.nsec - NS_IN_SEC)
      else if t.nsec < 0 then Ts(t.sec - 1, t.nsec + NS_IN_SEC)
      else t
    else
      if t.nsec <= -NS_IN_SEC then Ts(t.sec - 1, t.nsec + NS_IN_SEC)
      else if t.nsec > 0 then Ts(t.sec + 1, t.nsec - NS_IN_SEC)
      else t
  }

  /** The inputs for which a single borrow or carry is enough. */
  predicate OneStepSuffices(t: Ts) {
    if t.sec > 1 then -NS_IN_SEC <= t.nsec < 2 * NS_IN_SEC
    else if t.sec < -1 then -2 * NS_IN_SEC < t.nsec <= NS_IN_SEC
    else -2 * NS_IN_SEC < t.nsec < 2 * NS_IN_SEC
  }

  /** TS_NORM never changes the instant, and it normalises exactly the inputs above. */
  lemma NormStepExact(t: Ts)
    ensures Nanos(NormStep(t)) == Nanos(t)
    ensures Normal(NormStep(t)) <==> OneStepSuffices(t)
    ensures OneStepSuffices(t) ==> NormStep(t) == OfNanos(Nanos(t))
  {
    if OneStepSuffices(t) {
      NormalUnique(NormStep(t), OfNanos(Nanos(t)));
    }
  }

  function Diff(a: Ts, b: Ts): Ts {
    NormStep(Ts(a.sec - b.sec, a.nsec - b.nsec))
  }

  /** The difference of two normalised timespecs always needs at most one step. */
  lemma DiffExact(a: Ts, b: Ts)
    requires Normal(a) && Normal(b)
    ensures Normal(Diff(a, b))
    ensures Diff(a, b) == OfNanos(Nanos(a) - Nanos(b))
  {
    var raw := Ts(a.sec - b.sec, a.nsec - b.nsec);
    assert Nanos(raw) == Nanos(a) - Nanos(b);
    NormStepExact(raw);
  }

  // The comparison macros.
  predicate Gez(t: Ts) { 0 <= t.sec && 0 <= t.nsec }
  predicate Gz(t: Ts) { 0 < t.sec || 0 < t.nsec }
  predicate Nz(t: Ts) { 0 != t.sec || 0 != t.nsec }
  predicate Gt(a: Ts, b: Ts) { a.sec > b.sec || (a.sec == b.sec && a.nsec > b.nsec) }
  predicate Ge(a: Ts, b: Ts) { a.sec > b.sec || (a.sec == b.sec && a.nsec >= b.nsec) }
  predicate Eq(a: Ts, b: Ts) { a.sec == b.sec && a.nsec == b.nsec }

  function DiffNs(a: Ts, b: Ts): int {
    (a.sec - b.sec) * NS_IN_SEC + a.nsec - b.nsec
  }

  function ToMs(t: Ts): int {
    t.sec * MS_IN_SEC + TruncDiv(t.nsec, MS_IN_NS)
  }

  /** On normalised operands every comparison macro is the order of the instants. */
  lemma ComparisonsAreInstantOrder(a: Ts, b: Ts)
    requires Normal(a) && Normal(b)
    ensures Gt(a, b) <==> Nanos(a) > Nanos(b)
    ensures Ge(a, b) <==> Nanos(a) >= Nanos(b)
    ensures Eq(a, b) <==> Nanos(a) == Nanos(b)
    ensures Gez(a) <==> Nanos(a) >= 0
    ensures Gz(a) <==> Nanos(a) > 0
    ensures Nz(a) <==> Nanos(a) != 0
    ensures DiffNs(a, b) == Nanos(a) - Nanos(b)
    ensures ToMs(a) == TruncDiv(Nanos(a), MS_IN_NS)
  {
    if Nanos(a) == Nanos(b) {
      NormalUnique(a, b);
    }
    assert a.sec > b.sec ==> (a.sec - b.sec) * NS_IN_SEC >= NS_IN_SEC;
    assert a.sec < b.sec ==> (b.sec - a.sec) * NS_IN_SEC >= NS_IN_SEC;
    var q := TruncDiv(Nanos(a), MS_IN_NS);
    assert MS_IN_NS * q - MS_IN_NS < Nanos(a) < MS_IN_NS * q + MS_IN_NS;
    assert NS_IN_SEC == MS_IN_SEC * MS_IN_NS;
  }

  /** A struct timespec that its users change in place. */
  class Cell {
    var tvSec: int
    var tvNsec: int

    function View(): Ts
      reads this
    {
      Ts(tvSec, tvNsec)
    }

    constructor (t: Ts)
      ensures View() == t
    {
      tvSec, tvNsec := t.sec, t.nsec;
    }

    /** TS_NORM */
    method Norm()
      modifies this
      ensures View() == NormStep(old(View()))
      ensures Nanos(View()) == Nanos(old(View()))
      ensures Normal(View()) <==> OneStepSuffices(old(View()))
    {
      NormStepExact(View());
      if 1 <= tvSec || (0 == tvSec && 0 <= tvNsec) {
        if NS_IN_SEC <= tvNsec {
          tvNsec := tvNsec - NS_IN_SEC;
          tvSec := tvSec + 1;
        } else if 0 > tvNsec {
          tvNsec := tvNsec + NS_IN_SEC;
          tvSec := tvSec - 1;
        }
      } else {
        if -NS_IN_SEC >= tvNsec {
          tvNsec := tvNsec + NS_IN_SEC;
          tvSec := tvSec - 1;
        } else if 0 < tvNsec {
          tvNsec := tvNsec - NS_IN_SEC;
          tvSec := tvSec + 1;
        }
      }
    }

    /** TS_SUB with this as the destination, which may be one of the operands. */
    method Sub(a: Cell, b: Cell)
      modifies this
      ensures View() == Diff(old(a.View()), old(b.View()))
    {
      tvSec, tvNsec := a.tvSec - b.tvSec, a.tvNsec - b.tvNsec;
      Norm();
    }
  }
}
