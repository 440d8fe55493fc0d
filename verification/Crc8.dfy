/** The CRC-8 of the manufacturing EEPROM: gencrc in utils/eeprom.c. */
module Crc8 {
  import opened Common
  import opened Gf2

  // -------------------------------------------------- bytes as polynomials

  /** Bit i of a byte. */
  predicate Bit(b: byte, i: nat)
    requires i < 8
  {
    match i
    case 0 => b & 0x01 != 0
    case 1 => b & 0x02 != 0
    case 2 => b & 0x04 != 0
    case 3 => b & 0x08 != 0
    case 4 => b & 0x10 != 0
    case 5 => b & 0x20 != 0
    case 6 => b & 0x40 != 0
    case 7 => b & 0x80 != 0
  }

  function PolyOf(b: byte): Poly {
    set i: nat | i < 8 && Bit(b, i)
  }

  // Facts about 8-bit words, bit by bit.

  lemma XorWord(a: byte, b: byte)
    ensures ((a ^ b) & 0x01 != 0) <==> ((a & 0x01 != 0) != (b & 0x01 != 0))
    ensures ((a ^ b) & 0x02 != 0) <==> ((a & 0x02 != 0) != (b & 0x02 != 0))
    ensures ((a ^ b) & 0x04 != 0) <==> ((a & 0x04 != 0) != (b & 0x04 != 0))
    ensures ((a ^ b) & 0x08 != 0) <==> ((a & 0x08 != 0) != (b & 0x08 != 0))
    ensures ((a ^ b) & 0x10 != 0) <==> ((a & 0x10 != 0) != (b & 0x10 != 0))
    ensures ((a ^ b) & 0x20 != 0) <==> ((a & 0x20 != 0) != (b & 0x20 != 0))
    ensures ((a ^ b) & 0x40 != 0) <==> ((a & 0x40 != 0) != (b & 0x40 != 0))
    ensures ((a ^ b) & 0x80 != 0) <==> ((a & 0x80 != 0) != (b & 0x80 != 0))
  {
  }

  lemma EqualWord(a: byte, b: byte)
    requires (a & 0x01 != 0) == (b & 0x01 != 0)
    requires (a & 0x02 != 0) == (b & 0x02 != 0)
    requires (a & 0x04 != 0) == (b & 0x04 != 0)
    requires (a & 0x08 != 0) == (b & 0x08 != 0)
    requires (a & 0x10 != 0) == (b & 0x10 != 0)
    requires (a & 0x20 != 0) == (b & 0x20 != 0)
    requires (a & 0x40 != 0) == (b & 0x40 != 0)
    requires (a & 0x80 != 0) == (b & 0x80 != 0)
    ensures a == b
  {
  }

  lemma XorZero(a: byte, b: byte)
    ensures a ^ b == 0 <==> a == b
  {
  }

  lemma TimesXWord(c: byte, t: byte)
    requires t == if c & 0x80 != 0 then (c << 1) ^ 0x31 else c << 1
    ensures (t & 0x01 != 0) <==> (c & 0x80 != 0)
    ensures (t & 0x02 != 0) <==> (c & 0x01 != 0)
    ensures (t & 0x04 != 0) <==> (c & 0x02 != 0)
    ensures (t & 0x08 != 0) <==> (c & 0x04 != 0)
    ensures (t & 0x10 != 0) <==> ((c & 0x08 != 0) != (c & 0x80 != 0))
    ensures (t & 0x20 != 0) <==> ((c & 0x10 != 0) != (c & 0x80 != 0))
    ensures (t & 0x40 != 0) <==> (c & 0x20 != 0)
    ensures (t & 0x80 != 0) <==> (c & 0x40 != 0)
  {
  }

  lemma BitXor(a: byte, b: byte, i: nat)
    requires i < 8
    ensures Bit(a ^ b, i) <==> Bit(a, i) != Bit(b, i)
  {
    XorWord(a, b);
    match i {
      case 0 =>
      case 1 =>
      case 2 =>
      case 3 =>
      case 4 =>
      case 5 =>
      case 6 =>
      case 7 =>
    }
  }

  lemma PolyXor(a: byte, b: byte)
    ensures PolyOf(a ^ b) == Add(PolyOf(a), PolyOf(b))
  {
    var c := a ^ b;
    forall i: nat
      ensures i in PolyOf(c) <==> i in Add(PolyOf(a), PolyOf(b))
    {
      if i < 8 {
        BitXor(a, b, i);
      }
    }
  }

  lemma PolyInjective(a: byte, b: byte)
    requires PolyOf(a) == PolyOf(b)
    ensures a == b
  {
    forall i: nat | i < 8
      ensures Bit(a, i) <==> Bit(b, i)
    {
      assert i in PolyOf(a) <==> i in PolyOf(b);
    }
    assert Bit(a, 0) == Bit(b, 0) && Bit(a, 1) == Bit(b, 1) && Bit(a, 2) == Bit(b, 2) && Bit(a, 3) == Bit(b, 3);
    assert Bit(a, 4) == Bit(b, 4) && Bit(a, 5) == Bit(b, 5) && Bit(a, 6) == Bit(b, 6) && Bit(a, 7) == Bit(b, 7);
    EqualWord(a, b);
  }

  // ------------------------------------------------------------ the CRC

  /** The body of the inner loop. */
  function TimesX(c: byte): byte {
    if c & 0x80 != 0 then (c << 1) ^ 0x31 else c << 1
  }

  /** n rounds of the inner loop. */
  function Rounds(c: byte, n: nat): byte {
    if n == 0 then c else TimesX(Rounds(c, n - 1))
  }

  function Crc(d: seq<byte>): byte
    decreases |d|
  {
    if d == [] then 0xff else Rounds(Crc(d[..|d| - 1]) ^ d[|d| - 1], 8)
  }

  method Gencrc(data: array<byte>, len: nat) returns (crc: byte)
    requires len <= data.Length
    ensures crc == Crc(data[..len])
  {
    crc := 0xff;
    var i := 0;
    while i < len
      invariant i <= len
      invariant crc == Crc(data[..i])
    {
      crc := crc ^ data[i];
      ghost var start := crc;
      var j := 0;
      while j < 8
        invariant j <= 8
        invariant crc == Rounds(start, j)
      {
        if crc & 0x80 != 0 {
          crc := (crc << 1) ^ 0x31;
        } else {
          crc := crc << 1;
        }
        j := j + 1;
      }
      assert data[..i + 1][..i] == data[..i];
      i := i + 1;
    }
  }

  // ------------------------------------------------- polynomial division

  /** The message as a polynomial: the first byte is the most significant one. */
  function Message(d: seq<byte>): Poly {
    set n: nat | n < 8 * |d| && Bit(d[|d| - 1 - n / 8], n % 8)
  }

  /** 0xFF x^(8n) + D(x) x^8 */
  function Dividend(d: seq<byte>): Poly {
    Add(Shift(PolyOf(0xff), 8 * |d|), Shift(Message(d), 8))
  }

  lemma MessageAppend(d: seq<byte>, b: byte)
    ensures Message(d + [b]) == Add(Shift(Message(d), 8), PolyOf(b))
  {
    forall n: nat
      ensures n in Message(d + [b]) <==> n in Add(Shift(Message(d), 8), PolyOf(b))
    {
      ShiftMember(Message(d), 8, n);
      if n >= 8 {
        assert (n - 8) / 8 == n / 8 - 1 && (n - 8) % 8 == n % 8;
      }
    }
  }

  /** The bits of one round: those of the shifted byte, and the generator's if x^7 was set. */
  lemma TimesXBit(c: byte, n: nat)
    ensures n < 8 ==>
              (Bit(TimesX(c), n) <==>
                 (n >= 1 && Bit(c, n - 1)) != (Bit(c, 7) && (n == 0 || n == 4 || n == 5)))
  {
    TimesXWord(c, TimesX(c));
  }

  /** One round is a multiplication by x, reduced. */
  lemma TimesXCong(c: byte)
    ensures Cong(PolyOf(TimesX(c)), Shift(PolyOf(c), 1))
  {
    var t := TimesX(c);
    var q: Poly := if Bit(c, 7) then {0} else {};
    forall n: nat
      ensures n in Add(PolyOf(t), Shift(PolyOf(c), 1)) <==> n in MulG(q)
    {
      TimesXBit(c, n);
      ShiftMember(PolyOf(c), 1, n);
      MulGMember(q, n);
    }
    assert Add(PolyOf(t), Shift(PolyOf(c), 1)) == MulG(q);
  }

  lemma RoundCong(c: Poly, p: byte, n: nat)
    requires Cong(PolyOf(p), Shift(c, n))
    ensures Cong(PolyOf(TimesX(p)), Shift(c, n + 1))
  {
    CongShift(PolyOf(p), Shift(c, n), 1);
    ShiftShift(c, n, 1);
    TimesXCong(p);
    CongTrans(PolyOf(TimesX(p)), Shift(PolyOf(p), 1), Shift(c, n + 1));
  }

  lemma {:induction false} RoundsCong(c: byte, n: nat)
    ensures Cong(PolyOf(Rounds(c, n)), Shift(PolyOf(c), n))
  {
    if n == 0 {
      ShiftZero(PolyOf(c));
      CongRefl(PolyOf(c));
    } else {
      RoundsCong(c, n - 1);
      RoundCong(PolyOf(c), Rounds(c, n - 1), n - 1);
    }
  }

  lemma {:induction false} CrcCong(d: seq<byte>)
    ensures Cong(PolyOf(Crc(d)), Dividend(d))
    decreases |d|
  {
    if d == [] {
      assert Message(d) == {} && Shift({}, 8) == {};
      ShiftZero(PolyOf(0xff));
      assert Dividend(d) == PolyOf(0xff);
      CongRefl(PolyOf(0xff));
    } else {
      var front, b := d[..|d| - 1], d[|d| - 1];
      var c := Crc(front);
      CrcCong(front);
      CongRefl(PolyOf(b));
      CongAdd(PolyOf(c), Dividend(front), PolyOf(b), PolyOf(b));
      PolyXor(c, b);
      var sum := Add(Dividend(front), PolyOf(b));
      CongShift(PolyOf(c ^ b), sum, 8);
      DividendStep(front, b);
      assert front + [b] == d;
      RoundsCong(c ^ b, 8);
      CongTrans(PolyOf(Crc(d)), Shift(PolyOf(c ^ b), 8), Dividend(d));
    }
  }

  lemma DividendStep(d: seq<byte>, b: byte)
    ensures Shift(Add(Dividend(d), PolyOf(b)), 8) == Dividend(d + [b])
  {
    var ff, m := PolyOf(0xff), Message(d);
    ShiftAdd(Dividend(d), PolyOf(b), 8);
    ShiftAdd(Shift(ff, 8 * |d|), Shift(m, 8), 8);
    ShiftShift(ff, 8 * |d|, 8);
    MessageAppend(d, b);
    ShiftAdd(Shift(m, 8), PolyOf(b), 8);
    assert 8 * |d| + 8 == 8 * |d + [b]|;
  }

  /** The bit loop is polynomial division: for every byte string the CRC is the remainder of
      0xFF x^(8n) + D(x) x^8 modulo x^8 + x^5 + x^4 + 1, and nothing else is. */
  lemma CrcIsRemainder(d: seq<byte>)
    ensures IsRemainder(PolyOf(Crc(d)), Dividend(d))
    ensures forall r: Poly :: IsRemainder(r, Dividend(d)) ==> r == PolyOf(Crc(d))
  {
    CrcCong(d);
    forall r: Poly | IsRemainder(r, Dividend(d))
      ensures r == PolyOf(Crc(d))
    {
      CongSym(PolyOf(Crc(d)), Dividend(d));
      CongTrans(r, Dividend(d), PolyOf(Crc(d)));
      RemainderUnique(r, PolyOf(Crc(d)));
    }
  }

  // ------------------------------------------------------ error detection

  /** The bit positions in which two messages differ. */
  function Errors(a: seq<byte>, b: seq<byte>): Poly {
    Add(Message(a), Message(b))
  }

  /** Two messages of one length collide exactly when their difference is a multiple of the
      generator. */
  lemma CollisionIff(a: seq<byte>, b: seq<byte>)
    requires |a| == |b|
    ensures Crc(a) == Crc(b) <==> Cong(Errors(a, b), {})
  {
    var e := Errors(a, b);
    CrcCong(a);
    CrcCong(b);
    CongAdd(PolyOf(Crc(a)), Dividend(a), PolyOf(Crc(b)), Dividend(b));
    var lhs, rhs := Add(PolyOf(Crc(a)), PolyOf(Crc(b))), Shift(e, 8);
    ShiftAdd(Message(a), Message(b), 8);
    assert Add(Dividend(a), Dividend(b)) == rhs;
    if Crc(a) == Crc(b) {
      assert lhs == {};
      CongSym({}, rhs);
      CancelShift(e, 8);
    }
    if Cong(e, {}) {
      CongShift(e, {}, 8);
      assert Shift({}, 8) == {};
      CongTrans(lhs, rhs, {});
      RemainderUnique(lhs, {});
      assert PolyOf(Crc(a)) == PolyOf(Crc(b)) by {
        forall n: nat
          ensures n in PolyOf(Crc(a)) <==> n in PolyOf(Crc(b))
        {
          assert n !in lhs;
        }
      }
      PolyInjective(Crc(a), Crc(b));
    }
  }

  /** Every odd number of wrong bits, and every burst of at most 8 bits, is detected,
      however long the message is. */
  lemma ErrorsDetected(a: seq<byte>, b: seq<byte>, k: nat)
    requires |a| == |b|
    ensures OddWeight(Errors(a, b)) ==> Crc(a) != Crc(b)
    ensures a != b && (forall n :: n in Errors(a, b) ==> k <= n < k + 8) ==> Crc(a) != Crc(b)
  {
    CollisionIff(a, b);
    var e := Errors(a, b);
    if OddWeight(e) {
      OddIsNoMultiple(e);
    }
    if a != b && forall n :: n in e ==> k <= n < k + 8 {
      DifferenceShows(a, b);
      BurstIsNoMultiple(e, k);
    }
  }

  lemma DifferenceShows(a: seq<byte>, b: seq<byte>)
    requires |a| == |b| && a != b
    ensures Errors(a, b) != {}
  {
    var i :| 0 <= i < |a| && a[i] != b[i];
    if forall j: nat | j < 8 :: Bit(a[i], j) == Bit(b[i], j) {
      assert PolyOf(a[i]) == PolyOf(b[i]);
      PolyInjective(a[i], b[i]);
    }
    var j: nat :| j < 8 && Bit(a[i], j) != Bit(b[i], j);
    var n: nat := 8 * (|a| - 1 - i) + j;
    DivMod8(|a| - 1 - i, j);
    assert n in Errors(a, b);
  }

  lemma DivMod8(q: nat, r: nat)
    requires r < 8
    ensures (8 * q + r) / 8 == q && (8 * q + r) % 8 == r
  {
  }

  // ------------------------------------------------------- two-bit errors

  lemma {:induction false} RoundsAdd(c: byte, m: nat, n: nat)
    ensures Rounds(c, m + n) == Rounds(Rounds(c, m), n)
  {
    if n > 0 {
      RoundsAdd(c, m, n - 1);
    }
  }

  /** The eight rounds of one byte. */
  function EightRounds(c: byte): (r: byte)
    ensures r == Rounds(c, 8)
  {
    var c1 := TimesX(c);
    var c2 := TimesX(c1);
    var c3 := TimesX(c2);
    var c4 := TimesX(c3);
    var c5 := TimesX(c4);
    var c6 := TimesX(c5);
    var c7 := TimesX(c6);
    assert c1 == Rounds(c, 1) && c2 == Rounds(c, 2);
    assert c3 == Rounds(c, 3) && c4 == Rounds(c, 4);
    assert c5 == Rounds(c, 5) && c6 == Rounds(c, 6);
    assert c7 == Rounds(c, 7);
    TimesX(c7)
  }

  lemma OneByteFurther(n: nat, c: byte)
    requires Rounds(1, n) == c
    ensures Rounds(1, n + 8) == EightRounds(c)
  {
    RoundsAdd(1, n, 8);
  }

  /** x has order 127 modulo the generator ... */
  lemma FullPeriod()
    ensures Rounds(1, 127) == 1
  {
    OneByteFurther(0, 0x01);
    OneByteFurther(8, 0x31);
    OneByteFurther(16, 0xf4);
    OneByteFurther(24, 0x46);
    OneByteFurther(32, 0x9b);
    OneByteFurther(40, 0xd3);
    OneByteFurther(48, 0x57);
    OneByteFurther(56, 0xe9);
    OneByteFurther(64, 0x49);
    OneByteFurther(72, 0xb5);
    OneByteFurther(80, 0x4a);
    OneByteFurther(88, 0xe6);
    OneByteFurther(96, 0x67);
    OneByteFurther(104, 0x2c);
    OneByteFurther(112, 0xfb);
    RoundsAdd(1, 120, 7);
    SevenFurther();
  }

  lemma SevenFurther()
    ensures Rounds(0x68, 7) == 1
  {
    assert Rounds(0x68, 1) == 0xd0 && Rounds(0x68, 2) == 0x91 && Rounds(0x68, 3) == 0x13;
  }

  lemma {:induction false} WholePeriods(d: nat, q: nat, r: nat)
    requires Rounds(1, d) == 1
    ensures Rounds(1, d * q + r) == Rounds(1, r)
    decreases q
  {
    if q > 0 {
      WholePeriods(d, q - 1, r);
      RoundsAdd(1, d, d * (q - 1) + r);
      assert d + (d * (q - 1) + r) == d * q + r;
    }
  }

  /** 127 is a prime number. */
  lemma NoDivisor(d: nat)
    requires 1 < d < 127
    ensures 127 % d != 0
  {
  }

  /** A period below 127 would leave a smaller one. */
  lemma SmallerPeriod(d: nat)
    requires 1 < d < 127 && Rounds(1, d) == 1
    ensures 0 < 127 % d < d && Rounds(1, 127 % d) == 1
  {
    NoDivisor(d);
    FullPeriod();
    var q, r := 127 / d, 127 % d;
    assert d * q + r == 127;
    WholePeriods(d, q, r);
  }

  /** ... and no smaller one. */
  lemma {:induction false} NoShorterPeriod(d: nat)
    requires 0 < d < 127
    ensures Rounds(1, d) != 1
    decreases d
  {
    if d == 1 {
      assert Rounds(1, 1) == TimesX(Rounds(1, 0)) == 2;
    } else if Rounds(1, d) == 1 {
      SmallerPeriod(d);
      NoShorterPeriod(127 % d);
    }
  }

  lemma PeriodIff(d: nat)
    ensures Rounds(1, d) == 1 <==> d % 127 == 0
  {
    FullPeriod();
    WholePeriods(127, d / 127, d % 127);
    assert 127 * (d / 127) + d % 127 == d;
    if d % 127 != 0 {
      NoShorterPeriod(d % 127);
    }
  }

  lemma PowerIff(d: nat)
    ensures Cong({0}, {d}) <==> d % 127 == 0
  {
    var c := Rounds(1, d);
    PeriodIff(d);
    PolyOfOne();
    RoundsCong(1, d);
    ShiftOne(d);
    assert Cong(PolyOf(c), {d});
    if Cong({0}, {d}) {
      CongSym({0}, {d});
      CongTrans(PolyOf(c), {d}, {0});
      RemainderUnique(PolyOf(c), {0});
      PolyInjective(c, 1);
    }
  }

  lemma PolyOfOne()
    ensures PolyOf(1) == {0}
  {
    assert forall i: nat :: i in PolyOf(1) <==> i == 0;
  }

  lemma ShiftOne(d: nat)
    ensures Shift({0}, d) == {d}
  {
    forall n: nat
      ensures n in Shift({0}, d) <==> n == d
    {
      ShiftMember({0}, d, n);
    }
  }

  lemma TwoTerms(i: nat, d: nat)
    requires d > 0
    ensures Add({i}, {i + d}) == {i, i + d} && Shift({0, d}, i) == {i, i + d}
  {
    forall n: nat
      ensures n in Shift({0, d}, i) <==> n in {i, i + d}
    {
      ShiftMember({0, d}, i, n);
    }
  }

  /** Two wrong bits go undetected exactly when their distance is a multiple of 127. */
  lemma TwoBitErrorsIff(a: seq<byte>, b: seq<byte>, i: nat, d: nat)
    requires |a| == |b| && d > 0 && Errors(a, b) == {i, i + d}
    ensures Crc(a) == Crc(b) <==> d % 127 == 0
  {
    CollisionIff(a, b);
    TwoTerms(i, d);
    TwoTerms(0, d);
    AddZero({0, d});
    assert Cong({0, d}, {}) <==> Cong({0}, {d});
    if Cong({i, i + d}, {}) {
      CancelShift({0, d}, i);
    }
    if Cong({0, d}, {}) {
      CongShift({0, d}, {}, i);
      assert Shift({}, i) == {};
    }
    PowerIff(d);
  }

  // ---------------------------------------------------------- check byte

  lemma TimesXZero(c: byte)
    ensures TimesX(c) == 0 <==> c == 0
  {
  }

  lemma {:induction false} RoundsZero(c: byte, n: nat)
    ensures Rounds(c, n) == 0 <==> c == 0
  {
    if n > 0 {
      RoundsZero(c, n - 1);
      TimesXZero(Rounds(c, n - 1));
    }
  }

  /** Of the 256 bytes that can follow a message exactly one makes the whole CRC zero: the
      check byte stored in the last position of the structure. */
  lemma CheckByteUnique(d: seq<byte>, last: byte)
    ensures Crc(d + [last]) == 0 <==> last == Crc(d)
  {
    assert (d + [last])[..|d|] == d;
    XorZero(Crc(d), last);
    RoundsZero(Crc(d) ^ last, 8);
  }
}
