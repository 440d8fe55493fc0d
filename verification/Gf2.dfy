/** Polynomials over GF(2), written as the finite set of their exponents. */
module Gf2 {

  type Poly = set<nat>

  /** Sum, which is also the difference. */
  function Add(a: Poly, b: Poly): (r: Poly)
    ensures forall n: nat :: n in r <==> (n in a) != (n in b)
  {
    (a - b) + (b - a)
  }

  /** Product with x^k. */
  function Shift(a: Poly, k: nat): Poly {
    set i: nat | i in a :: i + k
  }

  lemma ShiftMember(a: Poly, k: nat, n: nat)
    ensures n in Shift(a, k) <==> n >= k && n - k in a
  {
    if n >= k && n - k in a {
      var i: nat := n - k;
      assert i in a && n == i + k;
    }
  }

  /** Product with the generator x^8 + x^5 + x^4 + 1. */
  function MulG(q: Poly): Poly {
    Add(Add(q, Shift(q, 4)), Add(Shift(q, 5), Shift(q, 8)))
  }

  /** The terms of degree below k only. */
  ghost predicate Below(a: Poly, k: nat) {
    forall n :: n in a ==> n < k
  }

  /** a and b differ by a multiple of the generator. */
  ghost predicate Cong(a: Poly, b: Poly) {
    exists q: Poly :: Add(a, b) == MulG(q)
  }

  /** r is the remainder of a in the division by the generator. */
  ghost predicate IsRemainder(r: Poly, a: Poly) {
    Below(r, 8) && Cong(r, a)
  }

  lemma MulGMember(q: Poly, n: nat)
    ensures n in MulG(q) <==>
              ((n in q) != (n >= 4 && n - 4 in q)) != ((n >= 5 && n - 5 in q) != (n >= 8 && n - 8 in q))
  {
    ShiftMember(q, 4, n);
    ShiftMember(q, 5, n);
    ShiftMember(q, 8, n);
  }

  lemma MulGAdd(p: Poly, q: Poly)
    ensures MulG(Add(p, q)) == Add(MulG(p), MulG(q))
  {
    forall n: nat
      ensures n in MulG(Add(p, q)) <==> n in Add(MulG(p), MulG(q))
    {
      MulGMember(p, n);
      MulGMember(q, n);
      MulGMember(Add(p, q), n);
    }
  }

  lemma ShiftAdd(a: Poly, b: Poly, k: nat)
    ensures Shift(Add(a, b), k) == Add(Shift(a, k), Shift(b, k))
  {
    forall n: nat
      ensures n in Shift(Add(a, b), k) <==> n in Add(Shift(a, k), Shift(b, k))
    {
      ShiftMember(a, k, n);
      ShiftMember(b, k, n);
      ShiftMember(Add(a, b), k, n);
    }
  }

  lemma ShiftShift(a: Poly, j: nat, k: nat)
    ensures Shift(Shift(a, j), k) == Shift(a, j + k)
  {
    forall n: nat
      ensures n in Shift(Shift(a, j), k) <==> n in Shift(a, j + k)
    {
      ShiftMember(Shift(a, j), k, n);
      ShiftMember(a, j + k, n);
      if n >= k {
        ShiftMember(a, j, n - k);
      }
    }
  }

  lemma ShiftZero(a: Poly)
    ensures Shift(a, 0) == a
  {
    forall n: nat
      ensures n in Shift(a, 0) <==> n in a
    {
      ShiftMember(a, 0, n);
    }
  }

  lemma MulGShift(q: Poly, k: nat)
    ensures MulG(Shift(q, k)) == Shift(MulG(q), k)
  {
    ShiftAdd(Add(q, Shift(q, 4)), Add(Shift(q, 5), Shift(q, 8)), k);
    ShiftAdd(q, Shift(q, 4), k);
    ShiftAdd(Shift(q, 5), Shift(q, 8), k);
    ShiftShift(q, 4, k);
    ShiftShift(q, k, 4);
    ShiftShift(q, 5, k);
    ShiftShift(q, k, 5);
    ShiftShift(q, 8, k);
    ShiftShift(q, k, 8);
  }

  lemma CongRefl(a: Poly)
    ensures Cong(a, a)
  {
    assert Add(a, a) == MulG({});
  }

  lemma CongSym(a: Poly, b: Poly)
    requires Cong(a, b)
    ensures Cong(b, a)
  {
    assert Add(b, a) == Add(a, b);
  }

  lemma CongAdd(a: Poly, b: Poly, c: Poly, d: Poly)
    requires Cong(a, b) && Cong(c, d)
    ensures Cong(Add(a, c), Add(b, d))
  {
    var p: Poly :| Add(a, b) == MulG(p);
    var q: Poly :| Add(c, d) == MulG(q);
    MulGAdd(p, q);
    assert Add(Add(a, c), Add(b, d)) == Add(Add(a, b), Add(c, d));
  }

  lemma CongTrans(a: Poly, b: Poly, c: Poly)
    requires Cong(a, b) && Cong(b, c)
    ensures Cong(a, c)
  {
    CongAdd(a, b, b, c);
    var q: Poly :| Add(Add(a, b), Add(b, c)) == MulG(q);
    assert Add(a, c) == Add(Add(a, b), Add(b, c));
  }

  lemma CongShift(a: Poly, b: Poly, k: nat)
    requires Cong(a, b)
    ensures Cong(Shift(a, k), Shift(b, k))
  {
    var q: Poly :| Add(a, b) == MulG(q);
    MulGShift(q, k);
    ShiftAdd(a, b, k);
    assert Add(Shift(a, k), Shift(b, k)) == MulG(Shift(q, k));
  }

  lemma {:induction false} Largest(q: Poly) returns (m: nat)
    requires q != {}
    ensures m in q && forall n :: n in q ==> n <= m
    decreases |q|
  {
    var a :| a in q;
    if q == {a} {
      m := a;
    } else {
      var m' := Largest(q - {a});
      m := if a > m' then a else m';
      assert forall n :: n in q ==> n == a || n in q - {a};
    }
  }

  /** A non-zero multiple of the generator has degree 8 or more. */
  lemma MultipleIsLarge(q: Poly)
    requires Below(MulG(q), 8)
    ensures q == {}
  {
    if q != {} {
      var m := Largest(q);
      MulGMember(q, m + 8);
      assert false;
    }
  }

  /** Remainders are unique. */
  lemma RemainderUnique(r: Poly, s: Poly)
    requires Below(r, 8) && Below(s, 8) && Cong(r, s)
    ensures r == s
  {
    var q: Poly :| Add(r, s) == MulG(q);
    MultipleIsLarge(q);
    assert forall n: nat :: n in r <==> n in s by {
      assert forall n: nat :: n !in Add(r, s);
    }
  }

  /** Division by x^k, for a polynomial without lower terms. */
  function Unshift(q: Poly, k: nat): Poly {
    set i: nat | i in q && i >= k :: i - k
  }

  lemma ShiftUnshift(q: Poly, k: nat)
    requires forall n :: n in q ==> n >= k
    ensures Shift(Unshift(q, k), k) == q
  {
    forall n: nat
      ensures n in Shift(Unshift(q, k), k) <==> n in q
    {
      ShiftMember(Unshift(q, k), k, n);
    }
  }

  lemma ShiftInjective(a: Poly, b: Poly)
    requires Shift(a, 1) == Shift(b, 1)
    ensures a == b
  {
    forall n: nat
      ensures n in a <==> n in b
    {
      ShiftMember(a, 1, n + 1);
      ShiftMember(b, 1, n + 1);
    }
  }

  /** The generator has a constant term, so x can be cancelled. */
  lemma CancelFactor(b: Poly, k: nat, q: Poly)
    requires MulG(q) == Shift(b, k + 1)
    ensures MulG(Unshift(q, 1)) == Shift(b, k)
  {
    assert 0 !in q by {
      MulGMember(q, 0);
      ShiftMember(b, k + 1, 0);
    }
    ShiftUnshift(q, 1);
    MulGShift(Unshift(q, 1), 1);
    ShiftShift(b, k, 1);
    ShiftInjective(Shift(b, k), MulG(Unshift(q, 1)));
  }

  lemma CancelOne(b: Poly, k: nat)
    requires Cong(Shift(b, k + 1), {})
    ensures Cong(Shift(b, k), {})
  {
    var q: Poly :| Add(Shift(b, k + 1), {}) == MulG(q);
    AddZero(Shift(b, k + 1));
    CancelFactor(b, k, q);
    AddZero(Shift(b, k));
    assert Add(Shift(b, k), {}) == MulG(Unshift(q, 1));
  }

  lemma AddZero(a: Poly)
    ensures Add(a, {}) == a
  {
  }

  lemma {:induction false} CancelShift(b: Poly, k: nat)
    requires Cong(Shift(b, k), {})
    ensures Cong(b, {})
    decreases k
  {
    if k == 0 {
      ShiftZero(b);
    } else {
      CancelOne(b, k - 1);
      CancelShift(b, k - 1);
    }
  }

  // ---------------------------------------------------------------- parity

  predicate OddWeight(a: Poly) {
    |a| % 2 == 1
  }

  lemma AddWeight(a: Poly, b: Poly)
    ensures OddWeight(Add(a, b)) <==> OddWeight(a) != OddWeight(b)
  {
    assert |a| == |a - b| + |a * b| by {
      assert a == (a - b) + a * b;
    }
    assert |b| == |b - a| + |a * b| by {
      assert b == (b - a) + a * b;
    }
    assert |Add(a, b)| == |a - b| + |b - a|;
  }

  lemma {:induction false} ShiftWeight(a: Poly, k: nat)
    ensures |Shift(a, k)| == |a|
    decreases |a|
  {
    if a != {} {
      var m :| m in a;
      ShiftWeight(a - {m}, k);
      var smaller := Shift(a - {m}, k);
      forall n: nat
        ensures n in Shift(a, k) <==> n in smaller + {m + k}
      {
        ShiftMember(a, k, n);
        ShiftMember(a - {m}, k, n);
      }
      ShiftMember(a - {m}, k, m + k);
      assert Shift(a, k) == smaller + {m + k};
    } else {
      assert Shift(a, k) == {};
    }
  }

  /** The generator has an even number of terms, so its multiples have too. */
  lemma MultipleHasEvenWeight(q: Poly)
    ensures !OddWeight(MulG(q))
  {
    ShiftWeight(q, 4);
    ShiftWeight(q, 5);
    ShiftWeight(q, 8);
    AddWeight(q, Shift(q, 4));
    AddWeight(Shift(q, 5), Shift(q, 8));
    AddWeight(Add(q, Shift(q, 4)), Add(Shift(q, 5), Shift(q, 8)));
  }

  lemma OddIsNoMultiple(a: Poly)
    requires OddWeight(a)
    ensures !Cong(a, {})
  {
    if Cong(a, {}) {
      var q: Poly :| Add(a, {}) == MulG(q);
      assert Add(a, {}) == a;
      MultipleHasEvenWeight(q);
    }
  }

  /** A burst of at most 8 neighbouring terms is no multiple of the generator. */
  lemma BurstIsNoMultiple(e: Poly, k: nat)
    requires e != {} && forall n :: n in e ==> k <= n < k + 8
    ensures !Cong(e, {})
  {
    var b := Unshift(e, k);
    ShiftUnshift(e, k);
    assert b != {} by {
      var n :| n in e;
      assert n - k in b;
    }
    if Cong(e, {}) {
      CancelShift(b, k);
      RemainderUnique(b, {});
    }
  }
}
