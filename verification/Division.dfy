/**
 What the restoring divider computes, step by step, and how its results compare
 with the SMT-LIB operators, zero divisors included.
 */
module Division {
  import opened Bits
  import opened SmtLib
  import opened WordLemmas

  // ----- The meaning of the divider -----

  /** Quotient: the divider answers 1 when the divisor is zero. */
  function Quotient(x: nat, y: nat): nat { if y == 0 then 1 else x / y }

  function Remainder(x: nat, y: nat): nat { if y == 0 then x else x % y }

  function Abs(v: int): nat { if v < 0 then -v else v }

  /** Quotient rounded towards zero, over the divider's convention for zero. */
  function SignedQuotient(x: int, y: int): int {
    if (x < 0) != (y < 0) then -(Quotient(Abs(x), Abs(y)) as int) else Quotient(Abs(x), Abs(y))
  }

  /** The sign of this remainder comes from both operands. */
  function SignedRemainder(x: int, y: int): int {
    if (x < 0) != (y < 0) then -(Remainder(Abs(x), Abs(y)) as int) else Remainder(Abs(x), Abs(y))
  }

  function BlastUdiv(x: Word, y: Word): Word { FromInt(Quotient(Num(x), Num(y)), |x|) }

  function BlastUrem(x: Word, y: Word): Word { FromInt(Remainder(Num(x), Num(y)), |x|) }

  function BlastSdiv(x: Word, y: Word): Word { FromInt(SignedQuotient(Signed(x), Signed(y)), |x|) }

  function BlastSrem(x: Word, y: Word): Word { FromInt(SignedRemainder(Signed(x), Signed(y)), |x|) }

  lemma QuotientFits(x: Word, y: Word)
    requires |x| == |y| > 0
    ensures Num(BlastUdiv(x, y)) == Quotient(Num(x), Num(y))
    ensures Num(BlastUrem(x, y)) == Remainder(Num(x), Num(y))
  {
    NumBound(x);
    DivAtMost(Num(x), Num(y));
    NumOfWord(Quotient(Num(x), Num(y)), |x|);
    NumOfWord(Remainder(Num(x), Num(y)), |x|);
  }

  lemma DivAtMost(x: nat, y: nat)
    ensures Quotient(x, y) <= x || Quotient(x, y) == 1
    ensures Remainder(x, y) <= x
  {
    if y > 0 {
      var q, r := x / y, x % y;
      assert x == y * q + r;
      MulAtLeast(q, y);
    }
  }

  // ----- Signed division through absolute values -----

  function Magnitude(x: Word): Word { if Msb(x) then BvNeg(x) else x }

  /** The absolute value fits even for the least word, which is its own negation. */
  lemma MagnitudeNum(x: Word)
    requires x != []
    ensures Num(Magnitude(x)) == Abs(Signed(x)) && |Magnitude(x)| == |x|
  {
    NumBound(x);
    MsbHalf(x);
    if Msb(x) {
      NegNum(x);
    }
  }

  lemma SignedByMagnitude(x: Word, y: Word)
    requires |x| == |y| > 0
    ensures var a, b, s := Magnitude(x), Magnitude(y), Msb(x) != Msb(y);
      var q, r := BlastUdiv(a, b), BlastUrem(a, b);
      && BlastSdiv(x, y) == (if s then BvNeg(q) else q)
      && BlastSrem(x, y) == (if s then BvNeg(r) else r)
  {
    MagnitudeNum(x);
    MagnitudeNum(y);
    MsbSign(x);
    MsbSign(y);
    QuotientFits(Magnitude(x), Magnitude(y));
  }

  lemma MsbSign(x: Word)
    ensures Msb(x) <==> Signed(x) < 0
  {
    NumBound(x);
  }

  // ----- Normalising the divisor -----

  /** y shifted up e places. */
  function Scaled(y: nat, e: nat): nat { if e == 0 then y else 2 * Scaled(y, e - 1) }

  lemma {:induction false} ScaledAtLeast(y: nat, e: nat)
    requires y > 0
    ensures Scaled(y, e) >= Pow2(e) && Scaled(y, e) >= y
    ensures e > 0 ==> Scaled(y, e) > y
  {
    if e > 0 {
      ScaledAtLeast(y, e - 1);
    }
  }

  lemma {:induction false} ScaledZero(e: nat)
    ensures Scaled(0, e) == 0
  {
    if e > 0 {
      ScaledZero(e - 1);
    }
  }

  /** How far y was shifted up after i passes in words of width n > 0. */
  function Shifts(y: nat, n: nat, i: nat): (s: nat)
    requires n > 0
    ensures s <= i
  {
    if i == 0 then 0
    else var s := Shifts(y, n, i - 1); if Scaled(y, s) >= Pow2(n - 1) then s else s + 1
  }

  /** The divisor register during normalisation. */
  ghost predicate Normalising(y: Word, i: nat, d: Word) {
    && |d| == |y| > 0
    && var s := Shifts(Num(y), |y|, i);
    && Num(d) == Scaled(Num(y), s)
    && (Num(d) >= Pow2(|y| - 1) || s == i)
  }

  lemma ShiftLFits(d: Word)
    requires d != [] && !Msb(d)
    ensures Num(ShiftL(d, 1)) == 2 * Num(d)
  {
    MsbHalf(d);
    ShiftLOne(d);
    NumOfWord(Num(d) + Num(d), |d|);
  }

  lemma NormalStep(y: Word, i: nat, d: Word)
    requires Normalising(y, i, d)
    ensures Normalising(y, i + 1, if Msb(d) then d else ShiftL(d, 1))
  {
    MsbHalf(d);
    if !Msb(d) {
      ShiftLFits(d);
    }
  }

  /** How far the divisor is shifted up in the end; a zero divisor counts as not shifted. */
  function Top(y: Word): nat
    requires y != []
  {
    if Num(y) == 0 then 0 else Shifts(Num(y), |y|, |y|)
  }

  /** A nonzero divisor ends in the upper half; a zero divisor stays zero. */
  lemma NormalDone(y: Word, d: Word)
    requires Normalising(y, |y|, d)
    ensures Num(d) == Scaled(Num(y), Top(y))
    ensures Num(y) > 0 ==> Num(d) >= Pow2(|y| - 1) && Top(y) < |y|
  {
    if Num(y) > 0 {
      ScaledAtLeast(Num(y), Top(y));
      NumBound(d);
    } else {
      ScaledZero(Shifts(0, |y|, |y|));
    }
  }

  // ----- The restoring steps -----

  /** The low m places are clear and the rest holds q. */
  ghost predicate HoldsAbove(r: Word, m: nat, q: int) {
    m <= |r| && (forall i | 0 <= i < m :: !r[i]) && Num(r[m..]) == q
  }

  /** x is q times d with rest a. */
  predicate Split(x: nat, q: nat, d: nat, a: nat) { a < d && x == q * d + a }

  lemma SplitStep(x: nat, q: nat, d: nat, a: nat)
    requires Split(x, q, 2 * d, a)
    ensures a < d ==> Split(x, 2 * q, d, a)
    ensures a >= d ==> Split(x, 2 * q + 1, d, a - d)
  {
  }

  lemma SplitDone(x: nat, q: nat, d: nat, a: nat)
    requires Split(x, q, d, a)
    ensures x / d == q && x % d == a
  {
    assert q * d == d * q;
    DivModUnique(x, d, q, a);
  }

  /** The quotient of x by d sits above place m and the rest is a. */
  ghost predicate Found(x: nat, d: nat, a: nat, r: Word, m: nat) {
    exists q: nat :: Split(x, q, d, a) && HoldsAbove(r, m, q)
  }

  /** Quotient and remainder are complete; the quotient still moves down to its place. */
  ghost predicate Complete(x: nat, y: Word, m: nat, a: Word, d: Word, r: Word) {
    d == y && Num(a) == Remainder(x, Num(y)) && HoldsAbove(r, m, Quotient(x, Num(y)))
  }

  /** The registers after j restoring steps. */
  ghost predicate Restoring(x: nat, y: Word, j: nat, a: Word, d: Word, r: Word, done: bool) {
    && y != [] && |a| == |d| == |r| == |y| && j <= |y|
    && done == (j > Top(y))
    && if done then Complete(x, y, |y| - j, a, d, r)
       else if Num(y) == 0 then d == y && Num(a) == x && HoldsAbove(r, |y| - j, 0)
       else Num(d) == Scaled(Num(y), Top(y) - j) && Found(x, 2 * Num(d), Num(a), r, |y| - j)
  }

  lemma RestoringStart(x: Word, y: Word, d: Word, r: Word)
    requires |x| == |y| > 0 && Normalising(y, |y|, d) && r == Zeros(|y|)
    ensures Restoring(Num(x), y, 0, x, d, r, false)
  {
    NormalDone(y, d);
    NumBound(x);
    assert HoldsAbove(r, |y|, 0);
    if Num(y) == 0 {
      assert Num(d) == 0;
      NumInjective(d, y);
    } else {
      assert Split(Num(x), 0, 2 * Num(d), Num(x));
    }
  }

  /** One more quotient bit below those already held. */
  lemma PutBit(r: Word, m: nat, q: int, b: bool)
    requires m > 0 && HoldsAbove(r, m, q)
    ensures HoldsAbove(r[m - 1 := b], m - 1, 2 * q + Bit(b))
  {
  }

  /** Moving the quotient one place down. */
  lemma MoveDown(r: Word, m: nat, q: int)
    requires m > 0 && HoldsAbove(r, m, q)
    ensures HoldsAbove(ShiftR(r[m - 1 := false], 1, false), m - 1, q)
  {
    assert r[m - 1 := false] == r;
    var s := ShiftR(r, 1, false);
    assert s[m - 1..] == r[m..] + [false];
    NumPush(r[m..], false);
  }

  function Sub(b: bool, a: Word, d: Word): Word
    requires |a| == |d|
  {
    if b then BvSub(a, d) else a
  }

  lemma SubFits(a: Word, d: Word)
    requires |a| == |d| && Num(a) >= Num(d)
    ensures Num(BvSub(a, d)) == Num(a) - Num(d)
  {
    NumBound(a);
    NumBound(d);
    hide Num, FromInt;
    NumOfWord(Num(a) - Num(d), |a|);
  }

  /** The registers after one pass of the loop. */
  function QuotientBits(r: Word, j: nat, ge: bool, done: bool): Word
    requires j < |r|
  {
    if done then ShiftR(r[|r| - j - 1 := false], 1, false) else r[|r| - j - 1 := ge]
  }

  lemma CompleteStep(x: nat, y: Word, m: nat, a: Word, d: Word, r: Word)
    requires |a| == |d| == |r| == |y| && m > 0 && Complete(x, y, m, a, d, r)
    ensures Complete(x, y, m - 1, Sub(Num(a) >= Num(d), a, d), d, ShiftR(r[m - 1 := false], 1, false))
  {
    MoveDown(r, m, Quotient(x, Num(y)));
    if Num(a) >= Num(d) {
      SubFits(a, d);
    }
  }

  lemma FoundStep(x: nat, m: nat, a: Word, d: Word, r: Word)
    requires |a| == |d| && m > 0 && Found(x, 2 * Num(d), Num(a), r, m)
    ensures var ge := Num(a) >= Num(d); Found(x, Num(d), Num(Sub(ge, a, d)), r[m - 1 := ge], m - 1)
  {
    var ge := Num(a) >= Num(d);
    var q: nat :| Split(x, q, 2 * Num(d), Num(a)) && HoldsAbove(r, m, q);
    PutBit(r, m, q, ge);
    SplitStep(x, q, Num(d), Num(a));
    if ge {
      SubFits(a, d);
    }
    assert Split(x, 2 * q + Bit(ge), Num(d), Num(Sub(ge, a, d)));
  }

  lemma HalfDivisor(y: nat, e: nat, d: Word)
    requires d != [] && y > 0 && e > 0 && Num(d) == Scaled(y, e)
    ensures Num(ShiftR(d, 1, false)) == Scaled(y, e - 1)
    ensures Num(d) == 2 * Num(ShiftR(d, 1, false)) && Num(d) != y
  {
    ShiftROne(d);
    ScaledAtLeast(y, e);
  }

  lemma FoundIsComplete(x: nat, y: Word, m: nat, a: Word, r: Word)
    requires Num(y) > 0 && Found(x, Num(y), Num(a), r, m)
    ensures Complete(x, y, m, a, y, r)
  {
    var q: nat :| Split(x, q, Num(y), Num(a)) && HoldsAbove(r, m, q);
    SplitDone(x, q, Num(y), Num(a));
  }

  /** The step with the divisor at its own place completes the quotient. */
  lemma LastBit(x: nat, y: Word, a: Word, d: Word, r: Word)
    requires y != [] && Restoring(x, y, Top(y), a, d, r, false) && Top(y) < |y| && Num(y) > 0
    ensures var ge := Num(a) >= Num(d);
      d == y && Complete(x, y, |y| - Top(y) - 1, Sub(ge, a, d), d, r[|r| - Top(y) - 1 := ge])
  {
    hide Found, Complete;
    var ge := Num(a) >= Num(d);
    NumInjective(d, y);
    FoundStep(x, |y| - Top(y), a, d, r);
    FoundIsComplete(x, y, |y| - Top(y) - 1, Sub(ge, a, d), r[|r| - Top(y) - 1 := ge]);
  }

  /** The step before that halves the divisor. */
  lemma EarlyBit(x: nat, y: Word, j: nat, a: Word, d: Word, r: Word)
    requires Restoring(x, y, j, a, d, r, false) && j < |y| && j < Top(y) && Num(y) > 0
    ensures var ge, d' := Num(a) >= Num(d), ShiftR(d, 1, false);
      && d != y && Num(d') == Scaled(Num(y), Top(y) - j - 1)
      && Found(x, 2 * Num(d'), Num(Sub(ge, a, d)), r[|r| - j - 1 := ge], |y| - j - 1)
  {
    FoundStep(x, |y| - j, a, d, r);
    HalfDivisor(Num(y), Top(y) - j, d);
  }

  /** A zero divisor always fits: the first step gives the quotient 1 and leaves the dividend. */
  lemma ZeroBit(x: nat, m: nat, y: Word, a: Word, r: Word)
    requires |a| == |y| && Num(y) == 0 && Num(a) == x && m > 0 && HoldsAbove(r, m, 0)
    ensures Complete(x, y, m - 1, Sub(true, a, y), y, r[m - 1 := true])
  {
    PutBit(r, m, 0, true);
    SubFits(a, y);
  }

  lemma RestoringStep(x: nat, y: Word, j: nat, a: Word, d: Word, r: Word, done: bool)
    requires Restoring(x, y, j, a, d, r, done) && j < |y|
    ensures var ge, eq := Num(a) >= Num(d), d == y;
      Restoring(x, y, j + 1, Sub(ge, a, d), if eq then d else ShiftR(d, 1, false),
        QuotientBits(r, j, ge, done), eq || done)
  {
    hide Found, Complete;
    if done {
      CompleteStep(x, y, |y| - j, a, d, r);
    } else if Num(y) == 0 {
      ZeroBit(x, |y| - j, y, a, r);
    } else {
      if j == Top(y) {
        LastBit(x, y, a, d, r);
      } else {
        EarlyBit(x, y, j, a, d, r);
      }
    }
  }

  lemma RestoringDone(x: Word, y: Word, a: Word, d: Word, r: Word, done: bool)
    requires |x| == |y| && Restoring(Num(x), y, |y|, a, d, r, done)
    requires Num(y) > 0 ==> Top(y) < |y|
    ensures r == BlastUdiv(x, y) && a == BlastUrem(x, y)
  {
    assert r[0..] == r;
    FromIntNum(r);
    FromIntNum(a);
  }

  /** The invariant of the restoring loop. */
  ghost predicate DivInv(x: Word, y: Word, j: nat, a: Word, d: Word, r: Word, done: bool) {
    |x| == |y| > 0 && (Num(y) > 0 ==> Top(y) < |y|) && Restoring(Num(x), y, j, a, d, r, done)
  }

  /** The four registers after pass j + 1 from those before it. */
  ghost predicate Passed(j: nat, y: Word, a: Word, d: Word, r: Word, done: bool, a': Word, d': Word, r': Word,
      done': bool)
  {
    && |a| == |d| == |r| == |y| && j < |y|
    && var ge, eq := Num(a) >= Num(d), d == y;
    && a' == Sub(ge, a, d)
    && d' == (if eq then d else ShiftR(d, 1, false))
    && r' == QuotientBits(r, j, ge, done)
    && done' == (eq || done)
  }

  lemma DivInvStart(x: Word, y: Word, d: Word, r: Word)
    requires |x| == |y| > 0 && Normalising(y, |y|, d) && r == Zeros(|y|)
    ensures DivInv(x, y, 0, x, d, r, false)
  {
    RestoringStart(x, y, d, r);
    NormalDone(y, d);
  }

  lemma DivInvStep(x: Word, y: Word, j: nat, a: Word, d: Word, r: Word, done: bool, a': Word, d': Word, r': Word,
      done': bool)
    requires DivInv(x, y, j, a, d, r, done) && Passed(j, y, a, d, r, done, a', d', r', done')
    ensures DivInv(x, y, j + 1, a', d', r', done')
  {
    hide Restoring;
    RestoringStep(Num(x), y, j, a, d, r, done);
  }

  lemma DivInvDone(x: Word, y: Word, a: Word, d: Word, r: Word, done: bool)
    requires DivInv(x, y, |y|, a, d, r, done)
    ensures r == BlastUdiv(x, y) && a == BlastUrem(x, y)
  {
    RestoringDone(x, y, a, d, r, done);
  }
}
