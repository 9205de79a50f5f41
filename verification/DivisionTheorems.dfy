/**
 Where the divider agrees with SMT-LIB and where it does not.
 */
module DivisionTheorems {
  import opened Bits
  import opened SmtLib
  import opened WordLemmas
  import opened Division

  /** The signed quotient rounds towards zero: the rest is smaller than the divisor and has the sign of x. */
  lemma QuotientTruncates(x: int, y: int)
    requires y != 0
    ensures var rest := x - SignedQuotient(x, y) * y;
      && Abs(rest) < Abs(y) && (rest == 0 || (rest < 0 <==> x < 0))
      && rest == (if y > 0 then SignedRemainder(x, y) else -SignedRemainder(x, y))
  {
    var a, b := Abs(x), Abs(y);
    var q, r := a / b, a % b;
    assert a == q * b + r;
    SignsOfProduct(q, b);
  }

  lemma SignsOfProduct(q: int, b: int)
    ensures (-q) * b == -(q * b) && q * (-b) == -(q * b) && (-q) * (-b) == q * b
  {
  }

  /** The words of 1 and of -1 are the same only in width one. */
  lemma OneAndMinusOne(n: nat)
    requires n > 0
    ensures FromInt(1, n) == FromInt(-1, n) <==> n == 1
  {
    if n > 1 {
      assert FromInt(1, n)[1] == FromInt(0, n - 1)[0];
      assert FromInt(-1, n)[1] == FromInt(-1, n - 1)[0];
    } else {
      assert FromInt(1, 1) == [true] && FromInt(-1, 1) == [true];
    }
  }

  lemma UdivAgrees(x: Word, y: Word)
    requires |x| == |y| > 0
    ensures BlastUdiv(x, y) == BvUdiv(x, y) <==> Num(y) != 0 || |x| == 1
  {
    OneAndMinusOne(|x|);
  }

  lemma UremAgrees(x: Word, y: Word)
    requires |x| == |y|
    ensures BlastUrem(x, y) == BvUrem(x, y)
  {
    FromIntNum(x);
  }

  lemma NegOfWord(v: int, n: nat)
    ensures BvNeg(FromInt(v, n)) == FromInt(-v, n)
  {
    FromIntSub(0, v, n);
  }

  lemma SdivByMagnitude(x: Word, y: Word)
    requires |x| == |y| > 0
    ensures var mx, my, s := Magnitude(x), Magnitude(y), Msb(x) != Msb(y);
      && |mx| == |my| == |x| && (Num(my) == 0 <==> Num(y) == 0)
      && BlastSdiv(x, y) == (if s then BvNeg(BlastUdiv(mx, my)) else BlastUdiv(mx, my))
      && BvSdiv(x, y) == (if s then BvNeg(BvUdiv(mx, my)) else BvUdiv(mx, my))
  {
    MagnitudeNum(x);
    MagnitudeNum(y);
    NumBound(y);
    MsbHalf(y);
    SignedByMagnitude(x, y);
  }

  lemma SdivAgrees(x: Word, y: Word)
    requires |x| == |y| > 0
    ensures BlastSdiv(x, y) == BvSdiv(x, y) <==> Num(y) != 0 || |x| == 1
  {
    hide BlastSdiv, BvSdiv;
    var mx, my := Magnitude(x), Magnitude(y);
    SdivByMagnitude(x, y);
    if Num(y) != 0 {
      UdivAgrees(mx, my);
    } else {
      assert BlastUdiv(mx, my) == FromInt(1, |x|) && BvUdiv(mx, my) == FromInt(-1, |x|);
      NegOfWord(1, |x|);
      NegOfWord(-1, |x|);
      OneAndMinusOne(|x|);
    }
  }

  /** A word below the upper half differs from its negation unless it is zero. */
  lemma OwnNegation(r: Word)
    requires r != [] && Num(r) < Pow2(|r| - 1)
    ensures BvNeg(r) == r <==> Num(r) == 0
    ensures Num(BvNeg(r)) == 0 <==> Num(r) == 0
  {
    if Num(r) == 0 {
      FromIntNum(r);
    } else {
      NegNum(r);
    }
  }

  lemma RemainderBelow(x: nat, y: nat)
    requires y > 0
    ensures Remainder(x, y) < y
  {
  }

  lemma SremByMagnitude(x: Word, y: Word)
    requires |x| == |y| > 0
    ensures var r := BlastUrem(Magnitude(x), Magnitude(y));
      && BvSrem(x, y) == (if Msb(x) then BvNeg(r) else r)
      && BlastSrem(x, y) == (if Msb(x) != Msb(y) then BvNeg(r) else r)
      && (Msb(y) ==> |r| == |x| && Num(r) < Pow2(|r| - 1))
  {
    var mx, my := Magnitude(x), Magnitude(y);
    MagnitudeNum(x);
    MagnitudeNum(y);
    SignedByMagnitude(x, y);
    UremAgrees(mx, my);
    assert BvSrem(x, y) == (if Msb(x) then BvNeg(BvUrem(mx, my)) else BvUrem(mx, my));
    if Msb(y) {
      MsbSign(y);
      MsbHalf(y);
      QuotientFits(mx, my);
      RemainderBelow(Num(mx), Num(my));
    }
  }

  /** The signed remainder is SMT-LIB's exactly when the divisor is not negative or nothing remains. */
  lemma SremAgrees(x: Word, y: Word)
    requires |x| == |y| > 0
    ensures BlastSrem(x, y) == BvSrem(x, y) <==> !Msb(y) || Num(BvSrem(x, y)) == 0
    ensures Msb(y) ==> BlastSrem(x, y) == BvNeg(BvSrem(x, y))
  {
    SremByMagnitude(x, y);
    var r := BlastUrem(Magnitude(x), Magnitude(y));
    if Msb(y) {
      OwnNegation(r);
      NegOfWord(-Num(r), |r|);
      FromIntNum(r);
    }
  }

  /** One divided by minus two in two bits: the remainder is -1 where SMT-LIB has 1. */
  lemma SremDiffers()
    ensures var x, y := [true, false], [false, true];
      Signed(x) == 1 && Signed(y) == -2 && BlastSrem(x, y) == FromInt(-1, 2) && BvSrem(x, y) == FromInt(1, 2)
  {
  }
}
