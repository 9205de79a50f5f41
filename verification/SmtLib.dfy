/**
 The operators of the SMT-LIB theory FixedSizeBitVectors and of the logic QF_BV,
 as functions on words. These are the reference the bit-blaster is held against.
 */
module SmtLib {
  import opened Bits

  type Word = seq<bool>

  function BvNot(x: Word): (r: Word)
    ensures |r| == |x|
  {
    seq(|x|, i requires 0 <= i < |x| => !x[i])
  }

  function BvAnd(x: Word, y: Word): (r: Word)
    requires |x| == |y|
    ensures |r| == |x|
  {
    seq(|x|, i requires 0 <= i < |x| => x[i] && y[i])
  }

  function BvOr(x: Word, y: Word): (r: Word)
    requires |x| == |y|
    ensures |r| == |x|
  {
    seq(|x|, i requires 0 <= i < |x| => x[i] || y[i])
  }

  function BvXor(x: Word, y: Word): (r: Word)
    requires |x| == |y|
    ensures |r| == |x|
  {
    seq(|x|, i requires 0 <= i < |x| => x[i] != y[i])
  }

  function BvNeg(x: Word): Word { FromInt(-Num(x), |x|) }

  function BvAdd(x: Word, y: Word): Word
    requires |x| == |y|
  {
    FromInt(Num(x) + Num(y), |x|)
  }

  function BvSub(x: Word, y: Word): Word
    requires |x| == |y|
  {
    FromInt(Num(x) - Num(y), |x|)
  }

  function BvMul(x: Word, y: Word): Word
    requires |x| == |y|
  {
    FromInt(Num(x) * Num(y), |x|)
  }

  /** Division by zero gives the word of all ones. */
  function BvUdiv(x: Word, y: Word): Word
    requires |x| == |y|
  {
    if Num(y) == 0 then FromInt(-1, |x|) else FromInt(Num(x) / Num(y), |x|)
  }

  /** The remainder of division by zero is the dividend. */
  function BvUrem(x: Word, y: Word): Word
    requires |x| == |y|
  {
    if Num(y) == 0 then x else FromInt(Num(x) % Num(y), |x|)
  }

  function BvSdiv(x: Word, y: Word): Word
    requires |x| == |y|
  {
    if !Msb(x) && !Msb(y) then BvUdiv(x, y)
    else if Msb(x) && !Msb(y) then BvNeg(BvUdiv(BvNeg(x), y))
    else if !Msb(x) && Msb(y) then BvNeg(BvUdiv(x, BvNeg(y)))
    else BvUdiv(BvNeg(x), BvNeg(y))
  }

  /** The sign of the remainder follows the dividend. */
  function BvSrem(x: Word, y: Word): Word
    requires |x| == |y|
  {
    if !Msb(x) && !Msb(y) then BvUrem(x, y)
    else if Msb(x) && !Msb(y) then BvNeg(BvUrem(BvNeg(x), y))
    else if !Msb(x) && Msb(y) then BvUrem(x, BvNeg(y))
    else BvNeg(BvUrem(BvNeg(x), BvNeg(y)))
  }

  function BvShl(x: Word, y: Word): Word
    requires |x| == |y|
  {
    FromInt(Num(x) * Pow2(Num(y)), |x|)
  }

  function BvLshr(x: Word, y: Word): Word
    requires |x| == |y|
  {
    FromInt(Num(x) / Pow2(Num(y)), |x|)
  }

  /** Arithmetic shift: the signed value is divided, rounding down. */
  function BvAshr(x: Word, y: Word): Word
    requires |x| == |y|
  {
    FromInt(Signed(x) / Pow2(Num(y)), |x|)
  }

  function ZeroExtend(n: nat, x: Word): (r: Word)
    ensures |r| == |x| + n
  {
    x + Zeros(n)
  }

  function SignExtend(n: nat, x: Word): (r: Word)
    ensures |r| == |x| + n
  {
    x + seq(n, _ => Msb(x))
  }

  function Extract(upper: nat, lower: nat, x: Word): (r: Word)
    requires lower <= upper < |x|
    ensures |r| == upper - lower + 1
  {
    x[lower..upper + 1]
  }

  /** The first operand becomes the high part. */
  function Concat(x: Word, y: Word): Word { y + x }

  /** The second operand is the low part of the number. */
  lemma ConcatNum(x: Word, y: Word)
    ensures Num(Concat(x, y)) == Num(x) * Pow2(|y|) + Num(y)
  {
    NumAppend(y, x);
  }

  /** Zero extension keeps the unsigned value. */
  lemma ZeroExtendNum(n: nat, x: Word)
    ensures Num(ZeroExtend(n, x)) == Num(x)
    ensures n > 0 ==> Signed(ZeroExtend(n, x)) == Num(x)
  {
    NumZeros(Zeros(n));
    NumAppend(x, Zeros(n));
  }

  /** Sign extension keeps the signed value. */
  lemma {:induction false} SignExtendSigned(n: nat, x: Word)
    requires x != []
    ensures Signed(SignExtend(n, x)) == Signed(x)
  {
    if n == 0 {
      assert SignExtend(0, x) == x;
    } else {
      SignExtendSigned(n - 1, x);
      assert SignExtend(n, x) == SignExtend(n - 1, x) + [Msb(x)];
      NumPush(SignExtend(n - 1, x), Msb(x));
    }
  }
}
