/**
 The loop invariants of the bit-blaster as predicates on words, with the lemma
 that one pass of the loop keeps each of them and the lemma that reads off the result.
 */
module WordLemmas {
  import opened Bits
  import opened SmtLib

  lemma NextBit(z: Word, i: nat)
    requires i < |z|
    ensures z[..i + 1] == z[..i] + [z[i]]
  {
  }

  lemma SamePrefix(x: Word, y: Word, i: nat)
    requires |x| == |y| && i < |x|
    ensures x[..i + 1] == y[..i + 1] <==> x[..i] == y[..i] && x[i] == y[i]
  {
  }

  lemma WholePrefix(x: Word)
    ensures x[..|x|] == x
  {
  }

  // ----- Ripple adder -----

  /** The numbers of the sum so far and the carry add up to those of the operands so far. */
  ghost predicate Rippled(x: Word, y: Word, i: nat, r: Word, c: bool) {
    |r| == i <= |x| == |y| && Num(r) + Weight(c, i) == Num(x[..i]) + Num(y[..i])
  }

  lemma RippleStep(x: Word, y: Word, i: nat, r: Word, c: bool, s: bool, c': bool)
    requires Rippled(x, y, i, r, c) && i < |x|
    requires Bit(s) + 2 * Bit(c') == Bit(x[i]) + Bit(y[i]) + Bit(c)
    ensures Rippled(x, y, i + 1, r + [s], c')
  {
    NumPrefix(x, i);
    NumPrefix(y, i);
    NumPush(r, s);
  }

  lemma RippleDone(x: Word, y: Word, r: Word, c: bool)
    requires Rippled(x, y, |x|, r, c)
    ensures r == BvAdd(x, y)
  {
    assert x[..|x|] == x && y[..|y|] == y;
    IsFromInt(r, Num(x) + Num(y), Bit(c));
  }

  // ----- Negation, subtraction -----

  lemma {:induction false} NumNot(x: Word)
    ensures Num(BvNot(x)) == Pow2(|x|) - 1 - Num(x)
  {
    if x != [] {
      NumNot(x[1..]);
      assert BvNot(x)[1..] == BvNot(x[1..]);
    }
  }

  /** A summand may be reduced to the word width first. */
  lemma FromIntAdd(u: int, v: int, w: nat)
    ensures FromInt(u + Num(FromInt(v, w)), w) == FromInt(u + v, w)
  {
    var k := NumFromInt(v, w);
    FromIntWrap(u + Num(FromInt(v, w)), k, w);
  }

  lemma FromIntSum(u: int, v: int, w: nat)
    ensures FromInt(Num(FromInt(u, w)) + Num(FromInt(v, w)), w) == FromInt(u + v, w)
  {
    FromIntAdd(Num(FromInt(u, w)), v, w);
    FromIntAdd(v, u, w);
  }

  lemma FromIntSub(u: int, v: int, w: nat)
    ensures FromInt(u - Num(FromInt(v, w)), w) == FromInt(u - v, w)
  {
    var k := NumFromInt(v, w);
    FromIntWrap(u - v, k, w);
  }

  /** The number of the negation of a word that is not zero. */
  lemma NegNum(x: Word)
    requires Num(x) > 0
    ensures Num(BvNeg(x)) == Pow2(|x|) - Num(x)
  {
    hide FromInt;
    NumBound(x);
    NumOfNegative(Num(x), |x|);
  }

  function One(n: nat): Word { seq(n, i => i == 0) }

  lemma NegIsNotPlusOne(x: Word)
    requires x != []
    ensures BvAdd(BvNot(x), One(|x|)) == BvNeg(x)
  {
    var one := One(|x|);
    assert one[1..] == Zeros(|x| - 1);
    NumZeros(one[1..]);
    NumNot(x);
    assert Num(BvNot(x)) + Num(one) == -Num(x) + 1 * Pow2(|x|);
    FromIntWrap(-Num(x), 1, |x|);
  }

  lemma SubIsAddNeg(x: Word, y: Word)
    requires |x| == |y|
    ensures BvAdd(x, BvNeg(y)) == BvSub(x, y)
  {
    FromIntAdd(Num(x), -Num(y), |x|);
  }

  // ----- Shifts by a constant -----

  /** Every bit moves k places up. */
  function ShiftL(x: Word, k: nat): (r: Word)
    ensures |r| == |x|
  {
    seq(|x|, i requires 0 <= i < |x| => i >= k && x[i - k])
  }

  /** Every bit moves k places down and the freed places take the fill bit. */
  function ShiftR(x: Word, k: nat, fill: bool): (r: Word)
    ensures |r| == |x|
  {
    seq(|x|, i requires 0 <= i < |x| => if i + k < |x| then x[i + k] else fill)
  }

  /** Doubling: one place up. */
  lemma {:induction false} ShiftLOne(x: Word)
    ensures ShiftL(x, 1) == FromInt(Num(x) + Num(x), |x|)
  {
    if x != [] {
      var n := |x| - 1;
      var lo := x[..n];
      assert x == lo + [x[n]];
      NumPush(lo, x[n]);
      assert ShiftL(x, 1) == [false] + lo;
      assert ([false] + lo)[1..] == lo;
      IsFromInt([false] + lo, Num(x) + Num(x), Bit(x[n]));
    }
  }

  lemma ShiftLTwice(x: Word, k: nat)
    ensures ShiftL(x, k + 1) == ShiftL(ShiftL(x, k), 1)
  {
  }

  lemma ShiftLNext(x: Word, k: nat)
    ensures ShiftL(x, k + 1) == FromInt(Num(ShiftL(x, k)) + Num(ShiftL(x, k)), |x|)
  {
    ShiftLTwice(x, k);
    ShiftLOne(ShiftL(x, k));
  }

  lemma MulTwice(x: int, p: int)
    ensures x * p + x * p == x * (2 * p)
  {
  }

  lemma {:induction false} ShiftLIsMul(x: Word, k: nat)
    ensures ShiftL(x, k) == FromInt(Num(x) * Pow2(k), |x|)
  {
    if k == 0 {
      assert ShiftL(x, 0) == x;
      FromIntNum(x);
    } else {
      ShiftLIsMul(x, k - 1);
      ShiftLNext(x, k - 1);
      var v := Num(x) * Pow2(k - 1);
      FromIntSum(v, v, |x|);
      MulTwice(Num(x), Pow2(k - 1));
    }
  }

  /** Halving, rounding down: one place down. */
  lemma ShiftROne(x: Word)
    requires x != []
    ensures Num(ShiftR(x, 1, false)) == Num(x) / 2
  {
    assert ShiftR(x, 1, false) == x[1..] + [false];
    NumPush(x[1..], false);
  }

  lemma ShiftROneSigned(x: Word)
    requires x != []
    ensures Signed(ShiftR(x, 1, Msb(x))) == Signed(x) / 2
  {
    var r := ShiftR(x, 1, Msb(x));
    assert r == x[1..] + [Msb(x)];
    NumPush(x[1..], Msb(x));
    assert Num(x) / 2 == Num(x[1..]);
  }

  lemma DivTwice(v: int, k: nat)
    ensures (v / Pow2(k)) / 2 == v / Pow2(k + 1)
  {
    var p := Pow2(k);
    var q, r := v / p, v % p;
    assert v == p * q + r;
    var h, b := q / 2, q % 2;
    assert p * q == p * (2 * h) + p * b by { assert q == 2 * h + b; }
    assert p * (2 * h) == (2 * p) * h;
    assert 0 <= p * b <= p by { assert b == 0 || b == 1; }
    DivModUnique(v, 2 * p, h, p * b + r);
  }

  lemma {:induction false} ShiftRSigned(x: Word, k: nat)
    requires x != []
    ensures Signed(ShiftR(x, k, Msb(x))) == Signed(x) / Pow2(k)
  {
    if k == 0 {
      assert ShiftR(x, 0, Msb(x)) == x;
    } else {
      var y := ShiftR(x, k - 1, Msb(x));
      ShiftRSigned(x, k - 1);
      assert ShiftR(x, k, Msb(x)) == ShiftR(y, 1, Msb(x));
      ShiftROneSigned(y);
      DivTwice(Signed(x), k - 1);
    }
  }

  lemma {:induction false} ShiftRNum(x: Word, k: nat)
    ensures Num(ShiftR(x, k, false)) == Num(x) / Pow2(k)
  {
    if k == 0 {
      assert ShiftR(x, 0, false) == x;
    } else if x == [] {
      DivModUnique(0, Pow2(k), 0, 0);
    } else {
      var y := ShiftR(x, k - 1, false);
      ShiftRNum(x, k - 1);
      assert ShiftR(x, k, false) == ShiftR(y, 1, false);
      ShiftROne(y);
      DivTwice(Num(x), k - 1);
    }
  }

  // ----- Shifts by a word -----

  datatype Direction = Left | Right | ArithRight

  function ShiftBy(d: Direction, x: Word, k: nat): Word {
    match d
    case Left => ShiftL(x, k)
    case Right => ShiftR(x, k, false)
    case ArithRight => ShiftR(x, k, Msb(x))
  }

  /** The SMT-LIB shift of the given direction. */
  function BvShift(d: Direction, x: Word, y: Word): Word
    requires |x| == |y|
  {
    match d
    case Left => BvShl(x, y)
    case Right => BvLshr(x, y)
    case ArithRight => BvAshr(x, y)
  }

  lemma BvShiftIs(d: Direction, x: Word, y: Word)
    requires |x| == |y| && x != []
    ensures BvShift(d, x, y) == ShiftBy(d, x, Num(y))
  {
    var k := Num(y);
    match d
    case Left => ShiftLIsMul(x, k);
    case Right =>
      ShiftRNum(x, k);
      FromIntNum(ShiftR(x, k, false));
    case ArithRight =>
      ShiftRSigned(x, k);
      FromIntSigned(ShiftR(x, k, Msb(x)));
  }

  /** The arithmetic shift divides the signed number by a power of two, rounding down. */
  lemma AshrRoundsDown(x: Word, y: Word)
    requires |x| == |y| && x != []
    ensures Signed(BvAshr(x, y)) == Signed(x) / Pow2(Num(y))
  {
    BvShiftIs(ArithRight, x, y);
    ShiftRSigned(x, Num(y));
  }

  /** The two right shifts agree exactly on words without the sign bit and on shifts by nothing. */
  lemma RightShiftsAgree(x: Word, y: Word)
    requires |x| == |y| && x != []
    ensures BvLshr(x, y) == BvAshr(x, y) <==> !Msb(x) || Num(y) == 0
  {
    BvShiftIs(Right, x, y);
    BvShiftIs(ArithRight, x, y);
    var n := |x| - 1;
    assert BvShift(Right, x, y) == ShiftR(x, Num(y), false) && BvShift(ArithRight, x, y) == ShiftR(x, Num(y), Msb(x));
    if Msb(x) && Num(y) > 0 {
      assert !ShiftR(x, Num(y), false)[n] && ShiftR(x, Num(y), Msb(x))[n];
    } else if Num(y) == 0 {
      assert ShiftR(x, 0, false) == x == ShiftR(x, 0, Msb(x));
    }
  }

  /** The selected shift after the amounts below i were compared with y. */
  ghost predicate Selected(d: Direction, x: Word, y: Word, i: nat, r: Word) {
    |x| == |y| && r == ShiftBy(d, x, if Num(y) < i then Num(y) else |x|)
  }

  lemma SelectStart(d: Direction, x: Word, y: Word)
    requires |x| == |y|
    ensures Selected(d, x, y, 0, seq(|x|, _ => d == ArithRight && Msb(x)))
  {
  }

  lemma SelectStep(d: Direction, x: Word, y: Word, i: nat, r: Word)
    requires Selected(d, x, y, i, r) && i < |x|
    ensures Selected(d, x, y, i + 1, if y == FromInt(i, |x|) then ShiftBy(d, x, i) else r)
  {
    Pow2Grows(|x|);
    NumOfWord(i, |x|);
    if Num(y) == i {
      NumInjective(y, FromInt(i, |x|));
    }
  }

  lemma SelectDone(d: Direction, x: Word, y: Word, r: Word)
    requires Selected(d, x, y, |x|, r) && x != []
    ensures r == BvShift(d, x, y)
  {
    BvShiftIs(d, x, y);
    if Num(y) >= |x| {
      assert ShiftBy(d, x, Num(y)) == ShiftBy(d, x, |x|);
    }
  }

  // ----- Multiplier -----

  /** The product of the multiplier bits seen so far. */
  ghost predicate Multiplied(x: Word, y: Word, i: nat, r: Word) {
    i <= |x| == |y| && r == FromInt(Num(x[..i]) * Num(y), |x|)
  }

  lemma MulStart(x: Word, y: Word)
    requires |x| == |y|
    ensures Multiplied(x, y, 0, Zeros(|x|))
  {
    NumZeros(Zeros(|x|));
    FromIntNum(Zeros(|x|));
  }

  /** The addend of one multiplier bit. */
  lemma Addend(y: Word, i: nat, b: bool)
    ensures ShiftL(BvAnd(y, seq(|y|, _ => b)), i) == FromInt(if b then Num(y) * Pow2(i) else 0, |y|)
  {
    var m := BvAnd(y, seq(|y|, _ => b));
    ShiftLIsMul(m, i);
    if b {
      assert m == y;
    } else {
      NumZeros(m);
    }
  }

  lemma MulStep(x: Word, y: Word, i: nat, r: Word)
    requires Multiplied(x, y, i, r) && i < |x|
    ensures Multiplied(x, y, i + 1, BvAdd(r, ShiftL(BvAnd(y, seq(|x|, _ => x[i])), i)))
  {
    Addend(y, i, x[i]);
    var u, v := Num(x[..i]) * Num(y), if x[i] then Num(y) * Pow2(i) else 0;
    FromIntSum(u, v, |x|);
    NumPrefix(x, i);
    assert u + v == Num(x[..i + 1]) * Num(y) by {
      MulDistribute(Num(x[..i]), Pow2(i), Num(y));
    }
  }

  lemma MulDistribute(a: int, b: int, c: int)
    ensures (a + b) * c == a * c + c * b
  {
  }

  lemma MulDone(x: Word, y: Word, r: Word)
    requires Multiplied(x, y, |x|, r)
    ensures r == BvMul(x, y)
  {
    assert x[..|x|] == x;
  }

  // ----- Comparators -----

  datatype Comparison = Ult | Ule | Ugt | Uge | Slt | Sle | Sgt | Sge

  /** The SMT-LIB comparison predicates. */
  predicate BvCompare(op: Comparison, x: Word, y: Word) {
    match op
    case Ult => Num(x) < Num(y)
    case Ule => Num(x) <= Num(y)
    case Ugt => Num(x) > Num(y)
    case Uge => Num(x) >= Num(y)
    case Slt => Signed(x) < Signed(y)
    case Sle => Signed(x) <= Signed(y)
    case Sgt => Signed(x) > Signed(y)
    case Sge => Signed(x) >= Signed(y)
  }

  /**
   Scanning from the place below the top down to place k: eq says that no difference
   was seen, less that the first difference favours x or that less0 held before.
   */
  ghost predicate Compared(x: Word, y: Word, k: nat, less0: bool, eq0: bool, less: bool, eq: bool) {
    && |x| == |y| && k < |x|
    && var m := |x| - 1;
    && eq == (eq0 && Num(x[k..m]) == Num(y[k..m]))
    && less == (less0 || (eq0 && Num(x[k..m]) < Num(y[k..m])))
  }

  lemma CompareStep(x: Word, y: Word, k: nat, less0: bool, eq0: bool, less: bool, eq: bool)
    requires Compared(x, y, k, less0, eq0, less, eq) && k > 0
    ensures Compared(x, y, k - 1, less0, eq0, less || (eq && !x[k - 1] && y[k - 1]), (x[k - 1] == y[k - 1]) && eq)
  {
  }

  /** less and eq tell the order of x and y, read as signed or unsigned numbers. */
  ghost predicate Ordered(signed: bool, x: Word, y: Word, less: bool, eq: bool) {
    && less == (if signed then Signed(x) < Signed(y) else Num(x) < Num(y))
    && eq == (if signed then Signed(x) == Signed(y) else Num(x) == Num(y))
  }

  lemma CompareDone(signed: bool, x: Word, y: Word, less: bool, eq: bool)
    requires x != [] && |x| == |y|
    requires var m := |x| - 1; Compared(x, y, 0, x[m] != y[m] && y[m] == !signed, x[m] == y[m], less, eq)
    ensures Ordered(signed, x, y, less, eq)
  {
    var m := |x| - 1;
    assert x == x[..m] + [x[m]] && y == y[..m] + [y[m]];
    NumPush(x[..m], x[m]);
    NumPush(y[..m], y[m]);
    assert x[0..m] == x[..m] && y[0..m] == y[..m];
    NumBound(x[..m]);
    NumBound(y[..m]);
  }
}
