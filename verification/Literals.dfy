/**
 The constants that stand for the literals of a constraint: as narrow as possible and
 unsigned, unless the literal is negative.
 */
module Literals {
  import opened Bits
  import opened WordLemmas
  import opened Ast
  import opened Numbers
  import E = ForEachExpansion

  /** The places that hold i. */
  function MinimalWidth(i: nat): nat { if i < 2 then 1 else 1 + MinimalWidth(i / 2) }

  lemma {:induction false} MinimalWidthExactly(i: nat, j: nat)
    requires j > 0
    ensures i < Pow2(j) <==> MinimalWidth(i) <= j
  {
    if i >= 2 {
      if j > 1 {
        MinimalWidthExactly(i / 2, j - 1);
      } else {
        MinimalWidthExactly(i / 2, 1);
      }
    }
  }

  lemma ShiftedOut(i: nat, j: nat)
    requires j > 0
    ensures i / Pow2(j) == 0 <==> MinimalWidth(i) <= j
  {
    MinimalWidthExactly(i, j);
    DivZero(i, Pow2(j));
  }

  lemma DivZero(i: nat, p: nat)
    requires p > 0
    ensures i / p == 0 <==> i < p
  {
    assert i == p * (i / p) + i % p;
  }

  /** A number stored in a machine word of 64 bits. */
  function Stored(i: int): nat { if i < 0 then i % Pow2(64) else i }

  /** The constant of a literal of an integer type. */
  function Literal(i: int, width: nat, sign: bool): Constant {
    if i >= 0 && MinimalWidth(i) < width then Constant(i, MinimalWidth(i), false) else Constant(Stored(i), width, sign)
  }

  method NewValue(i: int, width: nat, sign: bool) returns (c: Constant)
    ensures c == Literal(i, width, sign)
  {
    if i >= 0 {
      var j := 1;
      while j < width
        invariant 1 <= j <= MinimalWidth(i)
      {
        ShiftedOut(i, j);
        if i / Pow2(j) == 0 {
          return Constant(i, j, false);
        }
        j := j + 1;
      }
    }
    c := Constant(Stored(i), width, sign);
  }

  /** The number of a constant, as a bit-vector. */
  function ConstantNumber(c: Constant): int { Wrap(c.sign, c.bitsize, if c.sign then AsInt64(c.value) else c.value) }

  /** A constant or a variable that is a word and not a truth value. */
  predicate IsWord(bitsize: nat, sign: bool) { bitsize > 0 && TerminalKind(bitsize, sign).WordKind? }

  lemma ConstantIs(c: Constant)
    requires IsWord(c.bitsize, c.sign)
    ensures var v := ConstantVal(c); v.WordVal? && |v.w| == c.bitsize && IntOf(c.sign, v.w) == ConstantNumber(c)
  {
  }

  /** A negative number, stored and read back. */
  lemma StoredNegative(i: int)
    requires -Pow2(63) <= i < 0
    ensures Stored(i) == i + Pow2(64) && AsInt64(Stored(i)) == i
  {
    assert Pow2(64) == Pow2(63) + Pow2(63);
    hide Pow2;
    DivModUnique(i, Pow2(64), -1, i + Pow2(64));
    DivModUnique(Stored(i), Pow2(64), 0, Stored(i));
  }

  /** The constant of a literal stands for the literal, and is a word. */
  lemma LiteralIsNumber(i: int, width: nat, sign: bool)
    requires 1 < width <= 64 && FitsIn(sign, width, i)
    ensures var c := Literal(i, width, sign);
      IsWord(c.bitsize, c.sign) && 0 < c.bitsize <= width && ConstantNumber(c) == i
  {
    Pow2Monotone(width - 1, 63);
    hide AsInt64, Stored;
    var c := Literal(i, width, sign);
    if i < 0 {
      StoredNegative(i);
      hide Pow2, FromInt;
      WrapExactly(true, width, i);
    } else {
      MinimalWidthExactly(i, width);
      MinimalWidthExactly(i, width - 1);
      MinimalWidthExactly(i, MinimalWidth(i));
      StoredPositive(i);
      hide Pow2, FromInt;
      WrapExactly(false, c.bitsize, i);
    }
  }

  lemma StoredPositive(i: nat)
    ensures Stored(i) == i
  {
  }

  /** The visitor reads the stored value of a literal that fits into an int as the literal. */
  lemma LiteralSubscript(i: int, width: nat, sign: bool)
    requires IsInt(i) && 1 < width
    ensures E.AsInt(Literal(i, width, sign).value) == i
  {
    if i < 0 {
      NegativeSubscript(i);
    } else {
      AsIntIs(i, i);
    }
  }

  lemma NegativeSubscript(i: int)
    requires IsInt(i) && i < 0
    ensures E.AsInt(Stored(i)) == i
  {
    hide *;
    IntIsLong(i);
    StoredNegative(i);
    TwiceAsWide(i, 32);
    AsIntIs(Stored(i), i);
  }

  lemma IntIsLong(i: int)
    requires IsInt(i)
    ensures -Pow2(63) <= i
  {
    hide Pow2;
    Pow2Monotone(31, 63);
  }

  lemma AsIntIs(v: nat, i: int)
    requires IsInt(i) && FromInt(v, 32) == FromInt(i, 32)
    ensures E.AsInt(v) == i
  {
    hide FromInt, Num;
    SignedOfWord(i, 32);
  }

  lemma TwiceAsWide(i: int, w: nat)
    ensures FromInt(i + Pow2(w + w), w) == FromInt(i, w)
  {
    Pow2Add(w, w);
    FromIntWrap(i, Pow2(w), w);
  }
}
