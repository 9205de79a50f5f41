/**
 Words as sequences of Booleans, least significant bit first, and the numbers
 they stand for.
 */
module Bits {

  function Pow2(n: nat): (p: int)
    ensures p > 0
  {
    if n == 0 then 1 else 2 * Pow2(n - 1)
  }

  function Bit(b: bool): nat { if b then 1 else 0 }

  /** The value of bit c at place i. */
  function Weight(c: bool, i: nat): int { if c then Pow2(i) else 0 }

  /** The unsigned value of a word. */
  function Num(b: seq<bool>): (n: int)
    ensures n >= 0
  {
    if b == [] then 0 else Bit(b[0]) + 2 * Num(b[1..])
  }

  /** The sign bit of a word. */
  predicate Msb(b: seq<bool>) {
    b != [] && b[|b| - 1]
  }

  /** The two's-complement value of a word. */
  function Signed(b: seq<bool>): int {
    if Msb(b) then Num(b) - Pow2(|b|) else Num(b)
  }

  /** The w lowest bits of v in two's complement. */
  function FromInt(v: int, w: nat): (b: seq<bool>)
    ensures |b| == w
    decreases w
  {
    if w == 0 then [] else [v % 2 == 1] + FromInt(v / 2, w - 1)
  }

  function Zeros(n: nat): (b: seq<bool>)
    ensures |b| == n && forall i | 0 <= i < n :: !b[i]
  {
    seq(n, _ => false)
  }

  lemma DivModUnique(v: int, d: nat, q: int, r: int)
    requires d > 0 && 0 <= r < d && v == d * q + r
    ensures v / d == q && v % d == r
  {
    var q', r' := v / d, v % d;
    assert v == d * q' + r';
    if q > q' {
      StrictMul(d, q', q);
      assert false;
    } else if q < q' {
      StrictMul(d, q, q');
      assert false;
    }
  }

  lemma StrictMul(d: nat, a: int, b: int)
    requires a < b
    ensures d * a + d <= d * b
  {
    assert d * b == d * a + d * (b - a);
    assert d * (b - a) == d + d * (b - a - 1);
    MulNonNeg(d, b - a - 1);
  }

  lemma MulNonNeg(a: nat, b: nat)
    ensures a * b >= 0
  {
  }

  lemma {:induction false} NumBound(b: seq<bool>)
    ensures Num(b) < Pow2(|b|)
  {
    if b != [] {
      NumBound(b[1..]);
    }
  }

  /** A word is determined by its length and its number. */
  lemma {:induction false} FromIntNum(b: seq<bool>)
    ensures FromInt(Num(b), |b|) == b
  {
    if b != [] {
      FromIntNum(b[1..]);
      assert Num(b) % 2 == Bit(b[0]);
      assert Num(b) / 2 == Num(b[1..]);
      assert b == [b[0]] + b[1..];
    }
  }

  lemma NumInjective(a: seq<bool>, b: seq<bool>)
    requires |a| == |b| && Num(a) == Num(b)
    ensures a == b
  {
  }

  /** Multiples of 2^w do not show in a word of width w. */
  lemma {:induction false} FromIntWrap(v: int, k: int, w: nat)
    ensures FromInt(v + k * Pow2(w), w) == FromInt(v, w)
    decreases w
  {
    if w > 0 {
      var h := k * Pow2(w - 1);
      assert k * Pow2(w) == 2 * h;
      assert (v + 2 * h) / 2 == v / 2 + h;
      FromIntWrap(v / 2, k, w - 1);
    }
  }

  /** A word whose number differs from v by k times 2^w is the word of v. */
  lemma IsFromInt(b: seq<bool>, v: int, k: int)
    requires v == Num(b) + k * Pow2(|b|)
    ensures b == FromInt(v, |b|)
  {
    FromIntWrap(Num(b), k, |b|);
    FromIntNum(b);
  }

  /** The number of the word of v is v less a multiple of 2^w. */
  lemma {:induction false} NumFromInt(v: int, w: nat) returns (k: int)
    ensures v == Num(FromInt(v, w)) + k * Pow2(w)
    decreases w
  {
    if w == 0 {
      k := v;
    } else {
      k := NumFromInt(v / 2, w - 1);
      assert FromInt(v, w)[1..] == FromInt(v / 2, w - 1);
      assert 2 * (k * Pow2(w - 1)) == k * Pow2(w);
    }
  }

  /** A number that fits is the number of its word. */
  lemma {:induction false} NumOfWord(v: int, w: nat)
    requires 0 <= v < Pow2(w)
    ensures Num(FromInt(v, w)) == v
    decreases w
  {
    if w > 0 {
      NumOfWord(v / 2, w - 1);
      assert FromInt(v, w)[1..] == FromInt(v / 2, w - 1);
    }
  }

  lemma NumOfNegative(v: int, w: nat)
    requires 0 < v <= Pow2(w)
    ensures Num(FromInt(-v, w)) == Pow2(w) - v
  {
    FromIntWrap(-v, 1, w);
    NumOfWord(Pow2(w) - v, w);
  }

  lemma MulDouble(p: int, h: int)
    ensures 2 * (p * h) == (2 * p) * h
  {
  }

  /** A word is cut at any place into a low and a high part. */
  lemma {:induction false} NumSplit(b: seq<bool>, k: nat)
    requires k <= |b|
    ensures Num(b) == Num(b[..k]) + Pow2(k) * Num(b[k..])
  {
    if k == 0 {
      assert b[0..] == b;
    } else {
      var p, h := Pow2(k - 1), Num(b[k..]);
      assert Num(b[1..]) == Num(b[..k][1..]) + p * h by {
        NumSplit(b[1..], k - 1);
        assert b[1..][..k - 1] == b[..k][1..];
        assert b[1..][k - 1..] == b[k..];
      }
      MulDouble(p, h);
    }
  }

  lemma NumAppend(lo: seq<bool>, hi: seq<bool>)
    ensures Num(lo + hi) == Num(lo) + Pow2(|lo|) * Num(hi)
  {
    NumSplit(lo + hi, |lo|);
    assert (lo + hi)[..|lo|] == lo;
    assert (lo + hi)[|lo|..] == hi;
  }

  lemma {:induction false} NumPush(lo: seq<bool>, c: bool)
    ensures Num(lo + [c]) == Num(lo) + Weight(c, |lo|)
  {
    if lo == [] {
      assert (lo + [c])[1..] == [];
    } else {
      NumPush(lo[1..], c);
      assert (lo + [c])[1..] == lo[1..] + [c];
    }
  }

  /** One more bit of a word: the prefix of length i + 1 against that of length i. */
  lemma NumPrefix(b: seq<bool>, i: nat)
    requires i < |b|
    ensures Num(b[..i + 1]) == Num(b[..i]) + Weight(b[i], i)
  {
    assert b[..i + 1] == b[..i] + [b[i]];
    NumPush(b[..i], b[i]);
  }

  lemma {:induction false} NumZeros(b: seq<bool>)
    requires forall i | 0 <= i < |b| :: !b[i]
    ensures Num(b) == 0
  {
    if b != [] {
      NumZeros(b[1..]);
    }
  }

  lemma {:induction false} NumOnes(b: seq<bool>)
    requires forall i | 0 <= i < |b| :: b[i]
    ensures Num(b) == Pow2(|b|) - 1
  {
    if b != [] {
      NumOnes(b[1..]);
    }
  }

  lemma {:induction false} Pow2Add(m: nat, n: nat)
    ensures Pow2(m + n) == Pow2(m) * Pow2(n)
  {
    if m > 0 {
      Pow2Add(m - 1, n);
      assert 2 * (Pow2(m - 1) * Pow2(n)) == Pow2(m) * Pow2(n);
    }
  }

  lemma {:induction false} Pow2Grows(n: nat)
    ensures n < Pow2(n)
  {
    if n > 0 {
      Pow2Grows(n - 1);
    }
  }

  lemma Pow2Monotone(m: nat, n: nat)
    requires m <= n
    ensures Pow2(m) <= Pow2(n)
  {
  }

  lemma MulAtLeast(a: nat, b: nat)
    requires b > 0
    ensures a <= a * b
  {
  }

  /** The sign bit is set exactly when the number is in the upper half. */
  lemma MsbHalf(b: seq<bool>)
    requires b != []
    ensures Msb(b) <==> Num(b) >= Pow2(|b| - 1)
    ensures -Pow2(|b| - 1) <= Signed(b) < Pow2(|b| - 1)
  {
  }

  /** The word of the signed value is the word itself. */
  lemma FromIntSigned(b: seq<bool>)
    ensures FromInt(Signed(b), |b|) == b
  {
    IsFromInt(b, Signed(b), if Msb(b) then -1 else 0);
  }

  /** A signed number that fits is the number of its word. */
  lemma SignedOfWord(v: int, w: nat)
    requires w > 0 && -Pow2(w - 1) <= v < Pow2(w - 1)
    ensures Signed(FromInt(v, w)) == v
  {
    var x := FromInt(v, w);
    MsbHalf(x);
    if v >= 0 {
      NumOfWord(v, w);
    } else {
      NumOfNegative(-v, w);
    }
  }
}
