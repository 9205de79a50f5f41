/**
 The operators on words as operators on numbers: what a word operator of a given width
 computes, and when that is what the visitor of a loop computes on ints.
 */
module Numbers {
  import opened Bits
  import opened SmtLib
  import opened WordLemmas
  import opened Division
  import opened DivisionTheorems
  import opened Ast
  import E = ForEachExpansion

  predicate IsInt(v: int) { -Pow2(31) <= v < Pow2(31) }

  /** The numbers that a word of n bits can stand for. */
  predicate FitsIn(sign: bool, n: nat, v: int)
    requires n > 0
  {
    if sign then -Pow2(n - 1) <= v < Pow2(n - 1) else 0 <= v < Pow2(n)
  }

  /** The number that is left of v in n bits. */
  function Wrap(sign: bool, n: nat, v: int): int { IntOf(sign, FromInt(v, n)) }

  // ----- Words and numbers -----

  lemma NumberFits(sign: bool, x: Word)
    requires x != []
    ensures FitsIn(sign, |x|, IntOf(sign, x))
  {
    MsbHalf(x);
    NumBound(x);
  }

  /** The word of v stands for v exactly when v fits. */
  lemma WrapExactly(sign: bool, n: nat, v: int)
    requires n > 0
    ensures Wrap(sign, n, v) == v <==> FitsIn(sign, n, v)
  {
    NumberFits(sign, FromInt(v, n));
    if FitsIn(sign, n, v) {
      if sign {
        SignedOfWord(v, n);
      } else {
        NumOfWord(v, n);
      }
    }
  }

  /** A word is the word of the number that it stands for. */
  lemma WordOfNumber(sign: bool, x: Word)
    ensures x == FromInt(IntOf(sign, x), |x|)
  {
    FromIntNum(x);
    FromIntSigned(x);
  }

  lemma WordOfWrap(sign: bool, n: nat, v: int)
    ensures FromInt(Wrap(sign, n, v), n) == FromInt(v, n)
  {
    WordOfNumber(sign, FromInt(v, n));
  }

  /** A number of the other sign moves by 2^n. */
  lemma WrapMoves(n: nat, v: int)
    requires n > 0
    ensures -Pow2(n - 1) <= v < 0 ==> Wrap(false, n, v) == v + Pow2(n)
    ensures Pow2(n - 1) <= v < Pow2(n) ==> Wrap(true, n, v) == v - Pow2(n)
  {
    hide FromInt, Num;
    if -Pow2(n - 1) <= v < 0 {
      NumOfNegative(-v, n);
    }
    if Pow2(n - 1) <= v < Pow2(n) {
      FromIntWrap(v, -1, n);
      SignedOfWord(v - Pow2(n), n);
    }
  }

  /** Widening keeps the number. */
  lemma WidenKeeps(sign: bool, x: Word, n: nat)
    requires x != []
    ensures IntOf(sign, Widen(sign, x, n)) == IntOf(sign, x) && |Widen(sign, x, n)| == Max(|x|, n)
  {
    if |x| < n {
      if sign {
        SignExtendSigned(n - |x|, x);
      } else {
        ZeroExtendNum(n - |x|, x);
      }
    }
  }

  /** The low bits of a word of v are the narrower word of v. */
  lemma {:induction false} FromIntPrefix(v: int, m: nat, n: nat)
    requires n <= m
    ensures FromInt(v, m)[..n] == FromInt(v, n)
    decreases n
  {
    if n > 0 {
      FromIntPrefix(v / 2, m - 1, n - 1);
      assert FromInt(v, m)[..n] == [v % 2 == 1] + FromInt(v / 2, m - 1)[..n - 1];
    }
  }

  /** A wider word of a signed number repeats its top bit. */
  lemma WiderWord(x: Word, n: nat)
    requires n >= |x| > 0
    ensures FromInt(Signed(x), n) == SignExtend(n - |x|, x)
  {
    SignExtendSigned(n - |x|, x);
    FromIntSigned(SignExtend(n - |x|, x));
  }

  // ----- What the operators compute -----

  /** The operators whose results are numbers. */
  predicate IsNumeric(op: BinaryOp) { IsModularOp(op) || op in {Devide, Modulo, ShiftLeft, ShiftRight} }

  /** The operators that need no more than the low bits of their operands. */
  predicate IsModularOp(op: BinaryOp) { op in {Plus, Minus, Multiplies, BitAnd, BitOr, BitXor} }

  function ResultWidth(op: BinaryOp, sx: bool, sy: bool, n: nat): nat {
    if op == Devide then DivideWidth(sx, sy, n) else n
  }

  function Bitwise(op: BinaryOp, u: Word, v: Word): (r: Word)
    requires |u| == |v|
    ensures |r| == |u|
  {
    if op == BitAnd then BvAnd(u, v) else if op == BitOr then BvOr(u, v) else BvXor(u, v)
  }

  function BitwiseInt(op: BinaryOp, n: nat, a: int, b: int): int { Signed(Bitwise(op, FromInt(a, n), FromInt(b, n))) }

  function SumInt(op: BinaryOp, a: int, b: int): int {
    if op == Plus then a + b else if op == Minus then a - b else a * b
  }

  /** The number that an operator of n bits computes from the numbers a and b. */
  function WordNumber(op: BinaryOp, sx: bool, sy: bool, n: nat, a: int, b: int): int {
    var sign := ResultSign(op, sx, sy);
    var x, y := Wrap(false, n, a), Wrap(false, n, b);
    match op
    case Devide => Wrap(sign, DivideWidth(sx, sy, n), SignedQuotient(a, b))
    case Modulo =>
      Wrap(sign, n, if sx then SignedRemainder(Wrap(true, n, a), Wrap(true, n, b)) else Remainder(x, y))
    case ShiftLeft => Wrap(sign, n, x * Pow2(y))
    case ShiftRight => Wrap(sign, n, x / Pow2(y))
    case _ =>
      Wrap(sign, n, if op in {BitAnd, BitOr, BitXor} then BitwiseInt(op, n, a, b) else SumInt(op, a, b))
  }

  function UnaryInt(op: UnaryOp, a: int): int { if op == Neg then -a else -a - 1 }

  /** x and y of n bits stand for a and b. */
  ghost predicate StandFor(sx: bool, sy: bool, n: nat, x: Word, y: Word, a: int, b: int) {
    |x| == |y| == n > 0 && IntOf(sx, x) == a && IntOf(sy, y) == b
  }

  lemma StandForWords(sx: bool, sy: bool, n: nat, x: Word, y: Word, a: int, b: int)
    requires StandFor(sx, sy, n, x, y, a, b)
    ensures x == FromInt(a, n) && y == FromInt(b, n)
    ensures FitsIn(sx, n, a) && FitsIn(sy, n, b)
  {
    WordOfNumber(sx, x);
    WordOfNumber(sy, y);
    NumberFits(sx, x);
    NumberFits(sy, y);
  }

  lemma SumUnfolds(op: BinaryOp, sx: bool, sy: bool, x: Word, y: Word)
    requires op in {Plus, Minus, Multiplies} && |x| == |y|
    ensures ApplyWords(op, sx, sy, x, y)
      == WordVal(if op == Plus then BvAdd(x, y) else if op == Minus then BvSub(x, y) else BvMul(x, y))
  {
    hide BvAdd, BvSub, BvMul;
  }

  /** Sums, differences and products of words are the words of sums, differences and products. */
  lemma WordArithmetic(op: BinaryOp, a: int, b: int, w: nat)
    requires op in {Plus, Minus, Multiplies}
    ensures var x, y := FromInt(a, w), FromInt(b, w);
      && (op == Plus ==> BvAdd(x, y) == FromInt(a + b, w))
      && (op == Minus ==> BvSub(x, y) == FromInt(a - b, w))
      && (op == Multiplies ==> BvMul(x, y) == FromInt(a * b, w))
  {
    var x, y := FromInt(a, w), FromInt(b, w);
    var k := NumFromInt(a, w);
    var l := NumFromInt(b, w);
    var p := Pow2(w);
    match op
    case Plus =>
      assert a + b == Num(x) + Num(y) + (k + l) * p;
      FromIntWrap(Num(x) + Num(y), k + l, w);
    case Minus =>
      assert a - b == Num(x) - Num(y) + (k - l) * p;
      FromIntWrap(Num(x) - Num(y), k - l, w);
    case Multiplies =>
      MulWrap(a, b, Num(x), Num(y), k, l, p);
      FromIntWrap(Num(x) * Num(y), Num(x) * l + Num(y) * k + k * l * p, w);
  }

  lemma MulWrap(a: int, b: int, x: int, y: int, k: int, l: int, p: int)
    requires a == x + k * p && b == y + l * p
    ensures a * b == x * y + (x * l + y * k + k * l * p) * p
  {
  }

  /** A modular operator depends on the words of its operands only. */
  lemma ModularWords(op: BinaryOp, sx: bool, sy: bool, n: nat, a: int, b: int)
    requires IsModularOp(op) && n > 0
    ensures ApplyWords(op, sx, sy, FromInt(a, n), FromInt(b, n))
      == WordVal(FromInt(if op in {BitAnd, BitOr, BitXor} then BitwiseInt(op, n, a, b) else SumInt(op, a, b), n))
  {
    hide FromInt, Pow2, Num, Signed, IntOf, ApplyWords;
    var x, y := FromInt(a, n), FromInt(b, n);
    if op in {BitAnd, BitOr, BitXor} {
      BitwiseUnfolds(op, sx, sy, x, y);
      FromIntSigned(Bitwise(op, x, y));
    } else {
      SumUnfolds(op, sx, sy, x, y);
      WordArithmetic(op, a, b, n);
    }
  }

  lemma BitwiseUnfolds(op: BinaryOp, sx: bool, sy: bool, x: Word, y: Word)
    requires op in {BitAnd, BitOr, BitXor} && |x| == |y|
    ensures ApplyWords(op, sx, sy, x, y) == WordVal(Bitwise(op, x, y))
  {
  }

  lemma OthersUnfold(op: BinaryOp, sx: bool, sy: bool, x: Word, y: Word)
    requires IsNumeric(op) && !IsModularOp(op) && |x| == |y|
    ensures op == Devide ==> (ApplyWords(op, sx, sy, x, y)
      == WordVal(FromInt(SignedQuotient(IntOf(sx, x), IntOf(sy, y)), DivideWidth(sx, sy, |x|))))
    ensures op == Modulo ==> (ApplyWords(op, sx, sy, x, y)
      == WordVal(FromInt(if sx then SignedRemainder(Signed(x), Signed(y)) else Remainder(Num(x), Num(y)), |x|)))
    ensures op == ShiftLeft ==> ApplyWords(op, sx, sy, x, y) == WordVal(FromInt(Num(x) * Pow2(Num(y)), |x|))
    ensures op == ShiftRight ==> ApplyWords(op, sx, sy, x, y) == WordVal(FromInt(Num(x) / Pow2(Num(y)), |x|))
  {
    hide FromInt, Pow2, Num, Signed, IntOf, SignedQuotient, SignedRemainder, Remainder;
  }

  /** Every operator on words computes this number, whatever the operands. */
  lemma OperatorNumber(op: BinaryOp, sx: bool, sy: bool, n: nat, x: Word, y: Word, a: int, b: int)
    requires IsNumeric(op) && StandFor(sx, sy, n, x, y, a, b)
    ensures var r := ApplyWords(op, sx, sy, x, y);
      && r.WordVal? && |r.w| == ResultWidth(op, sx, sy, n) > 0
      && IntOf(ResultSign(op, sx, sy), r.w) == WordNumber(op, sx, sy, n, a, b)
  {
    hide FromInt, Pow2, Num, Signed, ApplyWords, SignedQuotient, SignedRemainder, Remainder, BitwiseInt;
    StandForWords(sx, sy, n, x, y, a, b);
    if IsModularOp(op) {
      ModularWords(op, sx, sy, n, a, b);
    } else {
      OthersUnfold(op, sx, sy, x, y);
    }
  }

  // ----- What the visitor computes -----

  /** The visitor makes s of the ints a and b, numbers of n bits. */
  ghost predicate Computes(op: BinaryOp, sx: bool, sy: bool, n: nat, a: int, b: int, s: int) {
    n > 0 && FitsIn(sx, n, a) && FitsIn(sy, n, b) && IsInt(a) && IsInt(b) && E.BinarySub(op, a, b) == Some(s)
  }

  /**
   When a word operator of n bits computes the int s of the visitor. Most results only have
   to fit; remainders by numbers that the operator takes for negative, and right shifts of
   negative numbers, are right only where both happen to agree.
   */
  predicate IsRight(op: BinaryOp, sx: bool, sy: bool, n: nat, a: int, b: int, s: int)
    requires n > 0
  {
    match op
    case Devide => FitsIn(sx || sy, DivideWidth(sx, sy, n), s)
    case Modulo =>
      if sx then 0 < b < Pow2(n - 1) || s == 0
      else b > 0 || a < -b || (b < 0 && a >= Pow2(n) + b && Pow2(n) % -b == 0)
    case ShiftRight => a >= 0 || b == 0
    case _ => FitsIn(ResultSign(op, sx, sy), n, s)
  }

  lemma SubUnfolds(op: BinaryOp, a: int, b: int, s: int)
    requires E.BinarySub(op, a, b) == Some(s)
    ensures op in {Plus, Minus, Multiplies} ==> s == SumInt(op, a, b)
    ensures op in {BitAnd, BitOr, BitXor} ==> s == BitwiseInt(op, 32, a, b)
    ensures op == Devide ==> b != 0 && s == SignedQuotient(a, b)
    ensures op == Modulo ==> b != 0 && s == a - b * SignedQuotient(a, b)
    ensures op == ShiftLeft ==> a >= 0 && b >= 0 && s == a * Pow2(b)
    ensures op == ShiftRight ==> b >= 0 && s == a / Pow2(b)
  {
    hide FromInt, Signed, Pow2, SignedQuotient;
  }

  lemma BitwisePrefix(op: BinaryOp, u: Word, v: Word, n: nat)
    requires |u| == |v| && n <= |u|
    ensures Bitwise(op, u, v)[..n] == Bitwise(op, u[..n], v[..n])
  {
  }

  lemma BitwiseExtends(op: BinaryOp, u: Word, v: Word, k: nat)
    requires |u| == |v| && u != []
    ensures Bitwise(op, SignExtend(k, u), SignExtend(k, v)) == SignExtend(k, Bitwise(op, u, v))
  {
  }

  lemma WiderNumber(v: int, m: nat, n: nat)
    requires n >= m > 0 && FitsIn(true, m, v)
    ensures FromInt(v, n) == SignExtend(n - m, FromInt(v, m))
  {
    hide FromInt, Pow2, Num;
    SignedOfWord(v, m);
    WiderWord(FromInt(v, m), n);
  }

  /** Bitwise operators of different widths agree on numbers, up to the narrower width. */
  lemma BitwiseWords(op: BinaryOp, m: nat, n: nat, a: int, b: int)
    requires m > 0 && n > 0 && FitsIn(true, m, a) && FitsIn(true, m, b)
    ensures FromInt(BitwiseInt(op, m, a, b), n) == Bitwise(op, FromInt(a, n), FromInt(b, n))
  {
    hide FromInt, Pow2, Num, Signed, Bitwise, FitsIn;
    var u, v := FromInt(a, m), FromInt(b, m);
    var r := Bitwise(op, u, v);
    if n <= m {
      FromIntSigned(r);
      FromIntPrefix(Signed(r), m, n);
      FromIntPrefix(a, m, n);
      FromIntPrefix(b, m, n);
      BitwisePrefix(op, u, v, n);
    } else {
      WiderNumber(a, m, n);
      WiderNumber(b, m, n);
      BitwiseExtends(op, u, v, n - m);
      WiderWord(r, n);
    }
  }

  lemma BitwiseNumber(op: BinaryOp, sign: bool, n: nat, a: int, b: int)
    requires n > 0 && IsInt(a) && IsInt(b)
    ensures Wrap(sign, n, BitwiseInt(op, n, a, b)) == Wrap(sign, n, BitwiseInt(op, 32, a, b))
  {
    hide FromInt, Num, Signed, Bitwise, Pow2;
    BitwiseWords(op, 32, n, a, b);
    FromIntSigned(Bitwise(op, FromInt(a, n), FromInt(b, n)));
  }

  lemma RestIs(a: int, b: int)
    requires b != 0
    ensures var s := a - b * SignedQuotient(a, b);
      && s == (if b > 0 then SignedRemainder(a, b) else -SignedRemainder(a, b))
      && Abs(s) < Abs(b) && Abs(s) <= Abs(a) && (s == 0 || (s < 0 <==> a < 0))
  {
    QuotientTruncates(a, b);
    var q := SignedQuotient(a, b);
    assert q * b == b * q;
  }

  /** A small dividend is its own remainder. */
  lemma SmallRest(a: int, b: int)
    requires b != 0 && Abs(a) < Abs(b)
    ensures a - b * SignedQuotient(a, b) == a
  {
    hide SignedRemainder;
    RestIs(a, b);
    assert Abs(a) / Abs(b) == 0;
  }

  lemma EqualRest(a: int, b: int)
    requires b != 0 && Abs(a) == Abs(b)
    ensures a - b * SignedQuotient(a, b) == 0 && SignedRemainder(a, b) == 0
  {
    RestIs(a, b);
    assert Abs(a) / Abs(b) == 1;
  }

  /** Signed remainders. */
  lemma SignedModuloRight(sy: bool, n: nat, a: int, b: int, s: int)
    requires Computes(Modulo, true, sy, n, a, b, s)
    ensures WordNumber(Modulo, true, sy, n, a, b) == s <==> 0 < b < Pow2(n - 1) || s == 0
  {
    hide E.BinarySub, FromInt, Num, SignedRemainder, SignedQuotient, IsInt, IntOf;
    SubUnfolds(Modulo, a, b, s);
    WrapExactly(true, n, a);
    WrapExactly(true, n, b);
    WrapMoves(n, b);
    RestIs(a, b);
    var c := Wrap(true, n, b);
    RestIs(a, c);
    var t := SignedRemainder(a, c);
    WrapExactly(true, n, t);
    if b >= Pow2(n - 1) {
      if Abs(a) < b {
        SmallRest(a, b);
      } else {
        EqualRest(a, b);
        EqualRest(a, c);
      }
      SignsDiffer(a, c);
    }
  }

  lemma SignsDiffer(a: int, c: int)
    requires c < 0
    ensures SignedRemainder(a, c) == 0 || (SignedRemainder(a, c) < 0 <==> a >= 0)
    ensures a == 0 ==> SignedRemainder(a, c) == 0
  {
  }

  lemma UnsignedRest(a: nat, b: int)
    requires b != 0
    ensures a - b * SignedQuotient(a, b) == a % Abs(b)
  {
    RestIs(a, b);
  }

  lemma ModIs(a: nat, d: nat, q: nat, t: nat)
    requires d > 0 && t < d && a == d * q + t
    ensures a % d == t
  {
    DivModUnique(a, d, q, t);
  }

  /** One subtraction of p - d: the rest is that of d exactly when d divides p. */
  lemma RestAfterOne(a: nat, d: nat, p: nat)
    requires 0 < d && p - d <= a < p && d <= p
    ensures a % d == a - (p - d) <==> p % d == 0
  {
    var t := a - (p - d);
    var q := p / d;
    assert p == d * q + p % d;
    if p % d == 0 {
      assert q >= 1 && d * q - d == d * (q - 1);
      ModIs(a, d, q - 1, t);
    }
    if a % d == t {
      var k := a / d;
      assert p == d * k + d == d * (k + 1);
      ModIs(p, d, k + 1, 0);
    }
  }

  /** An unsigned dividend and the word of a negative divisor. */
  lemma NegativeDivisor(n: nat, a: nat, b: int)
    requires n > 0 && a < Pow2(n) && -Pow2(n - 1) <= b < 0
    ensures var y := Pow2(n) + b;
      Wrap(true, n, Remainder(a, y)) == a % -b <==> a < -b || (a >= y && Pow2(n) % -b == 0)
  {
    hide FromInt, Num, IntOf;
    var y, p := Pow2(n) + b, Pow2(n);
    if a < y {
      ModIs(a, y, 0, a);
      WrapExactly(true, n, a);
      WrapMoves(n, a);
      if a < -b {
        ModIs(a, -b, 0, a);
      }
    } else {
      ModIs(a, y, 1, a - y);
      WrapExactly(true, n, a - y);
      RestAfterOne(a, -b, p);
    }
  }

  lemma UnsignedModuloRight(sy: bool, n: nat, a: int, b: int, s: int)
    requires Computes(Modulo, false, sy, n, a, b, s)
    ensures WordNumber(Modulo, false, sy, n, a, b) == s <==>
      b > 0 || a < -b || (b < 0 && a >= Pow2(n) + b && Pow2(n) % -b == 0)
  {
    hide E.BinarySub, FromInt, Num, SignedQuotient, IsInt, IntOf;
    SubUnfolds(Modulo, a, b, s);
    UnsignedRest(a, b);
    WrapExactly(false, n, a);
    WrapExactly(false, n, b);
    WrapMoves(n, b);
    if b > 0 {
      RestBelow(a, b);
      WrapExactly(sy, n, a % b);
    } else {
      NegativeDivisor(n, a, b);
    }
  }

  lemma RestBelow(a: nat, b: nat)
    requires b > 0
    ensures 0 <= a % b <= a && a % b < b
  {
    DivAtMost(a, b);
  }

  lemma ShiftLeftRight(sx: bool, sy: bool, n: nat, a: int, b: int, s: int)
    requires Computes(ShiftLeft, sx, sy, n, a, b, s)
    ensures WordNumber(ShiftLeft, sx, sy, n, a, b) == s <==> FitsIn(sx, n, s)
  {
    hide E.BinarySub, FromInt, Num, IsInt, IntOf;
    SubUnfolds(ShiftLeft, a, b, s);
    WrapExactly(false, n, a);
    WrapExactly(false, n, b);
    WrapExactly(sx, n, s);
  }

  lemma DivShrinks(a: int, p: int)
    requires p >= 1
    ensures a >= 0 ==> 0 <= a / p <= a
    ensures a < 0 ==> a <= a / p < 0
  {
    var q := a / p;
    assert a == p * q + a % p;
    if a >= 0 {
      MulAtLeast(q, p);
    } else if q < 0 {
      MulAtLeast(-q - 1, p);
      assert (-q - 1) * p == -(p * q) - p;
    }
  }

  lemma DivHalves(a: nat, p: int, h: nat)
    requires p >= 2 && a < 2 * h
    ensures 0 <= a / p < h
  {
    var q := a / p;
    assert a == p * q + a % p;
    if q >= 0 {
      MulAtLeast(q, p - 1);
      assert p * q == q * (p - 1) + q;
    }
  }

  lemma ShiftRightRight(sx: bool, sy: bool, n: nat, a: int, b: int, s: int)
    requires Computes(ShiftRight, sx, sy, n, a, b, s)
    ensures WordNumber(ShiftRight, sx, sy, n, a, b) == s <==> a >= 0 || b == 0
  {
    hide E.BinarySub, FromInt, Num, IsInt, IntOf;
    SubUnfolds(ShiftRight, a, b, s);
    WrapExactly(false, n, a);
    WrapExactly(false, n, b);
    WrapMoves(n, a);
    DivShrinks(a, Pow2(b));
    WrapExactly(sx, n, s);
    if a < 0 {
      if b == 0 {
        WrapAgain(n, a);
      } else {
        DivHalves(a + Pow2(n), Pow2(b), Pow2(n - 1));
        WrapExactly(true, n, (a + Pow2(n)) / Pow2(b));
      }
    }
  }

  lemma WrapAgain(n: nat, a: int)
    requires n > 0 && -Pow2(n - 1) <= a < 0
    ensures Wrap(true, n, (a + Pow2(n)) / Pow2(0)) == a
  {
    FromIntWrap(a, 1, n);
    WrapExactly(true, n, a);
  }

  /** The exact condition, on numbers. */
  lemma RightExactly(op: BinaryOp, sx: bool, sy: bool, n: nat, a: int, b: int, s: int)
    requires IsNumeric(op) && Computes(op, sx, sy, n, a, b, s)
    ensures WordNumber(op, sx, sy, n, a, b) == s <==> IsRight(op, sx, sy, n, a, b, s)
  {
    hide Pow2, FromInt, Num, IntOf, Wrap, FitsIn, SignedQuotient, BitwiseInt, E.BinarySub;
    var sign := ResultSign(op, sx, sy);
    if op == Modulo {
      if sx {
        SignedModuloRight(sy, n, a, b, s);
      } else {
        UnsignedModuloRight(sy, n, a, b, s);
      }
    } else if op == ShiftLeft {
      ShiftLeftRight(sx, sy, n, a, b, s);
    } else if op == ShiftRight {
      ShiftRightRight(sx, sy, n, a, b, s);
    } else {
      SubUnfolds(op, a, b, s);
      WrapExactly(sign, ResultWidth(op, sx, sy, n), s);
      BitwiseNumber(op, sign, n, a, b);
    }
  }

  /**
   The exact condition for one operator: from operands that stand for the ints of the visitor
   the word operator computes the int of the visitor if and only if it is right.
   */
  lemma OperatorExactly(op: BinaryOp, sx: bool, sy: bool, n: nat, x: Word, y: Word, a: int, b: int, s: int)
    requires IsNumeric(op) && StandFor(sx, sy, n, x, y, a, b) && IsInt(a) && IsInt(b)
    requires E.BinarySub(op, a, b) == Some(s)
    ensures var r := ApplyWords(op, sx, sy, x, y);
      && r.WordVal? && |r.w| == ResultWidth(op, sx, sy, n)
      && (IntOf(ResultSign(op, sx, sy), r.w) == s <==> IsRight(op, sx, sy, n, a, b, s))
  {
    StandForWords(sx, sy, n, x, y, a, b);
    assert Computes(op, sx, sy, n, a, b, s);
    hide *;
    OperatorNumber(op, sx, sy, n, x, y, a, b);
    RightExactly(op, sx, sy, n, a, b, s);
  }

  // ----- Negation and complement -----

  lemma UnaryUnfolds(op: UnaryOp, x: Word)
    requires op != Not && x != []
    ensures ApplyUnary(op, WordVal(x)) == WordVal(if op == Neg then BvNeg(x) else BvNot(x))
  {
    hide BvNeg, BvNot;
  }

  lemma NegationIs(x: Word, a: int)
    requires x == FromInt(a, |x|)
    ensures BvNeg(x) == FromInt(-a, |x|) && BvNot(x) == FromInt(-a - 1, |x|)
  {
    var n := |x|;
    var k := NumFromInt(a, n);
    assert -a == -Num(x) + -k * Pow2(n);
    FromIntWrap(-Num(x), -k, n);
    NumNot(x);
    assert -a - 1 == Num(BvNot(x)) + (-k - 1) * Pow2(n);
    IsFromInt(BvNot(x), -a - 1, -k - 1);
  }

  /** Negation and complement depend on the word of the operand only. */
  lemma UnaryWords(op: UnaryOp, n: nat, a: int)
    requires op != Not && n > 0
    ensures ApplyUnary(op, WordVal(FromInt(a, n))) == WordVal(FromInt(UnaryInt(op, a), n))
  {
    hide FromInt, Pow2, Num, ApplyUnary;
    UnaryUnfolds(op, FromInt(a, n));
    NegationIs(FromInt(a, n), a);
  }

  /** They are right exactly when the result fits. */
  lemma UnaryExactly(op: UnaryOp, sign: bool, x: Word, a: int)
    requires op != Not && x != [] && IntOf(sign, x) == a
    ensures var r := ApplyUnary(op, WordVal(x));
      && r.WordVal? && |r.w| == |x| && IntOf(sign, r.w) == Wrap(sign, |x|, UnaryInt(op, a))
      && (IntOf(sign, r.w) == UnaryInt(op, a) <==> FitsIn(sign, |x|, UnaryInt(op, a)))
  {
    hide FromInt, Pow2, Num, ApplyUnary, FitsIn;
    WordOfNumber(sign, x);
    UnaryWords(op, |x|, a);
    WrapExactly(sign, |x|, UnaryInt(op, a));
  }

  // ----- Ints -----

  lemma WordIsInt(x: Word)
    requires |x| == 32
    ensures IsInt(Signed(x))
  {
    MsbHalf(x);
  }

  lemma CheckedInt(v: int)
    requires E.Checked(v).Some?
    ensures IsInt(E.Checked(v).value)
  {
    hide Pow2;
  }

  lemma UnaryIsInt(op: UnaryOp, a: int)
    requires op != Not && IsInt(a) && E.UnarySub(op, a).Some?
    ensures E.UnarySub(op, a) == Some(UnaryInt(op, a)) && IsInt(UnaryInt(op, a))
  {
    hide Pow2;
  }

  lemma RestInt(a: int, b: int)
    requires IsInt(a) && b != 0
    ensures IsInt(a - b * SignedQuotient(a, b))
  {
    hide Pow2;
    RestIs(a, b);
  }

  lemma ShiftedInt(a: int, p: int)
    requires IsInt(a) && p >= 1
    ensures IsInt(a / p)
  {
    hide Pow2;
    DivShrinks(a, p);
  }

  lemma BinaryIsInt(op: BinaryOp, a: int, b: int)
    requires IsNumeric(op) && IsInt(a) && E.BinarySub(op, a, b).Some?
    ensures IsInt(E.BinarySub(op, a, b).value)
  {
    hide Pow2, FromInt, Signed, E.Checked, SignedQuotient, IsInt;
    match op
    case BitAnd => WordIsInt(BvAnd(FromInt(a, 32), FromInt(b, 32)));
    case BitOr => WordIsInt(BvOr(FromInt(a, 32), FromInt(b, 32)));
    case BitXor => WordIsInt(BvXor(FromInt(a, 32), FromInt(b, 32)));
    case Plus => CheckedInt(a + b);
    case Minus => CheckedInt(a - b);
    case Multiplies => CheckedInt(a * b);
    case Devide => CheckedInt(SignedQuotient(a, b));
    case Modulo => RestInt(a, b);
    case ShiftLeft => CheckedInt(a * Pow2(b));
    case ShiftRight => ShiftedInt(a, Pow2(b));
    case _ => assert false;
  }
}
