/**
 What expressions mean, said of the numbers of their operands: a word stands for its signed
 number when its expression is signed, and else for its unsigned one. Operands may have
 different widths.
 */
module Meanings {
  import opened Bits
  import opened SmtLib
  import opened WordLemmas
  import opened Division
  import opened DivisionTheorems
  import opened Ast
  import opened FixWidth
  import opened Numbers
  import opened Literals

  /** Both operands have words as values. */
  ghost predicate AreWords(l: Node, r: Node, m: Model, x: Word, y: Word) {
    Meaning(l, m) == WordVal(x) && Meaning(r, m) == WordVal(y) && x != [] && y != []
  }

  /** The number that a word stands for as the value of n. */
  function NumberOf(n: Node, x: Word): int { if Sign(n) then Signed(x) else Num(x) }

  lemma BinaryMeaning(op: BinaryOp, l: Node, r: Node, m: Model)
    ensures Meaning(Binary(op, l, r), m) == ApplyWidened(op, Sign(l), Sign(r), Meaning(l, m), Meaning(r, m))
  {
    EvalBinary(true, op, l, r, Scalar(m));
  }

  /** The operator gets words of the same width that stand for the same numbers. */
  lemma Operands(op: BinaryOp, l: Node, r: Node, m: Model, x: Word, y: Word) returns (u: Word, v: Word)
    requires AreWords(l, r, m, x, y)
    ensures |u| == |v| == Max(|x|, |y|) > 0
    ensures NumberOf(l, u) == NumberOf(l, x) && NumberOf(r, v) == NumberOf(r, y)
    ensures Meaning(Binary(op, l, r), m) == ApplyWords(op, Sign(l), Sign(r), u, v)
  {
    BinaryMeaning(op, l, r, m);
    hide Meaning, ApplyWords, Num, Signed;
    u, v := Widen(Sign(l), x, |y|), Widen(Sign(r), y, |x|);
    WidenKeeps(Sign(l), x, |y|);
    WidenKeeps(Sign(r), y, |x|);
  }

  // ----- Comparisons -----

  /** An order compares the numbers of its operands as they are before widening, whatever their signs. */
  lemma OrderMeans(l: Node, r: Node, m: Model, x: Word, y: Word)
    requires AreWords(l, r, m, x, y)
    ensures Meaning(Binary(Less, l, r), m) == BoolVal(NumberOf(l, x) < NumberOf(r, y))
    ensures Meaning(Binary(LessEqual, l, r), m) == BoolVal(NumberOf(l, x) <= NumberOf(r, y))
    ensures Meaning(Binary(Greater, l, r), m) == BoolVal(NumberOf(l, x) > NumberOf(r, y))
    ensures Meaning(Binary(GreaterEqual, l, r), m) == BoolVal(NumberOf(l, x) >= NumberOf(r, y))
  {
    hide Num, Signed, Meaning;
    var u, v := Operands(Less, l, r, m, x, y);
    u, v := Operands(LessEqual, l, r, m, x, y);
    u, v := Operands(Greater, l, r, m, x, y);
    u, v := Operands(GreaterEqual, l, r, m, x, y);
  }

  /** A negative number and an unsigned one that have the same word of n bits. */
  predicate Alias(signed: bool, a: int, b: int, n: nat) {
    if signed then a < 0 && b == a + Pow2(n) else b < 0 && a == b + Pow2(n)
  }

  predicate AreAliases(l: Node, r: Node, a: int, b: int, n: nat) { Sign(l) != Sign(r) && Alias(Sign(l), a, b, n) }

  lemma SameWord(sx: bool, sy: bool, u: Word, v: Word)
    requires |u| == |v| > 0
    ensures var a, b := if sx then Signed(u) else Num(u), if sy then Signed(v) else Num(v);
      && (u == v <==> a == b || (sx != sy && Alias(sx, a, b, |u|)))
      && (sx != sy && Alias(sx, a, b, |u|) ==> a != b)
  {
    MsbHalf(u);
    MsbHalf(v);
    NumBound(u);
    NumBound(v);
    if Num(u) == Num(v) {
      NumInjective(u, v);
    }
  }

  /**
   Equality compares words: it is the equality of the numbers exactly when they are not a
   negative number and the unsigned number with the same word.
   */
  lemma EqualityMeans(l: Node, r: Node, m: Model, x: Word, y: Word)
    requires AreWords(l, r, m, x, y)
    ensures var a, b, n := NumberOf(l, x), NumberOf(r, y), Max(|x|, |y|);
      && Meaning(Binary(Equal, l, r), m) == BoolVal(a == b || AreAliases(l, r, a, b, n))
      && Meaning(Binary(NotEqual, l, r), m) == BoolVal(a != b && !AreAliases(l, r, a, b, n))
      && (AreAliases(l, r, a, b, n) ==> a != b)
  {
    hide Num, Signed, Meaning, Pow2;
    var u, v := Operands(NotEqual, l, r, m, x, y);
    SameWord(Sign(l), Sign(r), u, v);
    u, v := Operands(Equal, l, r, m, x, y);
    SameWord(Sign(l), Sign(r), u, v);
  }

  function OneIf(v: Val): nat { if v == BoolVal(true) then 1 else 0 }

  /** How many of three are true. */
  function Truths(a: Val, b: Val, c: Val): nat { OneIf(a) + OneIf(b) + OneIf(c) }

  /** Exactly one of <, == and > holds, except for such aliases, where == and one order hold. */
  lemma Trichotomy(l: Node, r: Node, m: Model, x: Word, y: Word)
    requires AreWords(l, r, m, x, y)
    ensures Truths(Meaning(Binary(Less, l, r), m), Meaning(Binary(Equal, l, r), m), Meaning(Binary(Greater, l, r), m))
      == if AreAliases(l, r, NumberOf(l, x), NumberOf(r, y), Max(|x|, |y|)) then 2 else 1
  {
    hide Num, Signed, Meaning, Pow2, Alias;
    OrderMeans(l, r, m, x, y);
    EqualityMeans(l, r, m, x, y);
  }

  /** The signed -1 and the unsigned 3 of two bits: the first is less, and both are equal. */
  lemma AliasesAreEqual(l: Node, r: Node, m: Model)
    requires Sign(l) && !Sign(r) && Meaning(l, m) == Meaning(r, m) == WordVal([true, true])
    ensures Meaning(Binary(Less, l, r), m) == Meaning(Binary(Equal, l, r), m) == BoolVal(true)
  {
    var w := [true, true];
    assert w[1..] == [true] && w[1..][1..] == [];
    assert Num(w) == 3 && Signed(w) == -1;
    OrderMeans(l, r, m, w, w);
    EqualityMeans(l, r, m, w, w);
  }

  // ----- Sums, quotients and remainders -----

  lemma WordModulo(v: int, n: nat)
    ensures Num(FromInt(v, n)) == v % Pow2(n)
  {
    var k := NumFromInt(v, n);
    NumBound(FromInt(v, n));
    DivModUnique(v, Pow2(n), k, Num(FromInt(v, n)));
  }

  /** A value of n bits: v modulo 2^n, and v itself if it fits. */
  ghost predicate IsResult(val: Val, n: nat, signed: bool, v: int) {
    && val.WordVal? && |val.w| == n > 0 && Num(val.w) == v % Pow2(n)
    && (signed && -Pow2(n - 1) <= v < Pow2(n - 1) ==> Signed(val.w) == v)
    && (!signed && 0 <= v < Pow2(n) ==> Num(val.w) == v)
  }

  lemma WordIsResult(v: int, n: nat, signed: bool)
    requires n > 0
    ensures IsResult(WordVal(FromInt(v, n)), n, signed, v)
  {
    WordModulo(v, n);
    hide FromInt, Num, Pow2;
    WrapExactly(true, n, v);
    WrapExactly(false, n, v);
  }

  /** Sums, differences and products are those of the numbers, modulo 2^n, and signed if one operand is. */
  lemma SumMeans(op: BinaryOp, l: Node, r: Node, m: Model, x: Word, y: Word)
    requires op in {Plus, Minus, Multiplies} && AreWords(l, r, m, x, y)
    ensures var a, b, n := NumberOf(l, x), NumberOf(r, y), Max(|x|, |y|);
      var v := if op == Plus then a + b else if op == Minus then a - b else a * b;
      && Sign(Binary(op, l, r)) == (Sign(l) || Sign(r))
      && IsResult(Meaning(Binary(op, l, r), m), n, Sign(l) || Sign(r), v)
  {
    hide Num, Signed, Meaning, Pow2, FromInt, ApplyWords;
    var u, v := Operands(op, l, r, m, x, y);
    var n, a, b := Max(|x|, |y|), NumberOf(l, x), NumberOf(r, y);
    WordOfNumber(Sign(l), u);
    WordOfNumber(Sign(r), v);
    SumUnfolds(op, Sign(l), Sign(r), u, v);
    WordArithmetic(op, a, b, n);
    WordIsResult(if op == Plus then a + b else if op == Minus then a - b else a * b, n, Sign(l) || Sign(r));
  }

  /** rest is what the division of a by b rounded towards zero leaves. */
  ghost predicate IsRest(a: int, b: int, q: int, rest: int) {
    a == q * b + rest && Abs(rest) < Abs(b) && (rest == 0 || (rest < 0 <==> a < 0))
  }

  /**
   A quotient is that of the numbers, rounded towards zero, with one bit more for operands of
   different signs. The only quotient that does not fit is that of the least number by -1.
   */
  lemma QuotientMeans(l: Node, r: Node, m: Model, x: Word, y: Word) returns (q: int)
    requires AreWords(l, r, m, x, y) && NumberOf(r, y) != 0
    ensures var a, b, n := NumberOf(l, x), NumberOf(r, y), Max(|x|, |y|);
      var w := if Sign(l) == Sign(r) then n else n + 1;
      && IsRest(a, b, q, a - q * b)
      && Sign(Binary(Devide, l, r)) == (Sign(l) || Sign(r))
      && IsResult(Meaning(Binary(Devide, l, r), m), w, Sign(l) || Sign(r), q)
      && (FitsIn(Sign(l) || Sign(r), w, q) || (Sign(l) && Sign(r) && a == -Pow2(n - 1) && b == -1))
  {
    hide Num, Signed, Meaning, Pow2, FromInt, ApplyWords, SignedQuotient;
    var u, v := Operands(Devide, l, r, m, x, y);
    var a, b, n := NumberOf(l, x), NumberOf(r, y), Max(|x|, |y|);
    q := SignedQuotient(a, b);
    QuotientTruncates(a, b);
    OthersUnfold(Devide, Sign(l), Sign(r), u, v);
    NumberFits(Sign(l), u);
    NumberFits(Sign(r), v);
    QuotientFitsUnless(Sign(l), Sign(r), n, a, b, q);
    WordIsResult(q, if Sign(l) == Sign(r) then n else n + 1, Sign(l) || Sign(r));
  }

  lemma QuotientFitsUnless(sx: bool, sy: bool, n: nat, a: int, b: int, q: int)
    requires n > 0 && b != 0 && FitsIn(sx, n, a) && FitsIn(sy, n, b) && q == SignedQuotient(a, b)
    ensures FitsIn(sx || sy, if sx == sy then n else n + 1, q) || (sx && sy && a == -Pow2(n - 1) && b == -1)
  {
    hide Pow2;
    assert Pow2(n) == 2 * Pow2(n - 1) by { DoublePower(n - 1); }
    var c, d := Abs(a), Abs(b);
    var k := c / d;
    QuotientBound(c, d);
  }

  lemma QuotientBound(c: nat, d: nat)
    requires d > 0
    ensures c / d <= c && (d > 1 ==> 2 * (c / d) <= c)
  {
    var k := c / d;
    assert c == d * k + c % d;
    MulAtLeast(k, d);
    if d > 1 {
      assert d * k == (d - 2) * k + 2 * k;
      MulNonNeg(d - 2, k);
    }
  }

  lemma DoublePower(n: nat)
    ensures Pow2(n + 1) == 2 * Pow2(n)
  {
  }

  /**
   A remainder by a positive divisor (that a signed dividend does not take for negative) is
   what the division rounded towards zero leaves.
   */
  lemma RemainderMeans(l: Node, r: Node, m: Model, x: Word, y: Word) returns (q: int, rest: int)
    requires AreWords(l, r, m, x, y) && NumberOf(r, y) > 0
    requires Sign(l) ==> NumberOf(r, y) < Pow2(Max(|x|, |y|) - 1)
    ensures var a, b, n := NumberOf(l, x), NumberOf(r, y), Max(|x|, |y|);
      && IsRest(a, b, q, rest) && Sign(Binary(Modulo, l, r)) == (Sign(l) || Sign(r))
      && IsResult(Meaning(Binary(Modulo, l, r), m), n, Sign(l) || Sign(r), rest)
  {
    hide Num, Signed, Meaning, Pow2, FromInt, ApplyWords, SignedQuotient, SignedRemainder, Remainder;
    var u, v := Operands(Modulo, l, r, m, x, y);
    var a, b, n := NumberOf(l, x), NumberOf(r, y), Max(|x|, |y|);
    q := SignedQuotient(a, b);
    rest := a - q * b;
    QuotientTruncates(a, b);
    OthersUnfold(Modulo, Sign(l), Sign(r), u, v);
    WordIsResult(rest, n, Sign(l) || Sign(r));
    WordRemainder(Sign(l), Sign(r), u, v);
  }

  lemma WordRemainder(sx: bool, sy: bool, u: Word, v: Word)
    requires |u| == |v| > 0
    requires var b := if sy then Signed(v) else Num(v); b > 0 && (sx ==> b < Pow2(|v| - 1))
    ensures (if sx then SignedRemainder(Signed(u), Signed(v)) else Remainder(Num(u), Num(v)))
      == SignedRemainder(if sx then Signed(u) else Num(u), if sy then Signed(v) else Num(v))
  {
    hide Num, Signed, Pow2, SignedRemainder, Remainder;
    SignedOrNot(sy, v);
    if sx {
      SmallIsPositive(sy, v, if sy then Signed(v) else Num(v));
    } else {
      PositiveRemainder(Num(u), Num(v));
    }
  }

  /** A number that is not negative is also the unsigned one. */
  lemma SignedOrNot(signed: bool, u: Word)
    requires u != []
    ensures signed && Signed(u) >= 0 ==> Num(u) == Signed(u)
  {
    NumBound(u);
  }

  lemma SmallIsPositive(signed: bool, v: Word, b: int)
    requires v != [] && b == (if signed then Signed(v) else Num(v)) && 0 < b < Pow2(|v| - 1)
    ensures Signed(v) == b
  {
    MsbHalf(v);
  }

  lemma PositiveRemainder(a: nat, b: nat)
    requires b > 0
    ensures Remainder(a, b) == SignedRemainder(a, b)
  {
  }

  // ----- Shifts -----

  /** A shift to the left multiplies by a power of two, modulo 2^n. */
  lemma ShiftLeftMeans(l: Node, r: Node, m: Model, x: Word, y: Word)
    requires AreWords(l, r, m, x, y) && NumberOf(r, y) >= 0
    ensures var a, b, n := NumberOf(l, x), NumberOf(r, y), Max(|x|, |y|);
      && Sign(Binary(ShiftLeft, l, r)) == Sign(l)
      && IsResult(Meaning(Binary(ShiftLeft, l, r), m), n, Sign(l), a * Pow2(b))
  {
    hide Num, Signed, Meaning, Pow2, FromInt, ApplyWords;
    var u, v := Operands(ShiftLeft, l, r, m, x, y);
    var a, b, n := NumberOf(l, x), NumberOf(r, y), Max(|x|, |y|);
    SignedOrNot(Sign(r), v);
    OthersUnfold(ShiftLeft, Sign(l), Sign(r), u, v);
    WordOfNumber(Sign(l), u);
    var k := NumFromInt(a, n);
    assert a * Pow2(b) == (Num(u) + k * Pow2(n)) * Pow2(b) == Num(u) * Pow2(b) + (k * Pow2(b)) * Pow2(n);
    FromIntWrap(Num(u) * Pow2(b), k * Pow2(b), n);
    WordIsResult(a * Pow2(b), n, Sign(l));
  }

  /** A shift to the right of a number that is not negative divides by a power of two. */
  lemma ShiftRightMeans(l: Node, r: Node, m: Model, x: Word, y: Word)
    requires AreWords(l, r, m, x, y) && NumberOf(r, y) >= 0 && NumberOf(l, x) >= 0
    ensures var a, b, n := NumberOf(l, x), NumberOf(r, y), Max(|x|, |y|);
      && Sign(Binary(ShiftRight, l, r)) == Sign(l)
      && IsResult(Meaning(Binary(ShiftRight, l, r), m), n, Sign(l), a / Pow2(b))
  {
    hide Num, Signed, Meaning, Pow2, FromInt, ApplyWords;
    var u, v := Operands(ShiftRight, l, r, m, x, y);
    var a, b, n := NumberOf(l, x), NumberOf(r, y), Max(|x|, |y|);
    SignedOrNot(Sign(l), u);
    SignedOrNot(Sign(r), v);
    OthersUnfold(ShiftRight, Sign(l), Sign(r), u, v);
    WordIsResult(a / Pow2(b), n, Sign(l));
  }

  // ----- Bitwise operators -----

  /** The binary digit of a number at place i. */
  function Digit(v: int, i: nat): int { (v / Pow2(i)) % 2 }

  lemma {:induction false} BitIsDigit(x: Word, i: nat)
    requires i < |x|
    ensures Digit(Num(x), i) == if x[i] then 1 else 0
  {
    FirstBit(x);
    hide Num;
    if i > 0 {
      hide Digit;
      BitIsDigit(x[1..], i - 1);
      HalfDigit(Num(x), i - 1);
      assert Num(x) / 2 == Num(x[1..]);
    }
  }

  lemma HalfDigit(v: nat, i: nat)
    ensures Digit(v, i + 1) == Digit(v / 2, i)
  {
    var p := Pow2(i);
    var q, rest := v / Pow2(i + 1), v % Pow2(i + 1);
    assert v == 2 * p * q + rest;
    assert 2 * p * q == 2 * (p * q);
    hide Pow2;
    DivModUnique(v / 2, p, q, rest / 2);
  }

  /** Digit by digit: the product, the greater one, the difference. */
  lemma BitwiseDigits(u: Word, v: Word, i: nat)
    requires |u| == |v| && i < |u|
    ensures var a, b := Digit(Num(u), i), Digit(Num(v), i);
      && Digit(Num(BvAnd(u, v)), i) == a * b
      && Digit(Num(BvOr(u, v)), i) == a + b - a * b
      && Digit(Num(BvXor(u, v)), i) == a + b - 2 * (a * b)
      && Digit(Num(BvNot(u)), i) == 1 - a
  {
    hide Digit, Num;
    BitIsDigit(u, i);
    BitIsDigit(v, i);
    BitIsDigit(BvAnd(u, v), i);
    BitIsDigit(BvOr(u, v), i);
    BitIsDigit(BvXor(u, v), i);
    BitIsDigit(BvNot(u), i);
  }

  lemma FirstBit(x: Word)
    requires x != []
    ensures Num(x) == (if x[0] then 1 else 0) + 2 * Num(x[1..])
  {
  }

  /** The common bits count twice in a sum. */
  lemma {:induction false} BitwiseSums(u: Word, v: Word)
    requires |u| == |v|
    ensures Num(BvOr(u, v)) + Num(BvAnd(u, v)) == Num(u) + Num(v)
    ensures Num(BvXor(u, v)) + 2 * Num(BvAnd(u, v)) == Num(u) + Num(v)
  {
    if u != [] {
      hide Num, BvOr, BvAnd, BvXor;
      BitwiseSums(u[1..], v[1..]);
      FirstBit(u);
      FirstBit(v);
      FirstBit(BvOr(u, v));
      FirstBit(BvAnd(u, v));
      FirstBit(BvXor(u, v));
      BitwiseParts(u, v);
    }
  }

  lemma BitwiseParts(u: Word, v: Word)
    requires |u| == |v| > 0
    ensures BvOr(u, v)[0] == (u[0] || v[0]) && BvOr(u, v)[1..] == BvOr(u[1..], v[1..])
    ensures BvAnd(u, v)[0] == (u[0] && v[0]) && BvAnd(u, v)[1..] == BvAnd(u[1..], v[1..])
    ensures BvXor(u, v)[0] == (u[0] != v[0]) && BvXor(u, v)[1..] == BvXor(u[1..], v[1..])
  {
  }

  /** The bitwise operators of expressions, digit by digit, on the numbers modulo 2^n. */
  lemma BitwiseMeans(op: BinaryOp, l: Node, r: Node, m: Model, x: Word, y: Word, i: nat)
    requires op in {BitAnd, BitOr, BitXor} && AreWords(l, r, m, x, y) && i < Max(|x|, |y|)
    ensures var n := Max(|x|, |y|);
      var a, b := Digit(NumberOf(l, x) % Pow2(n), i), Digit(NumberOf(r, y) % Pow2(n), i);
      var val := Meaning(Binary(op, l, r), m);
      && val.WordVal? && |val.w| == n && Sign(Binary(op, l, r)) == (Sign(l) || Sign(r))
      && Digit(Num(val.w), i)
        == if op == BitAnd then a * b else if op == BitOr then a + b - a * b else a + b - 2 * (a * b)
  {
    hide Num, Signed, Meaning, Pow2, FromInt, ApplyWords, Digit;
    var u, v := Operands(op, l, r, m, x, y);
    WordOfNumber(Sign(l), u);
    WordOfNumber(Sign(r), v);
    WordModulo(NumberOf(l, x), |u|);
    WordModulo(NumberOf(r, y), |u|);
    BitwiseUnfolds(op, Sign(l), Sign(r), u, v);
    BitwiseDigits(u, v, i);
  }

  // ----- One operand -----

  /** Negation and complement, modulo 2^n. */
  lemma UnaryMeans(child: Node, m: Model, x: Word)
    requires Meaning(child, m) == WordVal(x) && x != []
    ensures var a := NumberOf(child, x);
      && IsResult(Meaning(Unary(Neg, child), m), |x|, Sign(child), -a)
      && IsResult(Meaning(Unary(Complement, child), m), |x|, Sign(child), -a - 1)
  {
    hide Num, Signed, Pow2, FromInt, BvNeg, BvNot, IsResult;
    var a := NumberOf(child, x);
    assert Meaning(Unary(Neg, child), m) == WordVal(BvNeg(x));
    assert Meaning(Unary(Complement, child), m) == WordVal(BvNot(x));
    hide Meaning;
    WordOfNumber(Sign(child), x);
    NegationIs(x, a);
    WordIsResult(-a, |x|, Sign(child));
    WordIsResult(-a - 1, |x|, Sign(child));
  }

  /** Extending keeps the number. */
  lemma ExtendMeans(child: Node, k: nat, m: Model, x: Word)
    requires Meaning(child, m) == WordVal(x) && x != []
    ensures var e := Meaning(Extend(child, k), m);
      && e.WordVal? && |e.w| == |x| + k
      && NumberOf(child, e.w) == NumberOf(child, x) && Sign(Extend(child, k)) == Sign(child)
  {
    hide Num, Signed;
    if Sign(child) {
      SignExtendSigned(k, x);
    } else {
      ZeroExtendNum(k, x);
    }
  }

  /** Cutting out the bits r to l divides by 2^l and keeps r - l + 1 digits. */
  lemma SliceMeans(child: Node, r: nat, l: nat, m: Model, x: Word)
    requires Meaning(child, m) == WordVal(x) && l <= r < |x|
    ensures var s := Meaning(Bitslice(child, r, l), m);
      s.WordVal? && |s.w| == r - l + 1 && Num(s.w) == Num(x) / Pow2(l) % Pow2(r - l + 1)
  {
    hide Num, Pow2;
    SliceNumber(x, r, l);
  }

  /** Being inside a set of constants of the type of the operand means having the number of one of them. */
  lemma InsideMeans(child: Node, collection: seq<Constant>, m: Model, x: Word)
    requires Meaning(child, m) == WordVal(x) && x != []
    requires forall c | c in collection :: IsWord(c.bitsize, c.sign) && c.bitsize == |x| && c.sign == Sign(child)
    ensures Meaning(Inside(child, collection), m)
      == BoolVal(exists i | 0 <= i < |collection| :: ConstantNumber(collection[i]) == NumberOf(child, x))
  {
    hide Num, Signed, ConstantVal, ConstantNumber, IsWord;
    forall i | 0 <= i < |collection|
      ensures SameKind(WordVal(x), ConstantVal(collection[i]))
      ensures ConstantVal(collection[i]) == WordVal(x) <==> ConstantNumber(collection[i]) == NumberOf(child, x)
    {
      ConstantIs(collection[i]);
      SameWord(Sign(child), Sign(child), ConstantVal(collection[i]).w, x);
    }
  }

  lemma SliceNumber(x: Word, r: nat, l: nat)
    requires l <= r < |x|
    ensures Num(Extract(r, l, x)) == Num(x) / Pow2(l) % Pow2(r - l + 1)
  {
    hide Pow2;
    var high := x[l..];
    NumSplit(x, l);
    NumBound(x[..l]);
    DivModUnique(Num(x), Pow2(l), Num(high), Num(x[..l]));
    var n := r - l + 1;
    NumSplit(high, n);
    NumBound(high[..n]);
    DivModUnique(Num(high), Pow2(n), Num(high[n..]), Num(high[..n]));
    assert high[..n] == Extract(r, l, x);
  }

  // ----- Truth values -----

  ghost predicate AreTruths(l: Node, r: Node, m: Model, a: bool, b: bool) {
    Meaning(l, m) == BoolVal(a) && Meaning(r, m) == BoolVal(b)
  }

  lemma TruthsMean(l: Node, r: Node, m: Model, a: bool, b: bool)
    requires AreTruths(l, r, m, a, b)
    ensures Meaning(Binary(LogicalAnd, l, r), m) == BoolVal(true) <==> a && b
    ensures Meaning(Binary(LogicalOr, l, r), m) == BoolVal(true) <==> a || b
    ensures Meaning(Binary(Equal, l, r), m) == BoolVal(true) <==> (a <==> b)
    ensures Meaning(Binary(NotEqual, l, r), m) == BoolVal(true) <==> (a <==> !b)
    ensures Meaning(Unary(Not, l), m) == BoolVal(true) <==> Meaning(l, m) == BoolVal(false)
  {
    BinaryMeaning(LogicalAnd, l, r, m);
    BinaryMeaning(LogicalOr, l, r, m);
    BinaryMeaning(Equal, l, r, m);
    BinaryMeaning(NotEqual, l, r, m);
  }

  /** A choice between truth values is (c and a) or (not c and b); a choice between words is one of them. */
  lemma ChoiceMeans(c: Node, a: Node, b: Node, m: Model, condition: bool)
    requires Meaning(c, m) == BoolVal(condition)
    ensures var choice := Meaning(IfThenElse(c, a, b), m);
      && (Meaning(a, m).BoolVal? && Meaning(b, m).BoolVal? ==>
            choice.BoolVal? && (choice.b <==> (condition && Meaning(a, m).b) || (!condition && Meaning(b, m).b)))
      && (Meaning(a, m).WordVal? && Meaning(b, m).WordVal? && |Meaning(a, m).w| == |Meaning(b, m).w| > 0 ==>
            (condition ==> choice == Meaning(a, m)) && (!condition ==> choice == Meaning(b, m)))
  {
  }

  /** The constant of one signed bit is the truth value that it stores; every stored value but 0 is true. */
  lemma TruthConstantMeans(v: nat, m: Model)
    ensures Meaning(ConstantExpr(Constant(v, 1, true)), m) == BoolVal(true) <==> v != 0
    ensures Meaning(ConstantExpr(Constant(v, 1, true)), m) == BoolVal(false) <==> v == 0
    ensures Meaning(ConstantExpr(Constant(1, 1, false)), m) == WordVal([true])
  {
    assert FromInt(1, 1) == [true];
  }
}
