/**
 Subscripts are computed twice: by the visitor on ints, where every variable counts as zero,
 and by the user on bit-vectors. When the two select the same element.
 */
module Subscripts {
  import opened Bits
  import opened SmtLib
  import opened Division
  import opened Ast
  import opened FixWidth
  import opened Numbers
  import opened Literals
  import opened Meanings
  import E = ForEachExpansion

  /** The number that a value stands for, if it is a word. */
  function Number(sign: bool, v: Val): Option<int> { if v.WordVal? then Some(IntOf(sign, v.w)) else None }

  /** A word of n bits that stands for s. */
  ghost predicate Represents(sign: bool, n: nat, v: Val, s: int) {
    v.WordVal? && |v.w| == n > 0 && IntOf(sign, v.w) == s
  }

  // ----- Subscripts as numbers -----

  /** Numbers from the index, constants, variables and accesses. */
  predicate IsArithmetic(n: Node) {
    match n
    case Placeholder(_) => true
    case VariableExpr(_, bs, s) => IsWord(bs, s)
    case VectorAccess(l, _) => l.VectorExpr? && IsWord(l.bitsize, l.sign)
    case ConstantExpr(c) => IsWord(c.bitsize, c.sign)
    case Unary(op, child) => op != Not && IsArithmetic(child)
    case Extend(child, _) => IsArithmetic(child)
    case Binary(op, l, r) => IsNumeric(op) && IsArithmetic(l) && IsArithmetic(r)
    case _ => false
  }

  /** Numbers from the index and constants alone. */
  predicate IsClosed(n: Node): (closed: bool)
    ensures closed ==> IsArithmetic(n)
  {
    match n
    case Placeholder(_) => true
    case ConstantExpr(c) => IsWord(c.bitsize, c.sign)
    case Unary(op, child) => op != Not && IsClosed(child)
    case Extend(child, _) => IsClosed(child)
    case Binary(op, l, r) => IsNumeric(op) && IsClosed(l) && IsClosed(r)
    case _ => false
  }

  /** The width of the word; the wider operand decides. */
  function Width(n: Node): nat
    requires IsArithmetic(n)
  {
    match n
    case Placeholder(_) => PLACEHOLDER_BITSIZE
    case VariableExpr(_, bs, _) => bs
    case VectorAccess(l, _) => l.bitsize
    case ConstantExpr(c) => c.bitsize
    case Unary(_, child) => Width(child)
    case Extend(child, k) => Width(child) + k
    case Binary(op, l, r) => ResultWidth(op, Sign(l), Sign(r), Max(Width(l), Width(r)))
  }

  /** The number that the user reads at index idx, with variables and accesses read as zero. */
  function ReadNumber(n: Node, idx: nat): int
    requires IsArithmetic(n)
  {
    match n
    case Placeholder(_) => Wrap(false, PLACEHOLDER_BITSIZE, idx)
    case VariableExpr(_, _, _) => 0
    case VectorAccess(_, _) => 0
    case ConstantExpr(c) => ConstantNumber(c)
    case Unary(op, child) => Wrap(Sign(child), Width(child), UnaryInt(op, ReadNumber(child, idx)))
    case Extend(child, _) => ReadNumber(child, idx)
    case Binary(op, l, r) =>
      WordNumber(op, Sign(l), Sign(r), Max(Width(l), Width(r)), ReadNumber(l, idx), ReadNumber(r, idx))
  }

  /** The placeholder is the index; variables and accesses are zero. */
  function IndexWord(n: Node, idx: nat): Val {
    match n
    case Placeholder(_) => WordVal(FromInt(idx, PLACEHOLDER_BITSIZE))
    case VariableExpr(_, bs, _) => WordVal(FromInt(0, bs))
    case VectorAccess(l, _) => if l.VectorExpr? then WordVal(FromInt(0, l.bitsize)) else Stuck
    case _ => Stuck
  }

  function IndexLeaf(idx: nat): Leaves { (n: Node) => IndexWord(n, idx) }

  lemma LeafNumber(n: Node, idx: nat)
    requires IsArithmetic(n) && (n.Placeholder? || n.VariableExpr? || n.VectorAccess? || n.ConstantExpr?)
    ensures Represents(Sign(n), Width(n), Eval(true, n, IndexLeaf(idx)), ReadNumber(n, idx))
  {
    hide FromInt, Pow2, Num, ConstantVal, ConstantNumber;
    match n
    case ConstantExpr(c) => ConstantIs(c);
    case VariableExpr(_, bs, s) => ZeroNumber(s, bs);
    case VectorAccess(l, _) => ZeroNumber(l.sign, l.bitsize);
    case _ =>
  }

  lemma ZeroNumber(sign: bool, n: nat)
    requires n > 0
    ensures IntOf(sign, FromInt(0, n)) == 0
  {
    hide FromInt, Num;
    WrapExactly(sign, n, 0);
  }

  lemma ExtendNumber(sign: bool, n: nat, v: Val, k: nat, s: int)
    requires Represents(sign, n, v, s)
    ensures Represents(sign, n + k, ExtendVal(sign, k, v), s)
  {
    if sign {
      SignExtendSigned(k, v.w);
    } else {
      ZeroExtendNum(k, v.w);
    }
  }

  lemma UnaryNumber(op: UnaryOp, sign: bool, n: nat, v: Val, a: int)
    requires op != Not && Represents(sign, n, v, a)
    ensures Represents(sign, n, ApplyUnary(op, v), Wrap(sign, n, UnaryInt(op, a)))
  {
    hide IntOf, ApplyUnary, FitsIn;
    UnaryExactly(op, sign, v.w, a);
  }

  lemma BinaryNumber(op: BinaryOp, sx: bool, sy: bool, m: nat, n: nat, x: Val, y: Val, a: int, b: int)
    requires IsNumeric(op) && Represents(sx, m, x, a) && Represents(sy, n, y, b)
    ensures Represents(ResultSign(op, sx, sy), ResultWidth(op, sx, sy, Max(m, n)), ApplyWidened(op, sx, sy, x, y),
      WordNumber(op, sx, sy, Max(m, n), a, b))
  {
    hide IntOf, ApplyWords, Widen, ResultSign, ResultWidth, WordNumber;
    WidenKeeps(sx, x.w, n);
    WidenKeeps(sy, y.w, m);
    OperatorNumber(op, sx, sy, Max(m, n), Widen(sx, x.w, n), Widen(sy, y.w, m), a, b);
  }

  /** The bit-vector of a subscript stands for this number, whatever the operations. */
  lemma {:induction false} ReadsNumber(n: Node, idx: nat)
    requires IsArithmetic(n)
    ensures Represents(Sign(n), Width(n), Eval(true, n, IndexLeaf(idx)), ReadNumber(n, idx))
  {
    hide Represents, ApplyUnary, ExtendVal, ApplyWidened, FromInt, ConstantVal, Pow2, Wrap, WordNumber, ConstantNumber;
    match n
    case Unary(op, child) =>
      ReadsNumber(child, idx);
      UnaryNumber(op, Sign(child), Width(child), Eval(true, child, IndexLeaf(idx)), ReadNumber(child, idx));
    case Extend(child, k) =>
      ReadsNumber(child, idx);
      ExtendNumber(Sign(child), Width(child), Eval(true, child, IndexLeaf(idx)), k, ReadNumber(child, idx));
    case Binary(op, l, r) =>
      ReadsNumber(l, idx);
      ReadsNumber(r, idx);
      EvalBinary(true, op, l, r, IndexLeaf(idx));
      BinaryNumber(op, Sign(l), Sign(r), Width(l), Width(r), Eval(true, l, IndexLeaf(idx)),
        Eval(true, r, IndexLeaf(idx)),
        ReadNumber(l, idx), ReadNumber(r, idx));
    case _ => LeafNumber(n, idx);
  }

  lemma ReadFits(n: Node, idx: nat)
    requires IsArithmetic(n)
    ensures Width(n) > 0 && FitsIn(Sign(n), Width(n), ReadNumber(n, idx))
  {
    hide FitsIn, ReadNumber, Width, Sign, Eval;
    ReadsNumber(n, idx);
    NumberFits(Sign(n), Eval(true, n, IndexLeaf(idx)).w);
  }

  // ----- Subscripts as ints -----

  /** The int of the subscript; for a subscript that is defined. */
  function Sub(n: Node, idx: nat): int { var s := E.Subscript(n, idx); if s.Some? then s.value else 0 }

  lemma LeafInt(n: Node, idx: nat)
    requires n.Placeholder? || n.ConstantExpr? || n.VariableExpr? || n.VectorAccess?
    ensures IsInt(Sub(n, idx))
    ensures n.Placeholder? ==> Sub(n, idx) == E.AsInt(idx)
    ensures n.ConstantExpr? ==> Sub(n, idx) == E.AsInt(n.constant.value)
    ensures n.VariableExpr? || n.VectorAccess? ==> Sub(n, idx) == 0
  {
    hide FromInt, Signed;
    if n.Placeholder? {
      WordIsInt(FromInt(idx, 32));
    } else if n.ConstantExpr? {
      WordIsInt(FromInt(n.constant.value, 32));
    }
  }

  lemma {:induction false} SubscriptIsInt(n: Node, idx: nat)
    requires IsArithmetic(n) && E.Subscript(n, idx).Some?
    ensures IsInt(Sub(n, idx))
    ensures n.Unary? ==> Sub(n, idx) == UnaryInt(n.uop, Sub(n.child, idx))
  {
    hide E.Subscript, E.AsInt, E.UnarySub, E.BinarySub, IsInt;
    E.SubscriptOfParts(n, idx);
    match n
    case Unary(op, child) =>
      SubscriptIsInt(child, idx);
      UnaryIsInt(op, Sub(child, idx));
    case Extend(child, _) => SubscriptIsInt(child, idx);
    case Binary(op, l, r) =>
      SubscriptIsInt(l, idx);
      SubscriptIsInt(r, idx);
      BinaryIsInt(op, Sub(l, idx), Sub(r, idx));
    case _ => LeafInt(n, idx);
  }

  // ----- When both are the same number -----

  /** No operation of the subscript at index idx departs from the word operation. */
  predicate AllRight(n: Node, idx: nat)
    requires IsArithmetic(n)
  {
    match n
    case Placeholder(_) => idx < Pow2(31)
    case ConstantExpr(c) => ConstantNumber(c) == E.AsInt(c.value)
    case Unary(_, child) => AllRight(child, idx) && Width(child) > 0 && FitsIn(Sign(child), Width(child), Sub(n, idx))
    case Extend(child, _) => AllRight(child, idx)
    case Binary(op, l, r) => AllRight(l, idx) && AllRight(r, idx) && OperationIsRight(op, l, r, idx)
    case _ => true
  }

  /** The operation is right for the ints of its operands. */
  predicate OperationIsRight(op: BinaryOp, l: Node, r: Node, idx: nat)
    requires IsArithmetic(l) && IsArithmetic(r)
  {
    var w := Max(Width(l), Width(r));
    w > 0 && IsRight(op, Sign(l), Sign(r), w, Sub(l, idx), Sub(r, idx), Sub(Binary(op, l, r), idx))
  }

  lemma IndexIsRight(idx: nat)
    requires idx < Pow2(31)
    ensures Wrap(false, 32, idx) == idx == E.AsInt(idx)
  {
    hide FromInt, Pow2, Num;
    Pow2Monotone(31, 32);
    WrapExactly(false, 32, idx);
    AsIntIs(idx, idx);
  }

  /** The exact condition for one operation of a tree whose operands stand for their subscripts. */
  lemma OperationExactly(op: BinaryOp, l: Node, r: Node, idx: nat)
    requires IsArithmetic(Binary(op, l, r)) && E.Subscript(Binary(op, l, r), idx).Some?
    requires ReadNumber(l, idx) == Sub(l, idx) && ReadNumber(r, idx) == Sub(r, idx)
    ensures ReadNumber(Binary(op, l, r), idx) == Sub(Binary(op, l, r), idx) <==> OperationIsRight(op, l, r, idx)
  {
    hide E.Subscript, IsRight, E.BinarySub, FitsIn, IsInt, WordNumber;
    var n, w := Binary(op, l, r), Max(Width(l), Width(r));
    E.SubscriptOfParts(n, idx);
    SubscriptIsInt(l, idx);
    SubscriptIsInt(r, idx);
    ReadFits(l, idx);
    ReadFits(r, idx);
    FitsWider(Sign(l), Width(l), w, Sub(l, idx));
    FitsWider(Sign(r), Width(r), w, Sub(r, idx));
    RightExactly(op, Sign(l), Sign(r), w, Sub(l, idx), Sub(r, idx), Sub(n, idx));
  }

  lemma FitsWider(sign: bool, m: nat, n: nat, v: int)
    requires n >= m > 0 && FitsIn(sign, m, v)
    ensures FitsIn(sign, n, v)
  {
    Pow2Monotone(m - 1, n - 1);
    Pow2Monotone(m, n);
  }

  /**
   If no operation departs, the number of the whole subscript, with variables and accesses
   read as zero, is the int that the visitor computes.
   */
  lemma {:induction false} SubscriptIsNumber(n: Node, idx: nat)
    requires IsArithmetic(n) && E.Subscript(n, idx).Some? && AllRight(n, idx)
    ensures ReadNumber(n, idx) == Sub(n, idx)
  {
    hide E.Subscript, E.AsInt, E.UnarySub, E.BinarySub, IsInt, OperationIsRight, FitsIn, WordNumber, Wrap;
    hide ConstantNumber, Pow2;
    E.SubscriptOfParts(n, idx);
    match n
    case Placeholder(_) =>
      LeafInt(n, idx);
      IndexIsRight(idx);
    case Unary(op, child) =>
      SubscriptIsNumber(child, idx);
      SubscriptIsInt(n, idx);
      WrapExactly(Sign(child), Width(child), Sub(n, idx));
    case Extend(child, k) => SubscriptIsNumber(child, idx);
    case Binary(op, l, r) =>
      SubscriptIsNumber(l, idx);
      SubscriptIsNumber(r, idx);
      OperationExactly(op, l, r, idx);
    case _ => LeafInt(n, idx);
  }

  // ----- Sums: right up to overflow of the words -----

  /**
   Sums, differences, products, bitwise operations, negations and complements of which the
   word is that of the int: an operand that is widened must be right itself.
   */
  predicate IsModular(n: Node, idx: nat)
    requires IsArithmetic(n)
  {
    match n
    case Placeholder(_) => true
    case ConstantExpr(c) => c.bitsize == 32 || AllRight(n, idx)
    case Unary(_, child) => IsModular(child, idx)
    case Binary(op, l, r) =>
      if IsModularOp(op) then
        && (if Width(l) < Width(r) then AllRight(l, idx) else IsModular(l, idx))
        && (if Width(r) < Width(l) then AllRight(r, idx) else IsModular(r, idx))
      else AllRight(n, idx)
    case _ => AllRight(n, idx)
  }

  lemma RightIsWrapped(n: Node, idx: nat)
    requires IsArithmetic(n) && E.Subscript(n, idx).Some? && AllRight(n, idx)
    ensures ReadNumber(n, idx) == Sub(n, idx) == Wrap(Sign(n), Width(n), Sub(n, idx))
  {
    hide *;
    SubscriptIsNumber(n, idx);
    ReadFits(n, idx);
    WrapExactly(Sign(n), Width(n), Sub(n, idx));
  }

  lemma Long64(v: nat) returns (k: int)
    ensures AsInt64(v) == v + k * Pow2(64)
  {
    hide Pow2;
    var q := v / Pow2(64);
    assert v == Pow2(64) * q + v % Pow2(64);
    k := if v % Pow2(64) >= Pow2(63) then -q - 1 else -q;
  }

  lemma WordAgain(v: int, w: nat)
    ensures FromInt(Signed(FromInt(v, w)), w) == FromInt(v, w)
  {
    FromIntSigned(FromInt(v, w));
  }

  lemma LongWord(v: nat, w: nat)
    requires w <= 64
    ensures FromInt(AsInt64(v), w) == FromInt(v, w)
  {
    hide FromInt, Pow2, AsInt64;
    var k := Long64(v);
    FromIntWrap(v, k, 64);
    FromIntPrefix(AsInt64(v), 64, w);
    FromIntPrefix(v, 64, w);
  }

  lemma ConstantWraps(c: Constant)
    requires c.bitsize == 32
    ensures ConstantNumber(c) == Wrap(c.sign, c.bitsize, E.AsInt(c.value))
  {
    hide FromInt, Signed, Num, AsInt64;
    LongWord(c.value, 32);
    WordAgain(c.value, 32);
  }

  lemma IndexWraps(idx: nat)
    ensures Wrap(false, 32, idx) == Wrap(false, 32, E.AsInt(idx))
  {
    hide FromInt, Signed, Num;
    WordAgain(idx, 32);
  }

  lemma UnaryWraps(op: UnaryOp, sign: bool, n: nat, a: int, b: int)
    requires op != Not && n > 0 && FromInt(a, n) == FromInt(b, n)
    ensures Wrap(sign, n, UnaryInt(op, a)) == Wrap(sign, n, UnaryInt(op, b))
  {
    hide FromInt, ApplyUnary;
    UnaryWords(op, n, a);
    UnaryWords(op, n, b);
  }

  lemma BinaryWraps(op: BinaryOp, sx: bool, sy: bool, n: nat, a: int, b: int, a': int, b': int, s: int)
    requires IsModularOp(op) && n > 0 && FromInt(a, n) == FromInt(a', n) && FromInt(b, n) == FromInt(b', n)
    requires IsInt(a) && IsInt(b) && E.BinarySub(op, a, b) == Some(s)
    ensures WordNumber(op, sx, sy, n, a', b') == Wrap(ResultSign(op, sx, sy), n, s)
  {
    hide FromInt, ApplyWords, IntOf, BitwiseInt, SumInt, E.BinarySub, IsInt;
    ModularWords(op, sx, sy, n, a, b);
    ModularWords(op, sx, sy, n, a', b');
    SubUnfolds(op, a, b, s);
    BitwiseNumber(op, ResultSign(op, sx, sy), n, a, b);
  }

  lemma OperandWraps(n: Node, idx: nat, w: nat)
    requires IsArithmetic(n) && E.Subscript(n, idx).Some?
    requires if Width(n) < w then AllRight(n, idx)
             else Width(n) == w && ReadNumber(n, idx) == Wrap(Sign(n), w, Sub(n, idx))
    ensures FromInt(ReadNumber(n, idx), w) == FromInt(Sub(n, idx), w)
  {
    hide *;
    if Width(n) < w {
      SubscriptIsNumber(n, idx);
    } else {
      WordOfWrap(Sign(n), w, Sub(n, idx));
    }
  }

  /**
   As long as no int overflows, the word of a sum is the word of its int, whatever the signs.
   */
  lemma {:induction false} SubscriptIsWord(n: Node, idx: nat)
    requires IsArithmetic(n) && E.Subscript(n, idx).Some? && IsModular(n, idx)
    ensures ReadNumber(n, idx) == Wrap(Sign(n), Width(n), Sub(n, idx))
    decreases n, 1
  {
    hide E.Subscript, E.AsInt, E.UnarySub, E.BinarySub, IsInt, OperationIsRight, FitsIn, WordNumber, Wrap;
    hide ConstantNumber, Pow2;
    hide FromInt;
    hide AllRight, IsModularOp;
    E.SubscriptOfParts(n, idx);
    ReadFits(n, idx);
    if AllRight(n, idx) {
      RightIsWrapped(n, idx);
    } else {
      match n
      case Placeholder(_) =>
        LeafInt(n, idx);
        IndexWraps(idx);
      case ConstantExpr(c) =>
        LeafInt(n, idx);
        ConstantWraps(c);
      case Unary(op, child) =>
        SubscriptIsWord(child, idx);
        SubscriptIsInt(n, idx);
        WordOfWrap(Sign(child), Width(child), Sub(child, idx));
        UnaryWraps(op, Sign(child), Width(child), ReadNumber(child, idx), Sub(child, idx));
      case Binary(op, l, r) => ModularSum(op, l, r, idx);
      case _ =>
    }
  }

  lemma {:induction false} ModularSum(op: BinaryOp, l: Node, r: Node, idx: nat)
    requires var n := Binary(op, l, r); IsArithmetic(n) && E.Subscript(n, idx).Some? && IsModular(n, idx)
    requires IsModularOp(op)
    ensures var n := Binary(op, l, r); ReadNumber(n, idx) == Wrap(Sign(n), Width(n), Sub(n, idx))
    decreases Binary(op, l, r), 0
  {
    hide E.Subscript, E.AsInt, E.UnarySub, E.BinarySub, IsInt, OperationIsRight, FitsIn, WordNumber, Wrap, FromInt;
    hide AllRight;
    var n, w := Binary(op, l, r), Max(Width(l), Width(r));
    E.SubscriptOfParts(n, idx);
    ReadFits(l, idx);
    SubscriptIsInt(l, idx);
    SubscriptIsInt(r, idx);
    if Width(l) == w {
      SubscriptIsWord(l, idx);
    }
    if Width(r) == w {
      SubscriptIsWord(r, idx);
    }
    OperandWraps(l, idx, w);
    OperandWraps(r, idx, w);
    BinaryWraps(op, Sign(l), Sign(r), w, Sub(l, idx), Sub(r, idx), ReadNumber(l, idx), ReadNumber(r, idx), Sub(n, idx));
  }

  // ----- Subscripts that select the user's element -----

  /** The placeholder is the index for this reading. */
  ghost predicate IsIndexed(leaf: Leaves, idx: nat) {
    forall p :: leaf(Placeholder(p)) == WordVal(FromInt(idx, PLACEHOLDER_BITSIZE))
  }

  lemma {:induction false} ClosedReads(n: Node, idx: nat, leaf: Leaves)
    requires IsClosed(n) && IsIndexed(leaf, idx)
    ensures Eval(true, n, leaf) == Eval(true, n, IndexLeaf(idx))
  {
    hide FromInt, ApplyUnary, ExtendVal, ApplyWidened, ConstantVal, Pow2;
    match n
    case Unary(_, child) => ClosedReads(child, idx, leaf);
    case Extend(child, _) => ClosedReads(child, idx, leaf);
    case Binary(op, l, r) =>
      ClosedReads(l, idx, leaf);
      ClosedReads(r, idx, leaf);
    case _ =>
  }

  predicate InVector(number: Option<int>, size: nat) { number.Some? && 0 <= number.value < size }

  /** Both readings select the same element of a vector, or none. */
  predicate SameIndex(s: Option<int>, number: Option<int>, size: nat) {
    && (E.IsIndex(s, size) <==> InVector(number, size))
    && (E.IsIndex(s, size) ==> s == number)
  }

  lemma IndexIsSmall(s: Option<int>, size: nat)
    requires size < Pow2(31)
    ensures E.IsIndex(s, size) <==> InVector(s, size)
  {
    hide FromInt, Pow2, Num;
    AsIntIs(size, size);
  }

  /** A size that does not fit into an int reads as negative: every subscript is outside. */
  lemma HugeVectorHasNoIndex(s: Option<int>, size: nat)
    requires Pow2(31) <= size < Pow2(32)
    ensures !E.IsIndex(s, size)
  {
    assert Pow2(32) == Pow2(31) + Pow2(31);
    hide FromInt, Pow2, Num;
    NumOfWord(size, 32);
    MsbHalf(FromInt(size, 32));
  }

  /** The number of a subscript, as the user reads it, for any values of variables and elements. */
  function UserNumber(n: Node, leaf: Leaves): Option<int> { Number(Sign(n), Eval(true, n, leaf)) }

  /**
   Of an access by a subscript of which every operation is right: visitor and user select
   the same element exactly when variables and accesses make no difference to the number,
   or both leave the vector.
   */
  lemma SubscriptExactly(n: Node, idx: nat, size: nat, leaf: Leaves)
    requires IsArithmetic(n) && E.Subscript(n, idx).Some? && AllRight(n, idx) && size < Pow2(31)
    ensures SameIndex(E.Subscript(n, idx), UserNumber(n, leaf), size) <==>
      (UserNumber(n, leaf) == UserNumber(n, IndexLeaf(idx))
        || (!InVector(UserNumber(n, leaf), size) && !InVector(UserNumber(n, IndexLeaf(idx)), size)))
  {
    hide E.Subscript, E.IsIndex, Pow2, Eval, Sign, IsArithmetic, AllRight, ReadNumber, Width;
    IndexIsSmall(E.Subscript(n, idx), size);
    SubscriptIsNumber(n, idx);
    ReadsNumber(n, idx);
  }

  lemma ClosedNumber(n: Node, idx: nat, leaf: Leaves)
    requires IsClosed(n) && IsIndexed(leaf, idx)
    ensures UserNumber(n, leaf) == Some(ReadNumber(n, idx))
  {
    hide Eval, Sign, IsArithmetic, IsClosed, ReadNumber, Width, IsIndexed;
    ClosedReads(n, idx, leaf);
    ReadsNumber(n, idx);
  }

  /**
   Of any subscript over the index and constants: visitor and user select the same element
   exactly when the two numbers are the same, or both leave the vector.
   */
  lemma ClosedSelectsExactly(n: Node, idx: nat, size: nat, leaf: Leaves)
    requires IsClosed(n) && E.Subscript(n, idx).Some? && IsIndexed(leaf, idx) && size < Pow2(31)
    ensures SameIndex(E.Subscript(n, idx), UserNumber(n, leaf), size) <==>
      (Sub(n, idx) == ReadNumber(n, idx) || !(0 <= Sub(n, idx) < size || 0 <= ReadNumber(n, idx) < size))
  {
    hide E.Subscript, E.IsIndex, Pow2, UserNumber, IsArithmetic, IsClosed, ReadNumber, IsIndexed;
    IndexIsSmall(E.Subscript(n, idx), size);
    ClosedNumber(n, idx, leaf);
  }

  /** Of a sum: exactly when the int fits into the width, or both the int and what is left of it leave the vector. */
  lemma SumSelectsExactly(n: Node, idx: nat, size: nat, leaf: Leaves)
    requires IsClosed(n) && E.Subscript(n, idx).Some? && IsModular(n, idx) && IsIndexed(leaf, idx) && size < Pow2(31)
    ensures var w, s := Width(n), Sub(n, idx);
      && w > 0
      && (SameIndex(E.Subscript(n, idx), UserNumber(n, leaf), size) <==>
            (FitsIn(Sign(n), w, s) || !(0 <= s < size || 0 <= Wrap(Sign(n), w, s) < size)))
  {
    hide *;
    ClosedSelectsExactly(n, idx, size, leaf);
    SubscriptIsWord(n, idx);
    ReadFits(n, idx);
    WrapExactly(Sign(n), Width(n), Sub(n, idx));
  }

  /**
   A subscript over the index and constants, defined at idx, of which every operation is
   right, or which is a sum of at least 32 bits: an unsigned sum below zero is far outside
   every vector for both readings.
   */
  predicate Selects(n: Node, idx: nat) {
    IsClosed(n) && E.Subscript(n, idx).Some? && (AllRight(n, idx) || (IsModular(n, idx) && Width(n) >= 32))
  }

  lemma WordSelects(sign: bool, s: int, w: nat, size: nat)
    requires IsInt(s) && w >= 32 && size < Pow2(31)
    ensures FitsIn(sign, w, s) || (s < 0 && Wrap(sign, w, s) >= size)
  {
    assert Pow2(32) == Pow2(31) + Pow2(31);
    Pow2Monotone(32, w);
    Pow2Monotone(31, w - 1);
    hide FromInt, Num, Pow2;
    WrapMoves(w, s);
  }

  /** Such a subscript selects the same element for both, or none, of every vector with less than 2^31 elements. */
  lemma SelectsTheSame(n: Node, idx: nat, size: nat, leaf: Leaves)
    requires Selects(n, idx) && size < Pow2(31) && IsIndexed(leaf, idx)
    ensures SameIndex(E.Subscript(n, idx), UserNumber(n, leaf), size)
  {
    hide E.Subscript, Pow2, E.IsIndex, IsClosed, IsArithmetic, AllRight, IsModular, UserNumber, ReadNumber, Width;
    hide IsInt;
    hide FitsIn, Wrap, IsIndexed, SameIndex;
    SubscriptIsInt(n, idx);
    if AllRight(n, idx) {
      SubscriptIsNumber(n, idx);
      ClosedSelectsExactly(n, idx, size, leaf);
    } else {
      WordSelects(Sign(n), Sub(n, idx), Width(n), size);
      SumSelectsExactly(n, idx, size, leaf);
    }
  }

  /** _i + i or _i - i, for a literal i of an integer type. */
  function Offset(op: BinaryOp, p: nat, i: int, width: nat, sign: bool): Node {
    Binary(op, Placeholder(p), ConstantExpr(Literal(i, width, sign)))
  }

  /**
   The index plus or minus any literal that fits into an int selects exactly when the int of
   the visitor does not overflow, whatever the sign of the result.
   */
  lemma OffsetSelects(op: BinaryOp, p: nat, i: int, width: nat, sign: bool, idx: nat)
    requires op in {Plus, Minus} && 1 < width <= 64 && FitsIn(sign, width, i) && IsInt(i) && idx < Pow2(31)
    ensures Selects(Offset(op, p, i, width, sign), idx) <==> IsInt(SumInt(op, idx, i))
    ensures Selects(Offset(op, p, i, width, sign), idx) ==>
      Sub(Offset(op, p, i, width, sign), idx) == SumInt(op, idx, i)
  {
    hide Pow2, FromInt, ConstantNumber, E.AsInt, Literal, FitsIn;
    var c := Literal(i, width, sign);
    LiteralIsNumber(i, width, sign);
    LiteralSubscript(i, width, sign);
    IndexIsRight(idx);
    OffsetSub(op, p, c, i, idx);
    RightLiteral(c, idx);
    IndexPlus(op, p, ConstantExpr(c), idx);
  }

  lemma RightLiteral(c: Constant, idx: nat)
    requires IsWord(c.bitsize, c.sign) && ConstantNumber(c) == E.AsInt(c.value)
    ensures var n := ConstantExpr(c); IsClosed(n) && AllRight(n, idx) && IsModular(n, idx) && Width(n) == c.bitsize
  {
    hide ConstantNumber, E.AsInt;
  }

  lemma IndexPlus(op: BinaryOp, p: nat, r: Node, idx: nat)
    requires op in {Plus, Minus} && IsClosed(r) && AllRight(r, idx) && IsModular(r, idx) && idx < Pow2(31)
    ensures var n := Binary(op, Placeholder(p), r); IsClosed(n) && IsModular(n, idx) && Width(n) >= 32
  {
    IndexIsModular(p, idx);
    hide *;
    PlusUnfolds(op, Placeholder(p), r, idx);
  }

  lemma IndexIsModular(p: nat, idx: nat)
    ensures var i := Placeholder(p);
      IsClosed(i) && IsModular(i, idx) && Width(i) == 32 && (idx < Pow2(31) ==> AllRight(i, idx))
  {
  }

  lemma PlusUnfolds(op: BinaryOp, l: Node, r: Node, idx: nat)
    requires op in {Plus, Minus} && IsClosed(l) && IsClosed(r)
    ensures var n := Binary(op, l, r);
      && IsClosed(n) && Width(n) == (if Width(l) < Width(r) then Width(r) else Width(l))
      && (IsModular(n, idx) <==> (
            && (if Width(l) < Width(r) then AllRight(l, idx) else IsModular(l, idx))
            && (if Width(r) < Width(l) then AllRight(r, idx) else IsModular(r, idx))))
  {
    hide AllRight;
  }

  lemma OffsetSub(op: BinaryOp, p: nat, c: Constant, i: int, idx: nat)
    requires op in {Plus, Minus} && E.AsInt(c.value) == i && E.AsInt(idx) == idx
    ensures E.Subscript(Binary(op, Placeholder(p), ConstantExpr(c)), idx)
      == if IsInt(SumInt(op, idx, i)) then Some(SumInt(op, idx, i)) else None
  {
    hide Pow2, E.AsInt;
  }

  /** _i - i selects at every index, for every literal i of type int that is not negative. */
  lemma PredecessorSelects(p: nat, i: int, idx: nat)
    requires 0 <= i < Pow2(31) && idx < Pow2(31)
    ensures Selects(Offset(Minus, p, i, 32, true), idx) && Sub(Offset(Minus, p, i, 32, true), idx) == idx - i
  {
    assert FitsIn(true, 32, i);
    hide Pow2, Offset, Selects, FitsIn;
    OffsetSelects(Minus, p, i, 32, true, idx);
  }

  /** An access by a variable goes to the first element; that is the user's exactly when the variable is zero. */
  lemma VariableSubscript(id: nat, bitsize: nat, sign: bool, idx: nat, leaf: Leaves, w: Word)
    requires leaf(VariableExpr(id, bitsize, sign)) == WordVal(w) && w != []
    ensures var x := VariableExpr(id, bitsize, sign);
      && E.Subscript(x, idx) == Some(0)
      && (UserNumber(x, leaf) == Some(0) <==> Num(w) == 0)
  {
    MsbHalf(w);
    NumBound(w);
  }

  // ----- Truth values in subscripts -----

  /** The visitor keeps a truth value as 1 or 0. */
  predicate Truthful(v: Val, s: int) { v.BoolVal? && s == if v.b then 1 else 0 }

  lemma ComparisonSub(op: BinaryOp, l: Node, r: Node, idx: nat)
    requires E.Subscript(l, idx).Some? && E.Subscript(r, idx).Some?
    requires IsComparison(op) || op in {LogicalAnd, LogicalOr}
    ensures var n, a, b := Binary(op, l, r), Sub(l, idx), Sub(r, idx);
      E.Subscript(n, idx).Some? && Sub(n, idx) in {0, 1} && (Sub(n, idx) == 1 <==> match op
        case Less => a < b
        case LessEqual => a <= b
        case Greater => a > b
        case GreaterEqual => a >= b
        case Equal => a == b
        case NotEqual => a != b
        case LogicalAnd => a != 0 && b != 0
        case _ => a != 0 || b != 0)
  {
    hide E.AsInt, E.UnarySub;
  }

  /**
   A comparison of operands that stand for their subscripts is the truth value that the
   visitor computes, except for the equality of a negative number and an unsigned one that
   have the same word.
   */
  lemma ComparisonAgrees(op: BinaryOp, l: Node, r: Node, idx: nat, m: nat, n: nat, leaf: Leaves)
    requires IsComparison(op) && E.Subscript(l, idx).Some? && E.Subscript(r, idx).Some?
    requires Represents(Sign(l), m, Eval(true, l, leaf), Sub(l, idx))
    requires Represents(Sign(r), n, Eval(true, r, leaf), Sub(r, idx))
    ensures Truthful(Eval(true, Binary(op, l, r), leaf), Sub(Binary(op, l, r), idx))
      <==> !(op in {Equal, NotEqual} && AreAliases(l, r, Sub(l, idx), Sub(r, idx), Max(m, n)))
  {
    var x, y := Eval(true, l, leaf).w, Eval(true, r, leaf).w;
    EvalBinary(true, op, l, r, leaf);
    ComparisonSub(op, l, r, idx);
    hide E.Subscript, Sub, Num, Signed, Eval, Pow2, Widen;
    WidenKeeps(Sign(l), x, n);
    WidenKeeps(Sign(r), y, m);
    SameWord(Sign(l), Sign(r), Widen(Sign(l), x, n), Widen(Sign(r), y, m));
  }

  /** Logical operators, and equality of truth values. */
  lemma LogicAgrees(op: BinaryOp, l: Node, r: Node, idx: nat, leaf: Leaves)
    requires op in {LogicalAnd, LogicalOr, Equal, NotEqual} && E.Subscript(l, idx).Some? && E.Subscript(r, idx).Some?
    requires Truthful(Eval(true, l, leaf), Sub(l, idx)) && Truthful(Eval(true, r, leaf), Sub(r, idx))
    ensures Truthful(Eval(true, Binary(op, l, r), leaf), Sub(Binary(op, l, r), idx))
  {
    EvalBinary(true, op, l, r, leaf);
    ComparisonSub(op, l, r, idx);
    hide E.Subscript, Sub, Eval;
  }

  lemma NotAgrees(child: Node, idx: nat, leaf: Leaves)
    requires E.Subscript(child, idx).Some? && Truthful(Eval(true, child, leaf), Sub(child, idx))
    ensures Truthful(Eval(true, Unary(Not, child), leaf), Sub(Unary(Not, child), idx))
  {
    hide E.AsInt, E.BinarySub;
  }

  /** A choice has the subscript of the operand that is chosen. */
  lemma ChoiceAgrees(a: Node, b: Node, c: Node, idx: nat, leaf: Leaves)
    requires E.Subscript(a, idx).Some? && E.Subscript(b, idx).Some? && E.Subscript(c, idx).Some?
    requires Truthful(Eval(true, a, leaf), Sub(a, idx)) && SameKind(Eval(true, b, leaf), Eval(true, c, leaf))
    ensures var n, chosen := IfThenElse(a, b, c), if Sub(a, idx) == 1 then b else c;
      Eval(true, n, leaf) == Eval(true, chosen, leaf) && Sub(n, idx) == Sub(chosen, idx)
  {
    hide E.AsInt, E.BinarySub, E.UnarySub;
  }

  /**
   Two operators leave a subscript that is not that of their value: being inside a set leaves
   the subscript of the operand, and cutting out bits leaves 1 exactly for the subscript 0.
   */
  lemma MisreadSubscripts(child: Node, collection: seq<Constant>, r: nat, l: nat, idx: nat)
    requires E.Subscript(child, idx).Some?
    ensures Sub(Inside(child, collection), idx) == Sub(child, idx)
    ensures Sub(Bitslice(child, r, l), idx) == if Sub(child, idx) == 0 then 1 else 0
  {
    hide E.AsInt, E.BinarySub, E.UnarySub;
  }
}
