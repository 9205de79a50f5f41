/**
 The expression trees of the intermediate representation and their meaning.
 */
module Ast {
  import opened Bits
  import opened SmtLib
  import opened WordLemmas
  import opened Division
  import opened DivisionTheorems

  datatype Option<T> = None | Some(value: T)

  datatype UnaryOp = Not | Neg | Complement

  datatype BinaryOp =
    | BitAnd | BitOr | BitXor
    | LogicalAnd | LogicalOr
    | Equal | NotEqual
    | Less | LessEqual | Greater | GreaterEqual
    | Plus | Minus | Multiplies | Devide | Modulo
    | ShiftLeft | ShiftRight

  /** The value is a machine word of 64 bits. */
  datatype Constant = Constant(value: nat, bitsize: nat, sign: bool)

  datatype Node =
    | Placeholder(pid: nat)
    | VariableExpr(id: nat, bitsize: nat, sign: bool)
    | ConstantExpr(constant: Constant)
    | VectorExpr(vid: nat, bitsize: nat, sign: bool)
    | Unary(uop: UnaryOp, child: Node)
    | Inside(child: Node, collection: seq<Constant>)
    | Extend(child: Node, value: nat)
    | Binary(op: BinaryOp, lhs: Node, rhs: Node)
    | VectorAccess(lhs: Node, rhs: Node)
    | IfThenElse(a: Node, b: Node, c: Node)
    | ForEach(lhs: Node, rhs: Node)
    | Unique(child: Node)
    | Bitslice(child: Node, r: nat, l: nat)

  const PLACEHOLDER_BITSIZE := 32

  // ----- Values -----

  /** A value is a truth value, a word, or stuck where the back end would stop on an assertion. */
  datatype Val = BoolVal(b: bool) | WordVal(w: Word) | Stuck

  datatype Kind = BoolKind | WordKind(width: nat)

  predicate HasKind(v: Val, k: Kind) {
    match k
    case BoolKind => v.BoolVal?
    case WordKind(n) => v.WordVal? && |v.w| == n > 0
  }

  /** One signed bit is a truth value. */
  function TerminalKind(bitsize: nat, sign: bool): Kind {
    if bitsize == 1 && sign then BoolKind else WordKind(bitsize)
  }

  /** The 64-bit value read as a signed number. */
  function AsInt64(v: nat): int { if v % Pow2(64) >= Pow2(63) then v % Pow2(64) - Pow2(64) else v % Pow2(64) }

  function ConstantVal(c: Constant): Val {
    if c.bitsize == 0 then Stuck
    else if c.bitsize == 1 && c.sign then BoolVal(c.value != 0)
    else WordVal(FromInt(if c.sign then AsInt64(c.value) else c.value, c.bitsize))
  }

  /** The number a word stands for. */
  function IntOf(sign: bool, w: Word): int { if sign then Signed(w) else Num(w) }

  // ----- Signs -----

  predicate IsComparison(op: BinaryOp) {
    op in {Equal, NotEqual, Less, LessEqual, Greater, GreaterEqual}
  }

  /** Comparisons are unsigned, a shift has the sign of its left operand, else one signed operand suffices. */
  predicate ResultSign(op: BinaryOp, sx: bool, sy: bool) {
    if IsComparison(op) then false
    else if op in {ShiftLeft, ShiftRight} then sx
    else sx || sy
  }

  /** The sign that travels with an expression. */
  function Sign(n: Node): bool {
    match n
    case Placeholder(_) => false
    case VariableExpr(_, _, s) => s
    case ConstantExpr(c) => c.sign
    case VectorExpr(_, _, s) => s
    case Unary(_, child) => Sign(child)
    case Inside(_, _) => false
    case Extend(child, _) => Sign(child)
    case Binary(op, l, r) => ResultSign(op, Sign(l), Sign(r))
    case VectorAccess(l, _) => Sign(l)
    case IfThenElse(_, _, _) => false
    case ForEach(_, _) => false
    case Unique(_) => false
    case Bitslice(_, _, _) => false
  }

  // ----- Meaning of the operators -----

  function ExtendWord(sign: bool, n: nat, w: Word): Word {
    if sign then SignExtend(n, w) else ZeroExtend(n, w)
  }

  function ExtendVal(sign: bool, n: nat, v: Val): Val {
    if v.WordVal? && v.w != [] then WordVal(ExtendWord(sign, n, v.w)) else Stuck
  }

  function ApplyUnary(op: UnaryOp, v: Val): Val {
    match (op, v)
    case (Not, BoolVal(b)) => BoolVal(!b)
    case (Neg, WordVal(w)) => if w == [] then Stuck else WordVal(BvNeg(w))
    case (Complement, WordVal(w)) => if w == [] then Stuck else WordVal(BvNot(w))
    case _ => Stuck
  }

  /** Mixed signs need one bit more. */
  function DivideWidth(sx: bool, sy: bool, n: nat): nat { if sx == sy then n else n + 1 }

  /** Operators on words of the same width; sx and sy are the signs of the operands. */
  function ApplyWords(op: BinaryOp, sx: bool, sy: bool, x: Word, y: Word): Val
    requires |x| == |y|
  {
    match op
    case BitAnd => WordVal(BvAnd(x, y))
    case BitOr => WordVal(BvOr(x, y))
    case BitXor => WordVal(BvXor(x, y))
    case LogicalAnd => Stuck
    case LogicalOr => Stuck
    case Equal => BoolVal(x == y)
    case NotEqual => BoolVal(x != y)
    case Less => BoolVal(IntOf(sx, x) < IntOf(sy, y))
    case LessEqual => BoolVal(IntOf(sx, x) <= IntOf(sy, y))
    case Greater => BoolVal(IntOf(sx, x) > IntOf(sy, y))
    case GreaterEqual => BoolVal(IntOf(sx, x) >= IntOf(sy, y))
    case Plus => WordVal(BvAdd(x, y))
    case Minus => WordVal(BvSub(x, y))
    case Multiplies => WordVal(BvMul(x, y))
    case Devide => WordVal(FromInt(SignedQuotient(IntOf(sx, x), IntOf(sy, y)), DivideWidth(sx, sy, |x|)))
    case Modulo => WordVal(if sx then BlastSrem(x, y) else BlastUrem(x, y))
    case ShiftLeft => WordVal(BvShl(x, y))
    case ShiftRight => WordVal(BvLshr(x, y))
  }

  function ApplyBools(op: BinaryOp, x: bool, y: bool): Val {
    match op
    case LogicalAnd => BoolVal(x && y)
    case LogicalOr => BoolVal(x || y)
    case Equal => BoolVal(x == y)
    case NotEqual => BoolVal(x != y)
    case _ => Stuck
  }

  /** No widening: words of different width are stuck. */
  function ApplyBinary(op: BinaryOp, sx: bool, sy: bool, x: Val, y: Val): Val {
    if x.BoolVal? && y.BoolVal? then ApplyBools(op, x.b, y.b)
    else if x.WordVal? && y.WordVal? && |x.w| == |y.w| > 0 then ApplyWords(op, sx, sy, x.w, y.w)
    else Stuck
  }

  function Widen(sign: bool, w: Word, n: nat): Word {
    if |w| < n then ExtendWord(sign, n - |w|, w) else w
  }

  /** The narrower word is first extended, by its own sign, to the width of the other. */
  function ApplyWidened(op: BinaryOp, sx: bool, sy: bool, x: Val, y: Val): Val {
    if x.WordVal? && y.WordVal? && x.w != [] && y.w != [] then
      ApplyWords(op, sx, sy, Widen(sx, x.w, |y.w|), Widen(sy, y.w, |x.w|))
    else ApplyBinary(op, sx, sy, x, y)
  }

  function ApplyIte(c: Val, a: Val, b: Val): Val {
    if c.BoolVal? && SameKind(a, b) then (if c.b then a else b) else Stuck
  }

  predicate SameKind(a: Val, b: Val) {
    match (a, b)
    case (BoolVal(_), BoolVal(_)) => true
    case (WordVal(x), WordVal(y)) => |x| == |y| > 0
    case _ => false
  }

  function ApplyInside(v: Val, collection: seq<Constant>): Val {
    if v != Stuck && forall i | 0 <= i < |collection| :: SameKind(v, ConstantVal(collection[i])) then
      BoolVal(exists i | 0 <= i < |collection| :: v == ConstantVal(collection[i]))
    else Stuck
  }

  function ApplySlice(v: Val, r: nat, l: nat): Val {
    if v.WordVal? && l <= r < |v.w| then WordVal(Extract(r, l, v.w)) else Stuck
  }

  // ----- Meaning of trees -----

  /** The values of variables, placeholders and vector accesses. */
  type Leaves = Node -> Val

  /**
   The value of a tree. With widen the operands of a binary operator are brought to a
   common width, as the user reads the expression; without it the tree is taken as it is.
   */
  function Eval(widen: bool, n: Node, leaf: Leaves): Val {
    match n
    case Placeholder(_) => leaf(n)
    case VariableExpr(_, _, _) => leaf(n)
    case ConstantExpr(c) => ConstantVal(c)
    case VectorExpr(_, _, _) => Stuck
    case Unary(op, child) => ApplyUnary(op, Eval(widen, child, leaf))
    case Inside(child, collection) => ApplyInside(Eval(widen, child, leaf), collection)
    case Extend(child, k) => ExtendVal(Sign(child), k, Eval(widen, child, leaf))
    case Binary(op, l, r) =>
      var x, y := Eval(widen, l, leaf), Eval(widen, r, leaf);
      if widen then ApplyWidened(op, Sign(l), Sign(r), x, y) else ApplyBinary(op, Sign(l), Sign(r), x, y)
    case VectorAccess(_, _) => leaf(n)
    case IfThenElse(a, b, c) => ApplyIte(Eval(widen, a, leaf), Eval(widen, b, leaf), Eval(widen, c, leaf))
    case ForEach(_, _) => Stuck
    case Unique(_) => Stuck
    case Bitslice(child, r, l) => ApplySlice(Eval(widen, child, leaf), r, l)
  }

  /** An assignment of values to variable ids. */
  type Model = nat -> Val

  function Scalar(m: Model): Leaves {
    (n: Node) => if n.VariableExpr? then m(n.id) else Stuck
  }

  function Denote(n: Node, m: Model): Val { Eval(false, n, Scalar(m)) }

  function Meaning(n: Node, m: Model): Val { Eval(true, n, Scalar(m)) }

  // ----- Kinds -----

  function BinaryKind(op: BinaryOp, sx: bool, sy: bool, x: Kind, y: Kind): Option<Kind> {
    match (x, y)
    case (BoolKind, BoolKind) => if op in {LogicalAnd, LogicalOr, Equal, NotEqual} then Some(BoolKind) else None
    case (WordKind(m), WordKind(n)) =>
      if m != n || op in {LogicalAnd, LogicalOr} then None
      else if IsComparison(op) then Some(BoolKind)
      else if op == Devide then Some(WordKind(DivideWidth(sx, sy, m)))
      else Some(WordKind(m))
    case _ => None
  }

  function UnaryKind(op: UnaryOp, k: Kind): Option<Kind> {
    if op == Not then (if k.BoolKind? then Some(k) else None) else if k.WordKind? then Some(k) else None
  }

  predicate InsideOk(k: Kind, collection: seq<Constant>) {
    forall i | 0 <= i < |collection| ::
      collection[i].bitsize > 0 && k == TerminalKind(collection[i].bitsize, collection[i].sign)
  }

  function Max(x: int, y: int): int { if x < y then y else x }

  /**
   The width that the width-fixing pass records for an expression. It is not always the
   true one: prior extensions, choices and divisions of mixed sign are misjudged.
   */
  function Recorded(n: Node): int {
    match n
    case Placeholder(_) => PLACEHOLDER_BITSIZE
    case VariableExpr(_, bs, _) => bs
    case ConstantExpr(c) => c.bitsize
    case VectorExpr(_, bs, _) => bs
    case Unary(_, child) => Recorded(child)
    case Inside(_, _) => 1
    case Extend(child, _) => Recorded(child)
    case Binary(op, l, r) =>
      if IsComparison(op) || op in {LogicalAnd, LogicalOr} then 1 else Max(Recorded(l), Recorded(r))
    case VectorAccess(l, _) => Recorded(l)
    case IfThenElse(a, _, _) => Recorded(a)
    case ForEach(_, _) => 1
    case Unique(child) => Recorded(child)
    case Bitslice(_, r, l) => r - l + 1
  }

  /** Operands of a widened operator: the errors in their recorded widths must be the same. */
  function WidenedKind(op: BinaryOp, l: Node, r: Node, x: Kind, y: Kind): Option<Kind> {
    if x.WordKind? && y.WordKind? then
      if x.width - Recorded(l) == y.width - Recorded(r) then
        var k := WordKind(Max(x.width, y.width));
        BinaryKind(op, Sign(l), Sign(r), k, k)
      else None
    else BinaryKind(op, Sign(l), Sign(r), x, y)
  }

  /**
   The kind that the back end finds for a tree, if none of its assertions fails: for
   the tree as it is, or for the tree whose widths are fixed first.
   */
  function KindOf(widen: bool, n: Node): (k: Option<Kind>)
    ensures k.Some? && k.value.WordKind? ==> k.value.width > 0
  {
    match n
    case Placeholder(_) => Some(WordKind(PLACEHOLDER_BITSIZE))
    case VariableExpr(_, bs, s) => if bs > 0 then Some(TerminalKind(bs, s)) else None
    case ConstantExpr(c) => if c.bitsize > 0 then Some(TerminalKind(c.bitsize, c.sign)) else None
    case VectorExpr(_, _, _) => None
    case Unary(op, child) =>
      var k := KindOf(widen, child);
      if k.Some? then UnaryKind(op, k.value) else None
    case Inside(child, collection) =>
      var k := KindOf(widen, child);
      if k.Some? && InsideOk(k.value, collection) then Some(BoolKind) else None
    case Extend(child, e) =>
      var k := KindOf(widen, child);
      if k.Some? && k.value.WordKind? then Some(WordKind(k.value.width + e)) else None
    case Binary(op, l, r) =>
      var x, y := KindOf(widen, l), KindOf(widen, r);
      if x.None? || y.None? then None
      else if widen then WidenedKind(op, l, r, x.value, y.value)
      else BinaryKind(op, Sign(l), Sign(r), x.value, y.value)
    case VectorAccess(l, _) => if l.VectorExpr? && l.bitsize > 0 then Some(TerminalKind(l.bitsize, l.sign)) else None
    case IfThenElse(a, b, c) =>
      if KindOf(widen, a) == Some(BoolKind) && KindOf(widen, b) == KindOf(widen, c) then KindOf(widen, b) else None
    case ForEach(_, _) => None
    case Unique(_) => None
    case Bitslice(child, r, l) =>
      var k := KindOf(widen, child);
      if k.Some? && k.value.WordKind? && l <= r < k.value.width then Some(WordKind(r - l + 1)) else None
  }

  /** Every leaf of n has a value of the kind that it declares. */
  predicate LeavesFit(n: Node, leaf: Leaves) {
    match n
    case Placeholder(_) => HasKind(leaf(n), WordKind(PLACEHOLDER_BITSIZE))
    case VariableExpr(_, bs, s) => HasKind(leaf(n), TerminalKind(bs, s))
    case ConstantExpr(_) => true
    case VectorExpr(_, _, _) => true
    case Unary(_, child) => LeavesFit(child, leaf)
    case Inside(child, _) => LeavesFit(child, leaf)
    case Extend(child, _) => LeavesFit(child, leaf)
    case Binary(_, l, r) => LeavesFit(l, leaf) && LeavesFit(r, leaf)
    case VectorAccess(l, _) =>
      if l.VectorExpr? then HasKind(leaf(n), TerminalKind(l.bitsize, l.sign)) else leaf(n) == Stuck
    case IfThenElse(a, b, c) => LeavesFit(a, leaf) && LeavesFit(b, leaf) && LeavesFit(c, leaf)
    case ForEach(l, r) => LeavesFit(l, leaf) && LeavesFit(r, leaf)
    case Unique(child) => LeavesFit(child, leaf)
    case Bitslice(child, _, _) => LeavesFit(child, leaf)
  }

  lemma InsideFits(v: Val, k: Kind, collection: seq<Constant>)
    requires HasKind(v, k)
    ensures if InsideOk(k, collection) then ApplyInside(v, collection).BoolVal? else ApplyInside(v, collection) == Stuck
  {
  }

  lemma BinaryFits(op: BinaryOp, sx: bool, sy: bool, x: Val, y: Val, kx: Kind, ky: Kind)
    requires HasKind(x, kx) && HasKind(y, ky)
    ensures Fits(ApplyBinary(op, sx, sy, x, y), BinaryKind(op, sx, sy, kx, ky))
  {
    hide Num, Signed, SignedQuotient, Quotient;
  }

  /** A value of the given kind, or stuck when there is none. */
  predicate Fits(v: Val, k: Option<Kind>) {
    if k.Some? then HasKind(v, k.value) else v == Stuck
  }

  /** The back end gets stuck exactly on the trees without a kind; otherwise the value has that kind. */
  lemma {:induction false} KindIsKept(n: Node, leaf: Leaves)
    requires LeavesFit(n, leaf)
    ensures Fits(Eval(false, n, leaf), KindOf(false, n))
  {
    match n
    case Unary(_, child) => KindIsKept(child, leaf);
    case Inside(child, collection) =>
      KindIsKept(child, leaf);
      if KindOf(false, child).Some? {
        InsideFits(Eval(false, child, leaf), KindOf(false, child).value, collection);
      }
    case Extend(child, _) => KindIsKept(child, leaf);
    case Binary(op, l, r) =>
      KindIsKept(l, leaf);
      KindIsKept(r, leaf);
      if KindOf(false, l).Some? && KindOf(false, r).Some? {
        BinaryFits(op, Sign(l), Sign(r), Eval(false, l, leaf), Eval(false, r, leaf), KindOf(false, l).value,
          KindOf(false, r).value);
      }
    case IfThenElse(a, b, c) =>
      KindIsKept(a, leaf);
      KindIsKept(b, leaf);
      KindIsKept(c, leaf);
    case Bitslice(child, _, _) => KindIsKept(child, leaf);
    case _ =>
  }

  // ----- Right shifts of signed expressions -----

  /**
   A right shift is logical whatever the sign. It rounds a signed number down, as the
   arithmetic shift does, exactly when the number is not negative or is not shifted.
   */
  lemma SignedRightShift(l: Node, r: Node, m: Model, x: Word, y: Word)
    requires Sign(l) && Denote(l, m) == WordVal(x) && Denote(r, m) == WordVal(y) && |x| == |y| > 0
    ensures Denote(Binary(ShiftRight, l, r), m) == WordVal(BvLshr(x, y))
    ensures Denote(Binary(ShiftRight, l, r), m) == WordVal(BvAshr(x, y)) <==> IntOf(true, x) >= 0 || Num(y) == 0
  {
    hide Num, FromInt;
    RightShiftsAgree(x, y);
    MsbHalf(x);
    NumBound(x);
  }

  /** -2 shifted by one place to the right is 1 in two bits, where the arithmetic shift gives -1. */
  lemma NegativeShiftDiffers()
    ensures var x, y := [false, true], [true, false];
      Signed(x) == -2 && Num(y) == 1 && Signed(BvLshr(x, y)) == 1 && Signed(BvAshr(x, y)) == -1
  {
    var x, y := [false, true], [true, false];
    assert Signed(x) == -2 && Num(y) == 1;
    BvShiftIs(Right, x, y);
    assert BvLshr(x, y) == [true, false];
    AshrRoundsDown(x, y);
  }

  // ----- Divisions of expressions -----

  /** Both operands are words of one width. */
  ghost predicate WordOperands(l: Node, r: Node, m: Model, x: Word, y: Word) {
    Denote(l, m) == WordVal(x) && Denote(r, m) == WordVal(y) && |x| == |y| > 0
  }

  lemma OperatorOnWords(op: BinaryOp, l: Node, r: Node, m: Model, x: Word, y: Word)
    requires WordOperands(l, r, m, x, y)
    ensures Denote(Binary(op, l, r), m) == ApplyWords(op, Sign(l), Sign(r), x, y)
  {
    hide ApplyWords;
  }

  /** A quotient of one sign is that of SMT-LIB exactly when the divisor is not zero (or the width is one). */
  lemma QuotientExactly(l: Node, r: Node, m: Model, x: Word, y: Word)
    requires WordOperands(l, r, m, x, y) && Sign(l) == Sign(r)
    ensures Denote(Binary(Devide, l, r), m) == WordVal(if Sign(l) then BvSdiv(x, y) else BvUdiv(x, y))
      <==> Num(y) != 0 || |x| == 1
  {
    hide Num, FromInt, Signed, BvSdiv, BvUdiv, Quotient, Denote, SignedQuotient;
    OperatorOnWords(Devide, l, r, m, x, y);
    if Sign(l) {
      SdivAgrees(x, y);
    } else {
      UnsignedQuotient(Num(x), Num(y));
      UdivAgrees(x, y);
    }
  }

  lemma UnsignedQuotient(a: nat, b: nat)
    ensures SignedQuotient(a, b) == Quotient(a, b)
  {
  }

  /**
   A remainder is that of SMT-LIB exactly when the dividend is unsigned, the divisor read as
   signed is not negative, or nothing remains.
   */
  lemma RemainderExactly(l: Node, r: Node, m: Model, x: Word, y: Word)
    requires WordOperands(l, r, m, x, y)
    ensures Denote(Binary(Modulo, l, r), m) == WordVal(if Sign(l) then BvSrem(x, y) else BvUrem(x, y))
      <==> !Sign(l) || !Msb(y) || Num(BvSrem(x, y)) == 0
  {
    hide Num, FromInt, Signed, BvSrem, BvUrem, Remainder, Denote, SignedRemainder;
    OperatorOnWords(Modulo, l, r, m, x, y);
    if Sign(l) {
      SremAgrees(x, y);
    } else {
      UremAgrees(x, y);
    }
  }

  // ----- Support -----

  /** The ids of the variables and vectors that occur in a tree. */
  function Support(n: Node): set<nat> {
    match n
    case Placeholder(_) => {}
    case VariableExpr(id, _, _) => {id}
    case ConstantExpr(_) => {}
    case VectorExpr(id, _, _) => {id}
    case Unary(_, child) => Support(child)
    case Inside(child, _) => Support(child)
    case Extend(child, _) => Support(child)
    case Binary(_, l, r) => Support(l) + Support(r)
    case VectorAccess(l, r) => Support(l) + Support(r)
    case IfThenElse(a, b, c) => Support(a) + Support(b) + Support(c)
    case ForEach(l, r) => Support(l) + Support(r)
    case Unique(child) => Support(child)
    case Bitslice(child, _, _) => Support(child)
  }

  /** The trees directly below a tree. */
  function Children(n: Node): seq<Node> {
    match n
    case Unary(_, child) => [child]
    case Inside(child, _) => [child]
    case Extend(child, _) => [child]
    case Binary(_, l, r) => [l, r]
    case VectorAccess(l, r) => [l, r]
    case IfThenElse(a, b, c) => [a, b, c]
    case ForEach(l, r) => [l, r]
    case Unique(child) => [child]
    case Bitslice(child, _, _) => [child]
    case _ => []
  }

  /** t is n or stands somewhere below it. */
  ghost predicate Occurs(t: Node, n: Node) {
    t == n || exists i | 0 <= i < |Children(n)| :: Occurs(t, Children(n)[i])
  }

  predicate IsOf(t: Node, id: nat) { (t.VariableExpr? && t.id == id) || (t.VectorExpr? && t.vid == id) }

  /** The support holds exactly the ids of the variables and vectors that stand somewhere in the tree. */
  lemma {:induction false} SupportOccurs(n: Node, id: nat)
    ensures id in Support(n) <==> exists t :: Occurs(t, n) && IsOf(t, id)
  {
    forall i | 0 <= i < |Children(n)|
      ensures id in Support(Children(n)[i]) <==> exists t :: Occurs(t, Children(n)[i]) && IsOf(t, id)
    {
      SupportOccurs(Children(n)[i], id);
    }
    SupportOfChildren(n, id);
    if IsOf(n, id) {
      assert Occurs(n, n);
    }
    if i :| 0 <= i < |Children(n)| && id in Support(Children(n)[i]) {
      var t :| Occurs(t, Children(n)[i]) && IsOf(t, id);
      assert Occurs(t, n);
    }
  }

  lemma SupportOfChildren(n: Node, id: nat)
    ensures id in Support(n) <==> IsOf(n, id) || exists i :: 0 <= i < |Children(n)| && id in Support(Children(n)[i])
  {
    var cs := Children(n);
    match n
    case Binary(_, l, r) => assert cs[0] == l && cs[1] == r;
    case VectorAccess(l, r) => assert cs[0] == l && cs[1] == r;
    case ForEach(l, r) => assert cs[0] == l && cs[1] == r;
    case IfThenElse(a, b, c) => assert cs[0] == a && cs[1] == b && cs[2] == c;
    case Unary(_, child) => assert cs[0] == child;
    case Inside(child, _) => assert cs[0] == child;
    case Extend(child, _) => assert cs[0] == child;
    case Unique(child) => assert cs[0] == child;
    case Bitslice(child, _, _) => assert cs[0] == child;
    case _ =>
  }

  /** A value depends on nothing but the support of its tree. */
  lemma {:induction false} SupportDecides(widen: bool, n: Node, m: Model, m': Model)
    requires forall id | id in Support(n) :: m(id) == m'(id)
    ensures Eval(widen, n, Scalar(m)) == Eval(widen, n, Scalar(m'))
  {
    match n
    case Unary(_, child) => SupportDecides(widen, child, m, m');
    case Inside(child, _) => SupportDecides(widen, child, m, m');
    case Extend(child, _) => SupportDecides(widen, child, m, m');
    case Binary(_, l, r) =>
      SupportDecides(widen, l, m, m');
      SupportDecides(widen, r, m, m');
    case IfThenElse(a, b, c) =>
      SupportDecides(widen, a, m, m');
      SupportDecides(widen, b, m, m');
      SupportDecides(widen, c, m, m');
    case Bitslice(child, _, _) => SupportDecides(widen, child, m, m');
    case _ =>
  }
}
