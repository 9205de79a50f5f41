/**
 The pass that inserts extensions so that the operands of every binary operator
 get the same width.
 */
module FixWidth {
  import opened Bits
  import opened SmtLib
  import opened Ast

  function ExtendBy(n: Node, from: int, to: int): Node {
    if from < to then Extend(n, to - from) else n
  }

  /** The tree that the pass builds. */
  function Fix(n: Node): Node {
    match n
    case Placeholder(_) => n
    case VariableExpr(_, _, _) => n
    case ConstantExpr(_) => n
    case VectorExpr(_, _, _) => n
    case Unary(op, child) => Unary(op, Fix(child))
    case Inside(child, collection) => Inside(Fix(child), collection)
    case Extend(child, k) => Extend(Fix(child), k)
    case Binary(op, l, r) =>
      Binary(op, ExtendBy(Fix(l), Recorded(l), Recorded(r)), ExtendBy(Fix(r), Recorded(r), Recorded(l)))
    case VectorAccess(l, r) => VectorAccess(Fix(l), Fix(r))
    case IfThenElse(a, b, c) => IfThenElse(Fix(a), Fix(b), Fix(c))
    case ForEach(l, r) => ForEach(Fix(l), Fix(r))
    case Unique(child) => Unique(Fix(child))
    case Bitslice(child, r, l) => Bitslice(Fix(child), r, l)
  }

  // ----- The pass -----

  class FixWidthVisitor {
    var exprStack: seq<(Node, int)>

    constructor ()
      ensures exprStack == []
    {
      exprStack := [];
    }

    method Pop() returns (entry: (Node, int))
      requires exprStack != []
      modifies this
      ensures entry == old(exprStack)[|old(exprStack)| - 1]
      ensures exprStack == old(exprStack)[..|old(exprStack)| - 1]
    {
      entry := exprStack[|exprStack| - 1];
      exprStack := exprStack[..|exprStack| - 1];
    }

    method Push(n: Node, width: int)
      modifies this
      ensures exprStack == old(exprStack) + [(n, width)]
    {
      exprStack := exprStack + [(n, width)];
    }

    /** Visit both operands and take them off the stack; with fixWidth the narrower one is extended. */
    method EvalBinExpr(ghost n: Node, l: Node, r: Node, fixWidth: bool) returns (fst: (Node, int), snd: (Node, int))
      requires l < n && r < n
      modifies this
      ensures exprStack == old(exprStack)
      ensures fixWidth ==> fst == (ExtendBy(Fix(l), Recorded(l), Recorded(r)), Max(Recorded(l), Recorded(r)))
      ensures fixWidth ==> snd == (ExtendBy(Fix(r), Recorded(r), Recorded(l)), Max(Recorded(l), Recorded(r)))
      ensures !fixWidth ==> fst == (Fix(l), Recorded(l)) && snd == (Fix(r), Recorded(r))
      decreases n, 0
    {
      Visit(l);
      Visit(r);
      snd := Pop();
      fst := Pop();
      if !fixWidth {
        return;
      }
      if fst.1 < snd.1 {
        fst := (Extend(fst.0, snd.1 - fst.1), snd.1);
      } else if fst.1 > snd.1 {
        snd := (Extend(snd.0, fst.1 - snd.1), fst.1);
      }
    }

    method Visit(n: Node)
      modifies this
      ensures exprStack == old(exprStack) + [(Fix(n), Recorded(n))]
      decreases n, 1
    {
      match n
      case Placeholder(_) => Push(n, PLACEHOLDER_BITSIZE);
      case VariableExpr(_, bs, _) => Push(n, bs);
      case ConstantExpr(c) => Push(n, c.bitsize);
      case VectorExpr(_, bs, _) => Push(n, bs);
      case Unary(op, child) =>
        Visit(child);
        var e := Pop();
        Push(Unary(op, e.0), e.1);
      case Inside(child, collection) =>
        Visit(child);
        var e := Pop();
        Push(Inside(e.0, collection), 1);
      case Extend(child, k) =>
        Visit(child);
        var e := Pop();
        Push(Extend(e.0, k), e.1);
      case Binary(op, l, r) =>
        var fst, snd := EvalBinExpr(n, l, r, true);
        Push(Binary(op, fst.0, snd.0), if IsComparison(op) || op in {LogicalAnd, LogicalOr} then 1 else fst.1);
      case VectorAccess(l, r) =>
        var fst, snd := EvalBinExpr(n, l, r, false);
        Push(VectorAccess(fst.0, snd.0), fst.1);
      case IfThenElse(a, b, c) =>
        Visit(a);
        Visit(b);
        Visit(c);
        var trd := Pop();
        var snd := Pop();
        var fst := Pop();
        Push(IfThenElse(fst.0, snd.0, trd.0), fst.1);
      case ForEach(l, r) =>
        var fst, snd := EvalBinExpr(n, l, r, false);
        Push(ForEach(fst.0, snd.0), 1);
      case Unique(child) =>
        Visit(child);
        var e := Pop();
        Push(Unique(e.0), e.1);
      case Bitslice(child, r, l) =>
        Visit(child);
        var e := Pop();
        Push(Bitslice(e.0, r, l), r - l + 1);
    }

    method FixTree(n: Node) returns (fixed: Node)
      modifies this
      ensures fixed == Fix(n) && exprStack == old(exprStack)
    {
      Visit(n);
      var e := Pop();
      fixed := e.0;
    }
  }

  // ----- What the pass achieves -----

  lemma {:induction false} FixSign(n: Node)
    ensures Sign(Fix(n)) == Sign(n)
  {
    match n
    case Unary(_, child) => FixSign(child);
    case Extend(child, _) => FixSign(child);
    case Binary(_, l, r) =>
      FixSign(l);
      FixSign(r);
    case VectorAccess(l, _) => FixSign(l);
    case _ =>
  }

  lemma {:induction false} FixVector(n: Node)
    ensures Fix(n).VectorExpr? == n.VectorExpr? && (n.VectorExpr? ==> Fix(n) == n)
  {
  }

  /** Truth values are recorded with width one, so the pass never extends them. */
  lemma {:induction false} BoolRecorded(n: Node)
    requires KindOf(true, n) == Some(BoolKind)
    ensures Recorded(n) == 1
  {
    match n
    case Unary(_, child) => BoolRecorded(child);
    case IfThenElse(a, _, _) => BoolRecorded(a);
    case _ =>
  }

  function ExtendedKind(k: Option<Kind>, from: int, to: int): Option<Kind> {
    if from >= to then k
    else if k.Some? && k.value.WordKind? then Some(WordKind(k.value.width + to - from))
    else None
  }

  lemma ExtendKind(n: Node, from: int, to: int)
    ensures KindOf(false, ExtendBy(n, from, to)) == ExtendedKind(KindOf(false, n), from, to)
    ensures Sign(ExtendBy(n, from, to)) == Sign(n)
  {
  }

  /** Two words end with the same width exactly when their widths were recorded with the same error. */
  lemma SameError(op: BinaryOp, sx: bool, sy: bool, x: Kind, y: Kind, rx: int, ry: int)
    requires x.WordKind? && y.WordKind?
    ensures var x', y' := ExtendedKind(Some(x), rx, ry), ExtendedKind(Some(y), ry, rx);
      && x'.Some? && y'.Some?
      && BinaryKind(op, sx, sy, x'.value, y'.value) ==
        if x.width - rx == y.width - ry then
          BinaryKind(op, sx, sy, WordKind(Max(x.width, y.width)), WordKind(Max(x.width, y.width)))
        else None
  {
  }

  lemma BinaryKindOf(widen: bool, op: BinaryOp, l: Node, r: Node)
    ensures KindOf(widen, Binary(op, l, r)) ==
      var x, y := KindOf(widen, l), KindOf(widen, r);
      if x.None? || y.None? then None
      else if widen then WidenedKind(op, l, r, x.value, y.value)
      else BinaryKind(op, Sign(l), Sign(r), x.value, y.value)
  {
  }

  lemma FixBinaryKind(op: BinaryOp, l: Node, r: Node)
    requires KindOf(false, Fix(l)) == KindOf(true, l) && KindOf(false, Fix(r)) == KindOf(true, r)
    ensures KindOf(false, Fix(Binary(op, l, r))) == KindOf(true, Binary(op, l, r))
  {
    BinaryKindOf(true, op, l, r);
    var rl, rr := Recorded(l), Recorded(r);
    var L, R := ExtendBy(Fix(l), rl, rr), ExtendBy(Fix(r), rr, rl);
    assert Fix(Binary(op, l, r)) == Binary(op, L, R);
    BinaryKindOf(false, op, L, R);
    hide KindOf, Recorded, Fix, Sign, ExtendBy;
    FixSign(l);
    FixSign(r);
    ExtendKind(Fix(l), rl, rr);
    ExtendKind(Fix(r), rr, rl);
    var x, y := KindOf(true, l), KindOf(true, r);
    if x.Some? && y.Some? {
      if x.value.WordKind? && y.value.WordKind? {
        SameError(op, Sign(l), Sign(r), x.value, y.value, rl, rr);
      } else if x.value.BoolKind? && y.value.BoolKind? {
        BoolRecorded(l);
        BoolRecorded(r);
      }
    }
  }

  /**
   After the pass every assertion of the back end holds exactly when the widths were
   recorded with the same error on both sides of every binary operator (and the operators
   fit the kinds of their operands).
   */
  lemma {:induction false} FixKind(n: Node)
    ensures KindOf(false, Fix(n)) == KindOf(true, n)
  {
    match n
    case Unary(_, child) => FixKind(child);
    case Inside(child, _) => FixKind(child);
    case Extend(child, _) => FixKind(child);
    case Binary(op, l, r) =>
      FixKind(l);
      FixKind(r);
      FixBinaryKind(op, l, r);
    case VectorAccess(l, _) => FixVector(l);
    case IfThenElse(a, b, c) =>
      FixKind(a);
      FixKind(b);
      FixKind(c);
    case Bitslice(child, _, _) => FixKind(child);
    case _ =>
  }

  /** The value of a vector access does not depend on extensions inside the subscript. */
  ghost predicate AccessStable(leaf: Leaves) {
    forall l, r :: leaf(VectorAccess(Fix(l), Fix(r))) == leaf(VectorAccess(l, r))
  }

  lemma {:induction false} FixLeaves(n: Node, leaf: Leaves)
    requires AccessStable(leaf) && LeavesFit(n, leaf)
    ensures LeavesFit(Fix(n), leaf)
  {
    match n
    case Unary(_, child) => FixLeaves(child, leaf);
    case Inside(child, _) => FixLeaves(child, leaf);
    case Extend(child, _) => FixLeaves(child, leaf);
    case Binary(_, l, r) =>
      FixLeaves(l, leaf);
      FixLeaves(r, leaf);
    case VectorAccess(l, _) => FixVector(l);
    case IfThenElse(a, b, c) =>
      FixLeaves(a, leaf);
      FixLeaves(b, leaf);
      FixLeaves(c, leaf);
    case ForEach(l, r) =>
      FixLeaves(l, leaf);
      FixLeaves(r, leaf);
    case Unique(child) => FixLeaves(child, leaf);
    case Bitslice(child, _, _) => FixLeaves(child, leaf);
    case _ =>
  }

  function Extended(sign: bool, from: int, to: int, v: Val): Val {
    if from < to then ExtendVal(sign, to - from, v) else v
  }

  lemma EvalExtendBy(n: Node, from: int, to: int, leaf: Leaves)
    ensures Eval(false, ExtendBy(n, from, to), leaf) == Extended(Sign(n), from, to, Eval(false, n, leaf))
  {
  }

  /** Without prior extensions, choices and quotients of operands of different signs. */
  predicate IsPlain(n: Node) {
    match n
    case Placeholder(_) => true
    case VariableExpr(_, _, _) => true
    case ConstantExpr(_) => true
    case VectorExpr(_, _, _) => true
    case Unary(_, child) => IsPlain(child)
    case Inside(child, _) => IsPlain(child)
    case Extend(_, _) => false
    case Binary(op, l, r) => IsPlain(l) && IsPlain(r) && (op == Devide ==> Sign(l) == Sign(r))
    case VectorAccess(_, _) => true
    case IfThenElse(_, _, _) => false
    case ForEach(_, _) => false
    case Unique(_) => false
    case Bitslice(child, _, _) => IsPlain(child)
  }

  function WidthOf(k: Kind): nat { if k.BoolKind? then 1 else k.width }

  /** On plain expressions the recorded width is the width of the value. */
  lemma {:induction false} RecordedExactly(n: Node)
    requires IsPlain(n) && KindOf(true, n).Some?
    ensures Recorded(n) == WidthOf(KindOf(true, n).value)
  {
    match n
    case Unary(_, child) => RecordedExactly(child);
    case Inside(child, _) => RecordedExactly(child);
    case Binary(_, l, r) =>
      RecordedExactly(l);
      RecordedExactly(r);
    case Bitslice(child, _, _) => RecordedExactly(child);
    case _ =>
  }

  /** So plain words of any widths can be operands of every operator but the logical ones. */
  lemma PlainCombines(op: BinaryOp, l: Node, r: Node)
    requires IsPlain(l) && IsPlain(r) && op !in {LogicalAnd, LogicalOr}
    requires KindOf(true, l).Some? && KindOf(true, l).value.WordKind? && KindOf(true, r).Some?
    requires KindOf(true, r).value.WordKind?
    ensures KindOf(true, Binary(op, l, r)).Some?
  {
    RecordedExactly(l);
    RecordedExactly(r);
    assert KindOf(true, Binary(op, l, r)) == WidenedKind(op, l, r, KindOf(true, l).value, KindOf(true, r).value);
  }

  /** What is misjudged: an extension, a quotient of different signs, and a choice, which is taken for its condition. */
  lemma RecordedErrors(n: Node)
    requires KindOf(true, n).Some?
    ensures n.Extend? ==>
      WidthOf(KindOf(true, n).value) - Recorded(n) == WidthOf(KindOf(true, n.child).value) - Recorded(n.child) + n.value
    ensures n.IfThenElse? && IsPlain(n.a) ==> Recorded(n) == 1
    ensures n.Binary? && n.op == Devide && Sign(n.lhs) != Sign(n.rhs) && IsPlain(n.lhs) && IsPlain(n.rhs) ==>
      WidthOf(KindOf(true, n).value) == Recorded(n) + 1
  {
    if n.IfThenElse? && IsPlain(n.a) {
      RecordedExactly(n.a);
    }
    if n.Binary? && n.op == Devide && IsPlain(n.lhs) && IsPlain(n.rhs) {
      RecordedExactly(n.lhs);
      RecordedExactly(n.rhs);
    }
  }

  lemma EvalBinary(widen: bool, op: BinaryOp, l: Node, r: Node, leaf: Leaves)
    ensures Eval(widen, Binary(op, l, r), leaf) ==
      var x, y := Eval(widen, l, leaf), Eval(widen, r, leaf);
      if widen then ApplyWidened(op, Sign(l), Sign(r), x, y) else ApplyBinary(op, Sign(l), Sign(r), x, y)
  {
  }

  /**
   Extending by the difference of the recorded widths is widening: for truth values because
   they are recorded alike, for words when the errors agree.
   */
  lemma WidenBoth(op: BinaryOp, sx: bool, sy: bool, x: Val, y: Val, kx: Kind, ky: Kind, rx: int, ry: int)
    requires HasKind(x, kx) && HasKind(y, ky)
    requires if kx.WordKind? && ky.WordKind? then kx.width - rx == ky.width - ry else rx == ry
    ensures ApplyBinary(op, sx, sy, Extended(sx, rx, ry, x), Extended(sy, ry, rx, y)) == ApplyWidened(op, sx, sy, x, y)
  {
  }

  lemma FixBinaryMeaning(op: BinaryOp, l: Node, r: Node, leaf: Leaves)
    requires KindOf(true, Binary(op, l, r)).Some?
    requires Eval(false, Fix(l), leaf) == Eval(true, l, leaf) && Eval(false, Fix(r), leaf) == Eval(true, r, leaf)
    requires Fits(Eval(true, l, leaf), KindOf(true, l)) && Fits(Eval(true, r, leaf), KindOf(true, r))
    ensures Eval(false, Fix(Binary(op, l, r)), leaf) == Eval(true, Binary(op, l, r), leaf)
  {
    hide *;
    var rl, rr := Recorded(l), Recorded(r);
    FixBinaryShape(op, l, r);
    EvalBinary(false, op, ExtendBy(Fix(l), rl, rr), ExtendBy(Fix(r), rr, rl), leaf);
    EvalBinary(true, op, l, r, leaf);
    EvalExtendBy(Fix(l), rl, rr, leaf);
    EvalExtendBy(Fix(r), rr, rl, leaf);
    RecordedAlike(op, l, r);
    FitsKind(Eval(true, l, leaf), KindOf(true, l));
    FitsKind(Eval(true, r, leaf), KindOf(true, r));
    WidenBoth(op, Sign(l), Sign(r), Eval(true, l, leaf), Eval(true, r, leaf), KindOf(true, l).value,
      KindOf(true, r).value, rl, rr);
  }

  lemma FixBinaryShape(op: BinaryOp, l: Node, r: Node)
    ensures Fix(Binary(op, l, r))
      == Binary(op, ExtendBy(Fix(l), Recorded(l), Recorded(r)), ExtendBy(Fix(r), Recorded(r), Recorded(l)))
    ensures Sign(Fix(l)) == Sign(l) && Sign(Fix(r)) == Sign(r)
    ensures Sign(ExtendBy(Fix(l), Recorded(l), Recorded(r))) == Sign(l)
    ensures Sign(ExtendBy(Fix(r), Recorded(r), Recorded(l))) == Sign(r)
  {
    FixSign(l);
    FixSign(r);
  }

  lemma FitsKind(v: Val, k: Option<Kind>)
    requires Fits(v, k) && k.Some?
    ensures HasKind(v, k.value)
  {
  }

  /** What the kind of a widened operator tells about its operands. */
  lemma RecordedAlike(op: BinaryOp, l: Node, r: Node)
    requires KindOf(true, Binary(op, l, r)).Some?
    ensures KindOf(true, l).Some? && KindOf(true, r).Some?
    ensures var x, y := KindOf(true, l).value, KindOf(true, r).value;
      if x.WordKind? && y.WordKind? then x.width - Recorded(l) == y.width - Recorded(r) else Recorded(l) == Recorded(r)
  {
    var x, y := KindOf(true, l).value, KindOf(true, r).value;
    if x.BoolKind? && y.BoolKind? {
      BoolRecorded(l);
      BoolRecorded(r);
    }
  }

  lemma FixFits(n: Node, leaf: Leaves)
    requires AccessStable(leaf) && LeavesFit(n, leaf)
    ensures Fits(Eval(false, Fix(n), leaf), KindOf(true, n))
  {
    FixLeaves(n, leaf);
    FixKind(n);
    KindIsKept(Fix(n), leaf);
  }

  /** On a tree with a kind the pass makes explicit the widening that the user reads into it. */
  lemma {:induction false} FixMeaning(n: Node, leaf: Leaves)
    requires AccessStable(leaf) && LeavesFit(n, leaf) && KindOf(true, n).Some?
    ensures Eval(false, Fix(n), leaf) == Eval(true, n, leaf)
  {
    match n
    case Unary(_, child) => FixMeaning(child, leaf);
    case Inside(child, _) => FixMeaning(child, leaf);
    case Extend(child, _) =>
      FixMeaning(child, leaf);
      FixSign(child);
    case Binary(op, l, r) =>
      FixMeaning(l, leaf);
      FixMeaning(r, leaf);
      FixFits(l, leaf);
      FixFits(r, leaf);
      FixBinaryMeaning(op, l, r, leaf);
    case IfThenElse(a, b, c) =>
      FixMeaning(a, leaf);
      FixMeaning(b, leaf);
      FixMeaning(c, leaf);
    case Bitslice(child, _, _) => FixMeaning(child, leaf);
    case _ =>
  }

  /** The scalar theorem: for every well-kinded tree and every model of its variables. */
  lemma FixPreservesMeaning(n: Node, m: Model)
    requires LeavesFit(n, Scalar(m)) && KindOf(true, n).Some?
    ensures Denote(Fix(n), m) == Meaning(n, m)
    ensures HasKind(Meaning(n, m), KindOf(true, n).value)
  {
    FixMeaning(n, Scalar(m));
    FixFits(n, Scalar(m));
  }

  /** A tree without a kind stops the back end, whatever the values of its variables. */
  lemma FixWithoutKindIsStuck(n: Node, m: Model)
    requires LeavesFit(n, Scalar(m))
    ensures Denote(Fix(n), m) == Stuck <==> KindOf(true, n) == None
  {
    FixFits(n, Scalar(m));
  }
}
