/**
 What the instances of a constraint over a vector mean: the constraint, as the user reads
 it, at every index whose subscripts stay inside the vector.
 */
module ForEachMeaning {
  import opened Bits
  import opened SmtLib
  import D = Division
  import opened Ast
  import opened FixWidth
  import opened ForEachExpansion
  import opened Numbers
  import opened Literals
  import opened Subscripts
  import M = MetaSMT

  /** The value of the element at a subscript. */
  function Element(s: Option<int>, ids: seq<nat>, m: Model): Val {
    if IsIndex(s, |ids|) then m(ids[s.value]) else Stuck
  }

  /** The value of a leaf at index idx: the placeholder is the index, an access is the element at its subscript. */
  function ValueAt(n: Node, idx: nat, ids: seq<nat>, m: Model): Val {
    match n
    case Placeholder(_) => WordVal(FromInt(idx, PLACEHOLDER_BITSIZE))
    case VariableExpr(id, _, _) => m(id)
    case VectorAccess(_, r) => Element(Subscript(r, idx), ids, m)
    case _ => Stuck
  }

  function At(idx: nat, ids: seq<nat>, m: Model): Leaves { (n: Node) => ValueAt(n, idx, ids, m) }

  /** The body of a loop over vectors: no loop inside. */
  predicate IsBody(n: Node) {
    match n
    case Placeholder(_) => true
    case VariableExpr(_, _, _) => true
    case ConstantExpr(_) => true
    case VectorExpr(_, _, _) => true
    case Unary(_, child) => IsBody(child)
    case Inside(child, _) => IsBody(child)
    case Extend(child, _) => IsBody(child)
    case Binary(_, l, r) => IsBody(l) && IsBody(r)
    case VectorAccess(l, r) => l.VectorExpr? && IsBody(r)
    case IfThenElse(a, b, c) => IsBody(a) && IsBody(b) && IsBody(c)
    case ForEach(_, _) => false
    case Unique(_) => false
    case Bitslice(child, _, _) => IsBody(child)
  }

  lemma {:induction false} InstanceSign(n: Node, idx: nat, ids: seq<nat>)
    requires IsBody(n) && InRange(n, idx, |ids|)
    ensures Sign(Instance(n, idx, ids)) == Sign(n)
  {
    match n
    case Unary(_, child) => InstanceSign(child, idx, ids);
    case Extend(child, _) => InstanceSign(child, idx, ids);
    case Binary(_, l, r) =>
      InstanceSign(l, idx, ids);
      InstanceSign(r, idx, ids);
    case _ =>
  }

  lemma AccessMeans(widen: bool, l: Node, r: Node, idx: nat, ids: seq<nat>, m: Model)
    requires l.VectorExpr? && IsIndex(Subscript(r, idx), |ids|)
    ensures Eval(widen, Instance(VectorAccess(l, r), idx, ids), Scalar(m))
      == Eval(widen, VectorAccess(l, r), At(idx, ids, m))
  {
    hide AsInt, Subscript;
    assert At(idx, ids, m)(VectorAccess(l, r)) == ValueAt(VectorAccess(l, r), idx, ids, m);
  }

  /** The instance at idx has the value of the tree at idx. */
  lemma {:induction false} InstanceMeans(widen: bool, n: Node, idx: nat, ids: seq<nat>, m: Model)
    requires IsBody(n) && InRange(n, idx, |ids|)
    ensures Eval(widen, Instance(n, idx, ids), Scalar(m)) == Eval(widen, n, At(idx, ids, m))
  {
    hide Subscript, IsIndex, Element, ApplyUnary, ApplyBinary, ApplyWidened, ApplyInside, ApplyIte, ApplySlice;
    hide ExtendVal, Sign;
    match n
    case VectorAccess(l, r) => AccessMeans(widen, l, r, idx, ids, m);
    case Unary(_, child) => InstanceMeans(widen, child, idx, ids, m);
    case Inside(child, _) => InstanceMeans(widen, child, idx, ids, m);
    case Extend(child, _) =>
      InstanceMeans(widen, child, idx, ids, m);
      InstanceSign(child, idx, ids);
    case Binary(op, l, r) =>
      InstanceMeans(widen, l, idx, ids, m);
      InstanceMeans(widen, r, idx, ids, m);
      InstanceSign(l, idx, ids);
      InstanceSign(r, idx, ids);
      EvalBinary(widen, op, l, r, At(idx, ids, m));
      EvalBinary(widen, op, Instance(l, idx, ids), Instance(r, idx, ids), Scalar(m));
    case IfThenElse(a, b, c) =>
      InstanceMeans(widen, a, idx, ids, m);
      InstanceMeans(widen, b, idx, ids, m);
      InstanceMeans(widen, c, idx, ids, m);
    case Bitslice(child, _, _) => InstanceMeans(widen, child, idx, ids, m);
    case _ =>
  }

  // ----- Extensions do not change subscripts -----

  lemma {:induction false} FixSubscript(n: Node, idx: nat)
    ensures Subscript(Fix(n), idx) == Subscript(n, idx)
  {
    hide UnarySub, BinarySub, AsInt, Truth;
    match n
    case Unary(_, child) => FixSubscript(child, idx);
    case Inside(child, _) => FixSubscript(child, idx);
    case Extend(child, _) => FixSubscript(child, idx);
    case Binary(_, l, r) =>
      FixSubscript(l, idx);
      FixSubscript(r, idx);
    case VectorAccess(l, r) =>
      FixSubscript(l, idx);
      FixSubscript(r, idx);
    case IfThenElse(a, b, c) =>
      FixSubscript(a, idx);
      FixSubscript(b, idx);
      FixSubscript(c, idx);
    case ForEach(_, r) => FixSubscript(r, idx);
    case Bitslice(child, _, _) => FixSubscript(child, idx);
    case _ =>
  }

  lemma {:induction false} FixInRange(n: Node, idx: nat, size: nat)
    ensures InRange(Fix(n), idx, size) == InRange(n, idx, size)
  {
    match n
    case Unary(_, child) => FixInRange(child, idx, size);
    case Inside(child, _) => FixInRange(child, idx, size);
    case Extend(child, _) => FixInRange(child, idx, size);
    case Binary(_, l, r) =>
      FixInRange(l, idx, size);
      FixInRange(r, idx, size);
    case VectorAccess(l, r) =>
      FixInRange(l, idx, size);
      FixInRange(r, idx, size);
      FixSubscript(r, idx);
    case IfThenElse(a, b, c) =>
      FixInRange(a, idx, size);
      FixInRange(b, idx, size);
      FixInRange(c, idx, size);
    case ForEach(_, r) => FixInRange(r, idx, size);
    case Bitslice(child, _, _) => FixInRange(child, idx, size);
    case _ =>
  }

  lemma {:induction false} FixBody(n: Node)
    requires IsBody(n)
    ensures IsBody(Fix(n))
  {
    match n
    case Unary(_, child) => FixBody(child);
    case Inside(child, _) => FixBody(child);
    case Extend(child, _) => FixBody(child);
    case Binary(_, l, r) =>
      FixBody(l);
      FixBody(r);
    case VectorAccess(l, r) => FixBody(r);
    case IfThenElse(a, b, c) =>
      FixBody(a);
      FixBody(b);
      FixBody(c);
    case Bitslice(child, _, _) => FixBody(child);
    case _ =>
  }

  lemma ValueIsStable(l: Node, r: Node, idx: nat, ids: seq<nat>, m: Model)
    ensures ValueAt(VectorAccess(Fix(l), Fix(r)), idx, ids, m) == ValueAt(VectorAccess(l, r), idx, ids, m)
  {
    hide Fix, Subscript, Element, AsInt;
    FixSubscript(r, idx);
  }

  lemma AtIsStable(idx: nat, ids: seq<nat>, m: Model)
    ensures AccessStable(At(idx, ids, m))
  {
    hide ValueAt, Fix;
    forall l, r
      ensures At(idx, ids, m)(VectorAccess(Fix(l), Fix(r))) == At(idx, ids, m)(VectorAccess(l, r))
    {
      ValueIsStable(l, r, idx, ids, m);
    }
  }

  // ----- Constraints over one vector -----

  /** The variables of the body are declared; every access goes to the vector vid, with elements of kind k. */
  predicate BodyScoped(n: Node, scope: M.Scope, vid: nat, k: Kind) {
    match n
    case Placeholder(_) => true
    case VariableExpr(id, bs, s) => id in scope && scope[id] == TerminalKind(bs, s)
    case ConstantExpr(_) => true
    case VectorExpr(_, _, _) => true
    case Unary(_, child) => BodyScoped(child, scope, vid, k)
    case Inside(child, _) => BodyScoped(child, scope, vid, k)
    case Extend(child, _) => BodyScoped(child, scope, vid, k)
    case Binary(_, l, r) => BodyScoped(l, scope, vid, k) && BodyScoped(r, scope, vid, k)
    case VectorAccess(l, r) =>
      l.VectorExpr? && l.vid == vid && TerminalKind(l.bitsize, l.sign) == k && BodyScoped(r, scope, vid, k)
    case IfThenElse(a, b, c) =>
      BodyScoped(a, scope, vid, k) && BodyScoped(b, scope, vid, k) && BodyScoped(c, scope, vid, k)
    case ForEach(_, _) => false
    case Unique(_) => false
    case Bitslice(child, _, _) => BodyScoped(child, scope, vid, k)
  }

  ghost predicate ElementsFit(ids: seq<nat>, m: Model, k: Kind) {
    forall i | 0 <= i < |ids| :: HasKind(m(ids[i]), k)
  }

  lemma AccessFits(l: Node, r: Node, k: Kind, idx: nat, ids: seq<nat>, m: Model)
    requires ElementsFit(ids, m, k) && IsIndex(Subscript(r, idx), |ids|)
    ensures HasKind(At(idx, ids, m)(VectorAccess(l, r)), k)
  {
    hide HasKind, AsInt, Subscript;
    assert At(idx, ids, m)(VectorAccess(l, r)) == ValueAt(VectorAccess(l, r), idx, ids, m);
    assert HasKind(m(ids[Subscript(r, idx).value]), k);
  }

  lemma {:induction false} BodyLeavesFit(n: Node, scope: M.Scope, vid: nat, k: Kind, idx: nat, ids: seq<nat>, m: Model)
    requires BodyScoped(n, scope, vid, k) && M.ModelFits(m, scope) && ElementsFit(ids, m, k) && InRange(n, idx, |ids|)
    ensures LeavesFit(n, At(idx, ids, m))
  {
    hide Subscript, IsIndex, Element, FromInt;
    match n
    case Placeholder(_) => assert |FromInt(idx, PLACEHOLDER_BITSIZE)| == PLACEHOLDER_BITSIZE;
    case VectorAccess(l, r) => AccessFits(l, r, k, idx, ids, m);
    case Unary(_, child) => BodyLeavesFit(child, scope, vid, k, idx, ids, m);
    case Inside(child, _) => BodyLeavesFit(child, scope, vid, k, idx, ids, m);
    case Extend(child, _) => BodyLeavesFit(child, scope, vid, k, idx, ids, m);
    case Binary(_, l, r) =>
      BodyLeavesFit(l, scope, vid, k, idx, ids, m);
      BodyLeavesFit(r, scope, vid, k, idx, ids, m);
    case IfThenElse(a, b, c) =>
      BodyLeavesFit(a, scope, vid, k, idx, ids, m);
      BodyLeavesFit(b, scope, vid, k, idx, ids, m);
      BodyLeavesFit(c, scope, vid, k, idx, ids, m);
    case Bitslice(child, _, _) => BodyLeavesFit(child, scope, vid, k, idx, ids, m);
    case _ =>
  }

  lemma {:induction false} ScopedIsBody(n: Node, scope: M.Scope, vid: nat, k: Kind)
    requires BodyScoped(n, scope, vid, k)
    ensures IsBody(n)
  {
    match n
    case Unary(_, child) => ScopedIsBody(child, scope, vid, k);
    case Inside(child, _) => ScopedIsBody(child, scope, vid, k);
    case Extend(child, _) => ScopedIsBody(child, scope, vid, k);
    case Binary(_, l, r) =>
      ScopedIsBody(l, scope, vid, k);
      ScopedIsBody(r, scope, vid, k);
    case VectorAccess(_, r) => ScopedIsBody(r, scope, vid, k);
    case IfThenElse(a, b, c) =>
      ScopedIsBody(a, scope, vid, k);
      ScopedIsBody(b, scope, vid, k);
      ScopedIsBody(c, scope, vid, k);
    case Bitslice(child, _, _) => ScopedIsBody(child, scope, vid, k);
    case _ =>
  }

  /**
   The whole path of one instance: widths are fixed once for the body, then the instance at
   idx is made. It has the value of the body with the elements that the visitor selects.
   */
  lemma FixedInstanceAt(g: Node, scope: M.Scope, vid: nat, k: Kind, idx: nat, ids: seq<nat>, m: Model)
    requires BodyScoped(g, scope, vid, k) && M.ModelFits(m, scope) && ElementsFit(ids, m, k)
    requires KindOf(true, g).Some? && InRange(g, idx, |ids|)
    ensures Denote(Instance(Fix(g), idx, ids), m) == Eval(true, g, At(idx, ids, m))
  {
    ScopedIsBody(g, scope, vid, k);
    FixBody(g);
    FixInRange(g, idx, |ids|);
    InstanceMeans(false, Fix(g), idx, ids, m);
    AtIsStable(idx, ids, m);
    BodyLeavesFit(g, scope, vid, k, idx, ids, m);
    FixMeaning(g, At(idx, ids, m));
  }

  // ----- As the user reads it -----

  /** The variables of the elements of every vector. */
  type Vectors = nat -> seq<nat>

  function ElementAt(number: Option<int>, ids: seq<nat>, m: Model): Val {
    if InVector(number, |ids|) then m(ids[number.value]) else Stuck
  }

  /**
   A leaf at index idx, as the user reads it: an access selects, in its own vector, the
   element with the number that its subscript has as a bit-vector.
   */
  ghost function ReadAt(n: Node, idx: nat, vecs: Vectors, m: Model): Val {
    match n
    case Placeholder(_) => WordVal(FromInt(idx, PLACEHOLDER_BITSIZE))
    case VariableExpr(id, _, _) => m(id)
    case VectorAccess(l, r) =>
      if l.VectorExpr? then
        ElementAt(Number(Sign(r), Eval(true, r, (x: Node) => if x < n then ReadAt(x, idx, vecs, m) else Stuck)),
          vecs(l.vid), m)
      else Stuck
    case _ => Stuck
  }

  ghost function ReadBelow(n: Node, idx: nat, vecs: Vectors, m: Model): Leaves {
    (x: Node) => if x < n then ReadAt(x, idx, vecs, m) else Stuck
  }

  ghost function Read(idx: nat, vecs: Vectors, m: Model): Leaves { (n: Node) => ReadAt(n, idx, vecs, m) }

  /** Two readings have the same values at all leaves of a tree. */
  ghost predicate Agree(n: Node, a: Leaves, b: Leaves) {
    match n
    case Placeholder(_) => a(n) == b(n)
    case VariableExpr(_, _, _) => a(n) == b(n)
    case ConstantExpr(_) => true
    case VectorExpr(_, _, _) => true
    case Unary(_, child) => Agree(child, a, b)
    case Inside(child, _) => Agree(child, a, b)
    case Extend(child, _) => Agree(child, a, b)
    case Binary(_, l, r) => Agree(l, a, b) && Agree(r, a, b)
    case VectorAccess(_, _) => a(n) == b(n)
    case IfThenElse(x, y, z) => Agree(x, a, b) && Agree(y, a, b) && Agree(z, a, b)
    case ForEach(_, _) => true
    case Unique(_) => true
    case Bitslice(child, _, _) => Agree(child, a, b)
  }

  lemma {:induction false} AgreeMeans(widen: bool, n: Node, a: Leaves, b: Leaves)
    requires Agree(n, a, b)
    ensures Eval(widen, n, a) == Eval(widen, n, b)
  {
    hide ApplyUnary, ApplyBinary, ApplyWidened, ApplyInside, ApplyIte, ApplySlice, ExtendVal, Sign, ConstantVal;
    match n
    case Unary(_, child) => AgreeMeans(widen, child, a, b);
    case Inside(child, _) => AgreeMeans(widen, child, a, b);
    case Extend(child, _) => AgreeMeans(widen, child, a, b);
    case Binary(op, l, r) =>
      AgreeMeans(widen, l, a, b);
      AgreeMeans(widen, r, a, b);
      EvalBinary(widen, op, l, r, a);
      EvalBinary(widen, op, l, r, b);
    case IfThenElse(x, y, z) =>
      AgreeMeans(widen, x, a, b);
      AgreeMeans(widen, y, a, b);
      AgreeMeans(widen, z, a, b);
    case Bitslice(child, _, _) => AgreeMeans(widen, child, a, b);
    case _ =>
  }

  lemma {:induction false} BelowAgrees(x: Node, n: Node, idx: nat, vecs: Vectors, m: Model)
    requires x < n
    ensures Agree(x, ReadBelow(n, idx, vecs, m), Read(idx, vecs, m))
  {
    hide ReadAt;
    match x
    case Unary(_, child) => BelowAgrees(child, n, idx, vecs, m);
    case Inside(child, _) => BelowAgrees(child, n, idx, vecs, m);
    case Extend(child, _) => BelowAgrees(child, n, idx, vecs, m);
    case Binary(_, l, r) =>
      BelowAgrees(l, n, idx, vecs, m);
      BelowAgrees(r, n, idx, vecs, m);
    case IfThenElse(a, b, c) =>
      BelowAgrees(a, n, idx, vecs, m);
      BelowAgrees(b, n, idx, vecs, m);
      BelowAgrees(c, n, idx, vecs, m);
    case Bitslice(child, _, _) => BelowAgrees(child, n, idx, vecs, m);
    case _ =>
  }

  /** The number of a subscript, as the user reads it. */
  ghost function NumberAt(r: Node, idx: nat, vecs: Vectors, m: Model): Option<int> {
    UserNumber(r, Read(idx, vecs, m))
  }

  /** An access reads the element of its own vector at the number of its subscript. */
  lemma AccessReads(l: Node, r: Node, idx: nat, vecs: Vectors, m: Model)
    requires l.VectorExpr?
    ensures Read(idx, vecs, m)(VectorAccess(l, r)) == ElementAt(NumberAt(r, idx, vecs, m), vecs(l.vid), m)
  {
    hide ElementAt, Number, Sign, Eval;
    var n := VectorAccess(l, r);
    var below := ReadBelow(n, idx, vecs, m);
    BelowAgrees(r, n, idx, vecs, m);
    AgreeMeans(true, r, below, Read(idx, vecs, m));
    assert below == (x: Node) => if x < n then ReadAt(x, idx, vecs, m) else Stuck;
  }

  /** The user reads no element outside a vector. */
  ghost predicate ReadsInside(n: Node, idx: nat, vecs: Vectors, m: Model) {
    match n
    case Placeholder(_) => true
    case VariableExpr(_, _, _) => true
    case ConstantExpr(_) => true
    case VectorExpr(_, _, _) => true
    case Unary(_, child) => ReadsInside(child, idx, vecs, m)
    case Inside(child, _) => ReadsInside(child, idx, vecs, m)
    case Extend(child, _) => ReadsInside(child, idx, vecs, m)
    case Binary(_, l, r) => ReadsInside(l, idx, vecs, m) && ReadsInside(r, idx, vecs, m)
    case VectorAccess(l, r) =>
      l.VectorExpr? && ReadsInside(r, idx, vecs, m) && InVector(NumberAt(r, idx, vecs, m), |vecs(l.vid)|)
    case IfThenElse(a, b, c) =>
      ReadsInside(a, idx, vecs, m) && ReadsInside(b, idx, vecs, m) && ReadsInside(c, idx, vecs, m)
    case ForEach(_, _) => false
    case Unique(_) => false
    case Bitslice(child, _, _) => ReadsInside(child, idx, vecs, m)
  }

  /** Every subscript of the body selects the user's element at idx. */
  predicate SubscriptsSelect(n: Node, idx: nat) {
    match n
    case Placeholder(_) => true
    case VariableExpr(_, _, _) => true
    case ConstantExpr(_) => true
    case VectorExpr(_, _, _) => true
    case Unary(_, child) => SubscriptsSelect(child, idx)
    case Inside(child, _) => SubscriptsSelect(child, idx)
    case Extend(child, _) => SubscriptsSelect(child, idx)
    case Binary(_, l, r) => SubscriptsSelect(l, idx) && SubscriptsSelect(r, idx)
    case VectorAccess(_, r) => Selects(r, idx)
    case IfThenElse(a, b, c) => SubscriptsSelect(a, idx) && SubscriptsSelect(b, idx) && SubscriptsSelect(c, idx)
    case ForEach(_, _) => false
    case Unique(_) => false
    case Bitslice(child, _, _) => SubscriptsSelect(child, idx)
  }

  lemma {:induction false} ClosedIsInside(n: Node, idx: nat, size: nat, vecs: Vectors, m: Model)
    requires IsClosed(n)
    ensures InRange(n, idx, size) && ReadsInside(n, idx, vecs, m)
  {
    match n
    case Unary(_, child) => ClosedIsInside(child, idx, size, vecs, m);
    case Extend(child, _) => ClosedIsInside(child, idx, size, vecs, m);
    case Binary(_, l, r) =>
      ClosedIsInside(l, idx, size, vecs, m);
      ClosedIsInside(r, idx, size, vecs, m);
    case _ =>
  }

  /** An access by a subscript that selects: both readings take the same element, or none. */
  lemma AccessAlike(l: Node, r: Node, idx: nat, vecs: Vectors, m: Model)
    requires l.VectorExpr? && Selects(r, idx) && |vecs(l.vid)| < Pow2(31)
    ensures var n, ids := VectorAccess(l, r), vecs(l.vid);
      && (InRange(n, idx, |ids|) <==> ReadsInside(n, idx, vecs, m))
      && (InRange(n, idx, |ids|) ==> Agree(n, At(idx, ids, m), Read(idx, vecs, m)))
  {
    var n, ids := VectorAccess(l, r), vecs(l.vid);
    SelectsIsClosed(r, idx);
    ReadIsIndexed(idx, vecs, m);
    hide *;
    ClosedIsInside(r, idx, |ids|, vecs, m);
    NumbersAlike(r, idx, |ids|, vecs, m);
    AccessInside(l, r, idx, vecs, m);
    AccessAgrees(l, r, idx, vecs, m);
  }

  lemma NumbersAlike(r: Node, idx: nat, size: nat, vecs: Vectors, m: Model)
    requires Selects(r, idx) && size < Pow2(31) && IsIndexed(Read(idx, vecs, m), idx)
    ensures SameIndex(Subscript(r, idx), NumberAt(r, idx, vecs, m), size)
  {
    hide Selects, Subscript, Pow2, SameIndex, UserNumber, IsIndexed;
    SelectsTheSame(r, idx, size, Read(idx, vecs, m));
  }

  lemma AccessInside(l: Node, r: Node, idx: nat, vecs: Vectors, m: Model)
    requires l.VectorExpr? && InRange(r, idx, |vecs(l.vid)|) && ReadsInside(r, idx, vecs, m)
    requires SameIndex(Subscript(r, idx), NumberAt(r, idx, vecs, m), |vecs(l.vid)|)
    ensures InRange(VectorAccess(l, r), idx, |vecs(l.vid)|) <==> ReadsInside(VectorAccess(l, r), idx, vecs, m)
    ensures InRange(VectorAccess(l, r), idx, |vecs(l.vid)|) ==> IsIndex(Subscript(r, idx), |vecs(l.vid)|)
  {
    hide Subscript, IsIndex, NumberAt;
  }

  lemma AccessAgrees(l: Node, r: Node, idx: nat, vecs: Vectors, m: Model)
    requires l.VectorExpr?
    requires SameIndex(Subscript(r, idx), NumberAt(r, idx, vecs, m), |vecs(l.vid)|)
    ensures IsIndex(Subscript(r, idx), |vecs(l.vid)|) ==>
      Agree(VectorAccess(l, r), At(idx, vecs(l.vid), m), Read(idx, vecs, m))
  {
    hide Subscript, IsIndex, NumberAt, ReadAt, FromInt;
    AccessReads(l, r, idx, vecs, m);
    assert At(idx, vecs(l.vid), m)(VectorAccess(l, r)) == Element(Subscript(r, idx), vecs(l.vid), m);
  }

  lemma SelectsIsClosed(r: Node, idx: nat)
    requires Selects(r, idx)
    ensures IsClosed(r)
  {
  }

  lemma ReadIsIndexed(idx: nat, vecs: Vectors, m: Model)
    ensures IsIndexed(Read(idx, vecs, m), idx)
  {
  }

  /**
   At an index where all subscripts select, the visitor drops the instance exactly when the
   user leaves the vector, and otherwise both readings agree at every leaf.
   */
  lemma {:induction false} ReadingsAgree(n: Node, scope: M.Scope, vid: nat, k: Kind, idx: nat, vecs: Vectors, m: Model)
    requires BodyScoped(n, scope, vid, k) && SubscriptsSelect(n, idx) && |vecs(vid)| < Pow2(31)
    ensures InRange(n, idx, |vecs(vid)|) <==> ReadsInside(n, idx, vecs, m)
    ensures InRange(n, idx, |vecs(vid)|) ==> Agree(n, At(idx, vecs(vid), m), Read(idx, vecs, m))
  {
    hide Subscript, Pow2, FromInt, Selects, Element, NumberAt;
    match n
    case VectorAccess(l, r) => AccessAlike(l, r, idx, vecs, m);
    case Unary(_, child) => ReadingsAgree(child, scope, vid, k, idx, vecs, m);
    case Inside(child, _) => ReadingsAgree(child, scope, vid, k, idx, vecs, m);
    case Extend(child, _) => ReadingsAgree(child, scope, vid, k, idx, vecs, m);
    case Binary(_, l, r) =>
      ReadingsAgree(l, scope, vid, k, idx, vecs, m);
      ReadingsAgree(r, scope, vid, k, idx, vecs, m);
    case IfThenElse(a, b, c) =>
      ReadingsAgree(a, scope, vid, k, idx, vecs, m);
      ReadingsAgree(b, scope, vid, k, idx, vecs, m);
      ReadingsAgree(c, scope, vid, k, idx, vecs, m);
    case Bitslice(child, _, _) => ReadingsAgree(child, scope, vid, k, idx, vecs, m);
    case _ =>
  }

  /** What a loop needs: declared variables, one vector, and subscripts that select the user's elements. */
  ghost predicate IsLoopBody(g: Node, scope: M.Scope, vid: nat, k: Kind, size: nat) {
    && BodyScoped(g, scope, vid, k) && KindOf(true, g).Some? && size < Pow2(31)
    && forall i | 0 <= i < size :: SubscriptsSelect(g, i)
  }

  /** The instance at idx means what the user reads at idx, and is dropped where the user leaves the vector. */
  lemma FixedInstanceMeans(g: Node, scope: M.Scope, vid: nat, k: Kind, idx: nat, vecs: Vectors, m: Model)
    requires BodyScoped(g, scope, vid, k) && M.ModelFits(m, scope) && ElementsFit(vecs(vid), m, k)
    requires KindOf(true, g).Some?
    requires |vecs(vid)| < Pow2(31) && SubscriptsSelect(g, idx)
    ensures InRange(Fix(g), idx, |vecs(vid)|) <==> ReadsInside(g, idx, vecs, m)
    ensures ReadsInside(g, idx, vecs, m) ==>
      Denote(Instance(Fix(g), idx, vecs(vid)), m) == Eval(true, g, Read(idx, vecs, m))
  {
    hide *;
    var ids := vecs(vid);
    FixInRange(g, idx, |ids|);
    ReadingsAgree(g, scope, vid, k, idx, vecs, m);
    if InRange(g, idx, |ids|) {
      FixedInstanceAt(g, scope, vid, k, idx, ids, m);
      AgreeMeans(true, g, At(idx, ids, m), Read(idx, vecs, m));
    }
  }

  /** The formulas of a constraint: one instance per index whose subscripts stay inside the vector. */
  function Instances(n: Node, size: nat, ids: seq<nat>): set<Node> {
    set i | 0 <= i < size && InRange(n, i, size) :: Instance(n, i, ids)
  }

  /** The body holds at every index of the vector at which the user does not leave it. */
  ghost predicate LoopHolds(g: Node, vid: nat, vecs: Vectors, m: Model) {
    forall i | 0 <= i < |vecs(vid)| && ReadsInside(g, i, vecs, m) :: Eval(true, g, Read(i, vecs, m)) == BoolVal(true)
  }

  /** A model meets the instances exactly when it meets the loop as the user reads it. */
  lemma ForEachMeans(v: Node, g: Node, scope: M.Scope, vid: nat, k: Kind, vecs: Vectors, m: Model)
    requires IsLoopBody(g, scope, vid, k, |vecs(vid)|) && M.ModelFits(m, scope) && ElementsFit(vecs(vid), m, k)
    ensures (forall f | f in Instances(Fix(ForEach(v, g)), |vecs(vid)|, vecs(vid)) :: Denote(f, m) == BoolVal(true))
      <==> LoopHolds(g, vid, vecs, m)
  {
    var ids := vecs(vid);
    var n, size := Fix(ForEach(v, g)), |ids|;
    forall i | 0 <= i < size
      ensures InRange(n, i, size) <==> ReadsInside(g, i, vecs, m)
      ensures ReadsInside(g, i, vecs, m) ==> Denote(Instance(n, i, ids), m) == Eval(true, g, Read(i, vecs, m))
    {
      LoopIsBody(v, g, i, ids);
      FixedInstanceMeans(g, scope, vid, k, i, vecs, m);
    }
    hide Fix, InRange, Instance, Eval, Read, ReadsInside, IsLoopBody, ElementsFit;
    if forall f | f in Instances(n, size, ids) :: Denote(f, m) == BoolVal(true) {
      forall i | 0 <= i < size && ReadsInside(g, i, vecs, m)
        ensures Eval(true, g, Read(i, vecs, m)) == BoolVal(true)
      {
        assert Instance(n, i, ids) in Instances(n, size, ids);
      }
    }
  }

  lemma LoopIsBody(v: Node, g: Node, i: nat, ids: seq<nat>)
    ensures InRange(Fix(ForEach(v, g)), i, |ids|) == InRange(Fix(g), i, |ids|)
    ensures Instance(Fix(ForEach(v, g)), i, ids) == Instance(Fix(g), i, ids)
  {
  }

  // ----- Where the readings differ -----

  lemma NotEqualMeans(widen: bool, sx: bool, sy: bool, x: Val, y: Val, k: Kind)
    requires HasKind(x, k) && HasKind(y, k)
    ensures (if widen then ApplyWidened(NotEqual, sx, sy, x, y) else ApplyBinary(NotEqual, sx, sy, x, y))
      == BoolVal(x != y)
  {
  }

  /** Two accesses that differ: they are read at idx by the elements that the leaves give. */
  lemma AccessesDiffer(widen: bool, a: Node, b: Node, leaf: Leaves, k: Kind)
    requires a.VectorAccess? && b.VectorAccess? && HasKind(leaf(a), k) && HasKind(leaf(b), k)
    ensures Eval(widen, Binary(NotEqual, a, b), leaf) == BoolVal(leaf(a) != leaf(b))
  {
    EvalBinary(widen, NotEqual, a, b, leaf);
    NotEqualMeans(widen, Sign(a), Sign(b), leaf(a), leaf(b), k);
  }

  /** The access that the visitor puts for a subscript inside the vector. */
  lemma AtAccess(l: Node, r: Node, idx: nat, ids: seq<nat>, m: Model, s: nat)
    requires Subscript(r, idx) == Some(s) && s < |ids| < Pow2(31)
    ensures At(idx, ids, m)(VectorAccess(l, r)) == m(ids[s])
  {
    hide Subscript, Pow2, FromInt;
    IndexIsSmall(Subscript(r, idx), |ids|);
  }

  /** The body v[r] != w[t]. */
  function Differing(v: Node, r: Node, w: Node, t: Node): Node {
    Binary(NotEqual, VectorAccess(v, r), VectorAccess(w, t))
  }

  /** Subscripts of an access at idx: s for the visitor of a vector of the given size, i for the user. */
  ghost predicate Chosen(r: Node, idx: nat, vecs: Vectors, m: Model, size: nat, s: nat, i: nat) {
    && IsBody(r) && InRange(r, idx, size) && Subscript(r, idx) == Some(s) && s < size < Pow2(31)
    && NumberAt(r, idx, vecs, m) == Some(i)
  }

  lemma ChosenInRange(l: Node, r: Node, idx: nat, vecs: Vectors, m: Model, size: nat, s: nat, i: nat)
    requires l.VectorExpr? && Chosen(r, idx, vecs, m, size, s, i)
    ensures IsBody(VectorAccess(l, r)) && InRange(VectorAccess(l, r), idx, size)
  {
    hide Pow2, FromInt, Subscript, NumberAt, IsIndex;
    IndexIsSmall(Subscript(r, idx), size);
  }

  /** v[r] != w[t] at idx, as the instance for the vector v and as the user reads it. */
  lemma Compared(v: Node, r: Node, w: Node, t: Node, idx: nat, vecs: Vectors, m: Model, k: Kind, s: nat, i: nat, u: nat,
      j: nat)
    requires v.VectorExpr? && w.VectorExpr? && ElementsFit(vecs(v.vid), m, k) && ElementsFit(vecs(w.vid), m, k)
    requires Chosen(r, idx, vecs, m, |vecs(v.vid)|, s, i) && i < |vecs(v.vid)|
    requires Chosen(t, idx, vecs, m, |vecs(v.vid)|, u, j) && j < |vecs(w.vid)|
    ensures var g, ids := Differing(v, r, w, t), vecs(v.vid);
      && Denote(Instance(g, idx, ids), m) == BoolVal(m(ids[s]) != m(ids[u]))
      && Eval(true, g, Read(idx, vecs, m)) == BoolVal(m(ids[i]) != m(vecs(w.vid)[j]))
  {
    hide Pow2, FromInt, ReadAt, Subscript, NumberAt, At, Read, Eval, IsIndex;
    var ids := vecs(v.vid);
    AtAccess(v, r, idx, ids, m, s);
    AtAccess(w, t, idx, ids, m, u);
    AccessReads(v, r, idx, vecs, m);
    AccessReads(w, t, idx, vecs, m);
    AccessesDiffer(false, VectorAccess(v, r), VectorAccess(w, t), At(idx, ids, m), k);
    AccessesDiffer(true, VectorAccess(v, r), VectorAccess(w, t), Read(idx, vecs, m), k);
    ChosenInRange(v, r, idx, vecs, m, |ids|, s, i);
    ChosenInRange(w, t, idx, vecs, m, |ids|, u, j);
    assert InRange(Differing(v, r, w, t), idx, |ids|) && IsBody(Differing(v, r, w, t));
    InstanceMeans(false, Differing(v, r, w, t), idx, ids, m);
  }

  /**
   v[x] != v[0] with a variable x: no instance can hold, because both accesses become the
   first element; as the user reads it, it holds where the selected element differs.
   */
  lemma VariableSubscriptDiffers(v: Node, x: Node, zero: Node, idx: nat, vecs: Vectors, m: Model, k: Kind, w: Word)
    requires v.VectorExpr? && x.VariableExpr? && zero == ConstantExpr(Literal(0, 32, true)) && m(x.id) == WordVal(w)
    requires 0 <= IntOf(x.sign, w) < |vecs(v.vid)| < Pow2(31) && ElementsFit(vecs(v.vid), m, k)
    ensures var g, ids := Differing(v, x, v, zero), vecs(v.vid);
      && Denote(Instance(g, idx, ids), m) == BoolVal(false)
      && Eval(true, g, Read(idx, vecs, m)) == BoolVal(m(ids[IntOf(x.sign, w)]) != m(ids[0]))
  {
    hide *;
    ZeroFits(32);
    LiteralIsChosen(0, 32, idx, vecs, m, |vecs(v.vid)|);
    VariableIsChosen(x, idx, vecs, m, w, |vecs(v.vid)|);
    Compared(v, x, v, zero, idx, vecs, m, k, 0, IntOf(x.sign, w), 0, 0);
  }

  lemma VariableIsChosen(x: Node, idx: nat, vecs: Vectors, m: Model, w: Word, size: nat)
    requires x.VariableExpr? && m(x.id) == WordVal(w) && 0 < size < Pow2(31) && IntOf(x.sign, w) >= 0
    ensures Chosen(x, idx, vecs, m, size, 0, IntOf(x.sign, w))
  {
    hide IntOf, Pow2;
    ReadVariable(x, idx, vecs, m);
  }

  lemma ReadVariable(x: Node, idx: nat, vecs: Vectors, m: Model)
    requires x.VariableExpr?
    ensures Read(idx, vecs, m)(x) == m(x.id)
  {
  }

  lemma LiteralIsChosen(i: nat, width: nat, idx: nat, vecs: Vectors, m: Model, size: nat)
    requires i < size < Pow2(31) && 1 < width <= 64 && FitsIn(true, width, i) && IsInt(i)
    ensures Chosen(ConstantExpr(Literal(i, width, true)), idx, vecs, m, size, i, i)
  {
    hide Pow2, FitsIn, IsInt, Literal, ConstantNumber, AsInt, ConstantVal, IsWord, IntOf;
    var c := Literal(i, width, true);
    LiteralIsNumber(i, width, true);
    LiteralSubscript(i, width, true);
    ConstantIs(c);
    assert Eval(true, ConstantExpr(c), Read(idx, vecs, m)) == ConstantVal(c);
  }

  lemma ZeroFits(width: nat)
    requires width > 1
    ensures FitsIn(true, width, 0) && IsInt(0)
  {
    hide Pow2;
  }

  /**
   v[i] != w[i] over two vectors: no instance can hold, because both accesses go to the
   vector that is unrolled; as the user reads it, it holds where the elements differ.
   */
  lemma ForeignVectorDiffers(v: Node, w: Node, p: nat, idx: nat, vecs: Vectors, m: Model, k: Kind)
    requires v.VectorExpr? && w.VectorExpr? && idx < |vecs(v.vid)| < Pow2(31) && idx < |vecs(w.vid)| < Pow2(31)
    requires ElementsFit(vecs(v.vid), m, k) && ElementsFit(vecs(w.vid), m, k)
    ensures var g := Differing(v, Placeholder(p), w, Placeholder(p));
      && Denote(Instance(g, idx, vecs(v.vid)), m) == BoolVal(false)
      && Eval(true, g, Read(idx, vecs, m)) == BoolVal(m(vecs(v.vid)[idx]) != m(vecs(w.vid)[idx]))
  {
    hide *;
    IndexIsChosen(p, idx, vecs, m, |vecs(v.vid)|);
    Compared(v, Placeholder(p), w, Placeholder(p), idx, vecs, m, k, idx, idx, idx, idx);
  }

  /**
   Of one access by the index and constants, inside both vectors: instance and user have the
   same value in every model exactly when the two elements are the same variable.
   */
  lemma AccessExactly(l: Node, r: Node, idx: nat, ids: seq<nat>, vecs: Vectors)
    requires l.VectorExpr? && IsClosed(r) && |ids| < Pow2(31) && InVector(Subscript(r, idx), |ids|)
    requires 0 <= ReadNumber(r, idx) < |vecs(l.vid)|
    ensures (forall m: Model ::
        Denote(Instance(VectorAccess(l, r), idx, ids), m) == Eval(true, VectorAccess(l, r), Read(idx, vecs, m)))
      <==> ids[Subscript(r, idx).value] == vecs(l.vid)[ReadNumber(r, idx)]
  {
    var x, y := ids[Subscript(r, idx).value], vecs(l.vid)[ReadNumber(r, idx)];
    forall m: Model
      ensures Denote(Instance(VectorAccess(l, r), idx, ids), m) == m(x)
      ensures Eval(true, VectorAccess(l, r), Read(idx, vecs, m)) == m(y)
    {
      AccessValues(l, r, idx, ids, vecs, m);
    }
    if x != y {
      var m: Model := (id: nat) => BoolVal(id == x);
      assert m(x) != m(y);
    }
  }

  lemma AccessValues(l: Node, r: Node, idx: nat, ids: seq<nat>, vecs: Vectors, m: Model)
    requires l.VectorExpr? && IsClosed(r) && |ids| < Pow2(31) && InVector(Subscript(r, idx), |ids|)
    requires 0 <= ReadNumber(r, idx) < |vecs(l.vid)|
    ensures Denote(Instance(VectorAccess(l, r), idx, ids), m) == m(ids[Subscript(r, idx).value])
    ensures Eval(true, VectorAccess(l, r), Read(idx, vecs, m)) == m(vecs(l.vid)[ReadNumber(r, idx)])
  {
    ReadIsIndexed(idx, vecs, m);
    hide Subscript, Pow2, FromInt, ReadNumber, UserNumber, IsIndexed, IsClosed, ReadAt;
    IndexIsSmall(Subscript(r, idx), |ids|);
    AccessMeans(false, l, r, idx, ids, m);
    AtAccess(l, r, idx, ids, m, Subscript(r, idx).value);
    AccessReads(l, r, idx, vecs, m);
    ClosedNumber(r, idx, Read(idx, vecs, m));
  }

  lemma IndexIsChosen(p: nat, idx: nat, vecs: Vectors, m: Model, size: nat)
    requires idx < size < Pow2(31)
    ensures Chosen(Placeholder(p), idx, vecs, m, size, idx, idx)
  {
    hide Pow2, FromInt, Num, Signed, AsInt;
    IndexIsRight(idx);
    assert Eval(true, Placeholder(p), Read(idx, vecs, m)) == WordVal(FromInt(idx, 32));
  }

  // ----- Divisions -----

  /**
   A division stops the expansion exactly when the subscript of the divisor is zero, or the
   quotient does not fit into an int. Variables and accesses have subscript zero.
   */
  lemma DivisionIsUndefinedExactly(op: BinaryOp, l: Node, r: Node, idx: nat)
    requires op == Devide || op == Modulo
    requires Subscript(l, idx).Some? && Subscript(r, idx).Some?
    ensures Subscript(Binary(op, l, r), idx) == None
      <==> (Subscript(r, idx).value == 0
        || Checked(D.SignedQuotient(Subscript(l, idx).value, Subscript(r, idx).value)) == None)
    ensures r.VariableExpr? || r.VectorAccess? ==> Subscript(r, idx).value == 0
  {
    hide AsInt, D.SignedQuotient;
  }

  /** Somewhere in the tree a variable or an element is a divisor. */
  predicate DividesByRead(n: Node) {
    match n
    case Unary(_, child) => DividesByRead(child)
    case Inside(child, _) => DividesByRead(child)
    case Extend(child, _) => DividesByRead(child)
    case Binary(op, l, r) =>
      ((op == Devide || op == Modulo) && (r.VariableExpr? || r.VectorAccess?)) || DividesByRead(l) || DividesByRead(r)
    case VectorAccess(l, r) => DividesByRead(l) || DividesByRead(r)
    case IfThenElse(a, b, c) => DividesByRead(a) || DividesByRead(b) || DividesByRead(c)
    case ForEach(_, r) => DividesByRead(r)
    case Bitslice(child, _, _) => DividesByRead(child)
    case _ => false
  }

  /**
   Such a body stops the expansion at every index, wherever the division stands, because a
   subscript is computed beside every expression.
   */
  lemma {:induction false} DivisionByReadStops(n: Node, idx: nat)
    requires DividesByRead(n)
    ensures Subscript(n, idx) == None
  {
    hide UnarySub, AsInt, BinarySub, D.SignedQuotient;
    match n
    case Unary(_, child) => DivisionByReadStops(child, idx);
    case Inside(child, _) => DivisionByReadStops(child, idx);
    case Extend(child, _) => DivisionByReadStops(child, idx);
    case Binary(op, l, r) =>
      if DividesByRead(l) {
        DivisionByReadStops(l, idx);
      } else if DividesByRead(r) {
        DivisionByReadStops(r, idx);
      } else if Subscript(l, idx).Some? && Subscript(r, idx).Some? {
        DivisionIsUndefinedExactly(op, l, r, idx);
      }
    case VectorAccess(l, r) =>
      if DividesByRead(l) {
        DivisionByReadStops(l, idx);
      } else {
        DivisionByReadStops(r, idx);
      }
    case IfThenElse(a, b, c) =>
      if DividesByRead(a) {
        DivisionByReadStops(a, idx);
      } else if DividesByRead(b) {
        DivisionByReadStops(b, idx);
      } else {
        DivisionByReadStops(c, idx);
      }
    case ForEach(_, r) => DivisionByReadStops(r, idx);
    case Bitslice(child, _, _) => DivisionByReadStops(child, idx);
    case _ =>
  }
}
