/**
 Vectors with concrete constraints: distinct elements before and after a loop, and neighbours
 that differ.
 */
module VectorExamples {
  import opened Bits
  import opened Ast
  import opened FixWidth
  import opened Partitions
  import opened Satisfiability
  import opened ForEachExpansion
  import opened Numbers
  import opened Literals
  import opened Subscripts
  import opened ForEachMeaning
  import opened VectorMeaning
  import M = MetaSMT

  // ----- Distinct elements before any loop -----

  /** The literal 0 of type int. */
  function Zero(): Node { ConstantExpr(Literal(0, 32, true)) }

  /** v[i] != 0 in a vector of words. */
  predicate IsNonZeroLoop(g: Node, i: Node) {
    && g.ForEach? && g.lhs.VectorExpr? && IsWord(g.lhs.bitsize, g.lhs.sign) && i.Placeholder?
    && g.rhs == Binary(NotEqual, VectorAccess(g.lhs, i), Zero())
  }

  /** The element x is not 0, with the widths fixed. */
  function FixedNonZero(x: Node, bitsize: nat): Node { Binary(NotEqual, x, ExtendBy(Zero(), 1, bitsize)) }

  /** The new elements of a vector without elements. */
  ghost predicate AreNew(vars: seq<Node>, ids: seq<nat>, next: nat) {
    vars == Resized([], |ids|, next) && forall j | 0 <= j < |ids| :: ids[j] == next + j
  }

  lemma NewAreBits(vars: seq<Node>, ids: seq<nat>, next: nat)
    requires AreNew(vars, ids, next)
    ensures Named(vars, ids) && AllTyped(vars, BoolKind)
  {
  }

  /**
   Three and more new elements cannot differ, because they are single bits; and a loop over
   words that comes later finds them declared as truth values.
   */
  lemma UniqueFirstFails(g: Node, i: Node, next: nat, c: Constraint, d: Constraint, ids: seq<nat>, vars: seq<Node>)
    requires IsNonZeroLoop(g, i) && c.expr == Fix(Unique(g.lhs)) && d.expr == Fix(g)
    requires 3 <= |ids| < Pow2(31) && AreNew(vars, ids, next)
    ensures forall m: Model :: ElementsFit(ids, m, BoolKind) ==> !Holds(Pairs(vars), m)
    ensures forall scope: M.Scope :: !Compiles([c, d], ids, vars, scope)
  {
    NewAreBits(vars, ids, next);
    forall m: Model | ElementsFit(ids, m, BoolKind)
      ensures !Holds(Pairs(vars), m)
    {
      PairsMean(vars, ids, BoolKind, m);
      ThreeBits(ids, m);
    }
    FixUnique(Unique(g.lhs));
    FixUnique(g);
    hide Fix, Pairs, Instances, AllTyped, Pow2, AreNew, IsNonZeroLoop, Named;
    forall scope: M.Scope
      ensures !Compiles([c, d], ids, vars, scope)
    {
      assert [c, d][..1] == [c] && [c][..0] == [];
      CompilesLast([c, d], ids, vars, scope);
      CompilesLast([c], ids, vars, scope);
      NotBoth(g, i, next, ids, vars, scope);
    }
  }

  lemma ThreeBits(ids: seq<nat>, m: Model)
    requires |ids| >= 3 && ElementsFit(ids, m, BoolKind)
    ensures !Distinct(ids, m)
  {
    assert m(ids[0]).BoolVal? && m(ids[1]).BoolVal? && m(ids[2]).BoolVal?;
    assert m(ids[0]) == m(ids[1]) || m(ids[0]) == m(ids[2]) || m(ids[1]) == m(ids[2]);
  }

  /** No scope declares the first element both as a truth value and as a word. */
  lemma NotBoth(g: Node, i: Node, next: nat, ids: seq<nat>, vars: seq<Node>, scope: M.Scope)
    requires IsNonZeroLoop(g, i) && 3 <= |ids| < Pow2(31) && AreNew(vars, ids, next)
    ensures !(AllAssertable(Pairs(vars), scope) && AllAssertable(Instances(Fix(g), |ids|, ids), scope))
  {
    assert Binary(NotEqual, vars[0], vars[1]) in Pairs(vars);
    NewAreBits(vars, ids, next);
    NonZeroInstance(g, i, ids);
    hide Pow2, Fix, Instance, InRange, AreNew, IsNonZeroLoop;
    if AllAssertable(Pairs(vars), scope) && AllAssertable(Instances(Fix(g), |ids|, ids), scope) {
      assert Assertable(Binary(NotEqual, vars[0], vars[1]), scope);
      assert Assertable(Instance(Fix(g), 0, ids), scope);
      SidesScoped(vars[0], vars[1], scope);
      SidesScoped(VariableExpr(ids[0], g.lhs.bitsize, g.lhs.sign), ExtendBy(Zero(), 1, g.lhs.bitsize), scope);
      assert false;
    }
  }

  lemma SidesScoped(x: Node, y: Node, scope: M.Scope)
    requires M.Scoped(Binary(NotEqual, x, y), scope)
    ensures x.VariableExpr? ==> x.id in scope && scope[x.id] == TerminalKind(x.bitsize, x.sign)
  {
  }

  lemma NonZeroInstance(g: Node, i: Node, ids: seq<nat>)
    requires IsNonZeroLoop(g, i) && 0 < |ids| < Pow2(31)
    ensures Instance(Fix(g), 0, ids) in Instances(Fix(g), |ids|, ids)
    ensures Instance(Fix(g), 0, ids) == FixedNonZero(VariableExpr(ids[0], g.lhs.bitsize, g.lhs.sign), g.lhs.bitsize)
  {
    hide *;
    FixNonZero(g, i);
    NonZeroTouches(g, i, 0, |ids|);
    NonZeroAt(g, i, 0, ids);
    InInstances(Fix(g), 0, ids);
  }

  lemma InInstances(g: Node, j: nat, ids: seq<nat>)
    requires j < |ids| && InRange(g, j, |ids|)
    ensures Instance(g, j, ids) in Instances(g, |ids|, ids)
  {
  }

  lemma NonZeroAt(g: Node, i: Node, j: nat, ids: seq<nat>)
    requires IsNonZeroLoop(g, i) && Subscript(i, j) == Some(j) && j < |ids| && IsIndex(Some(j), |ids|)
    requires Fix(g) == ForEach(g.lhs, FixedNonZero(VectorAccess(g.lhs, i), g.lhs.bitsize))
    ensures InRange(Fix(g), j, |ids|)
    ensures Instance(Fix(g), j, ids) == FixedNonZero(VariableExpr(ids[j], g.lhs.bitsize, g.lhs.sign), g.lhs.bitsize)
  {
    hide Subscript, IsIndex, Fix, Literal;
    var access, zero := VectorAccess(g.lhs, i), ExtendBy(Zero(), 1, g.lhs.bitsize);
    assert InRange(access, j, |ids|) && Instance(access, j, ids) == VariableExpr(ids[j], g.lhs.bitsize, g.lhs.sign);
    ExtendedInstance(Zero(), 1, g.lhs.bitsize, j, ids);
    var body := Binary(NotEqual, access, zero);
    assert InRange(body, j, |ids|) && Instance(body, j, ids) == Binary(NotEqual, Instance(access, j, ids), zero);
  }

  lemma ExtendedInstance(n: Node, from: nat, to: nat, j: nat, ids: seq<nat>)
    requires n.ConstantExpr?
    ensures var e := ExtendBy(n, from, to); InRange(e, j, |ids|) && Instance(e, j, ids) == e
  {
  }

  lemma ZeroIs()
    ensures Zero() == ConstantExpr(Constant(0, 1, false))
  {
  }

  lemma FixNonZero(g: Node, i: Node)
    requires IsNonZeroLoop(g, i)
    ensures Fix(g) == ForEach(g.lhs, FixedNonZero(VectorAccess(g.lhs, i), g.lhs.bitsize))
  {
    ZeroIs();
    hide Zero;
    var access := VectorAccess(g.lhs, i);
    FixAccess(access);
    FixConstant(Zero());
    assert ExtendBy(access, g.lhs.bitsize, 1) == access;
    assert Fix(g.rhs) == Binary(NotEqual, ExtendBy(Fix(access), Recorded(access), Recorded(Zero())),
      ExtendBy(Fix(Zero()), Recorded(Zero()), Recorded(access)));
    assert g == ForEach(g.lhs, g.rhs);
  }

  lemma FixAccess(access: Node)
    requires access.VectorAccess? && access.lhs.VectorExpr? && access.rhs.Placeholder?
    ensures Fix(access) == access && Recorded(access) == access.lhs.bitsize
  {
  }

  lemma FixConstant(n: Node)
    requires n.ConstantExpr?
    ensures Fix(n) == n && Recorded(n) == n.constant.bitsize
  {
  }

  lemma NonZeroTouches(g: Node, i: Node, j: nat, size: nat)
    requires IsNonZeroLoop(g, i) && j < size < Pow2(31)
    ensures Subscript(i, j) == Some(j) && IsIndex(Some(j), size) && Touches(g.rhs, j, size, j)
    ensures SubscriptsSelect(g.rhs, j)
  {
    PlaceholderSelects(i, j);
    IndexIsSmall(Some(j), size);
    NonZeroSelects(g, i, j, size);
  }

  lemma NonZeroSelects(g: Node, i: Node, j: nat, size: nat)
    requires IsNonZeroLoop(g, i) && Subscript(i, j) == Some(j) && IsIndex(Some(j), size) && Selects(i, j)
    ensures Touches(g.rhs, j, size, j) && SubscriptsSelect(g.rhs, j)
  {
    hide Subscript, IsIndex, Selects;
    var access := VectorAccess(g.lhs, i);
    assert Touches(access, j, size, j) && SubscriptsSelect(access, j);
  }

  lemma PlaceholderSelects(i: Node, j: nat)
    requires i.Placeholder? && j < Pow2(31)
    ensures Subscript(i, j) == Some(j) && Selects(i, j)
  {
    hide Pow2, FromInt, Num, Signed, AsInt;
    IndexIsRight(j);
  }

  lemma NonZeroScoped(g: Node, i: Node, scope: M.Scope)
    requires IsNonZeroLoop(g, i)
    ensures IsScoped(g, scope, g.lhs.vid, WordKind(g.lhs.bitsize))
  {
    ZeroIs();
    hide Zero;
    var access, zero, k := VectorAccess(g.lhs, i), Zero(), WordKind(g.lhs.bitsize);
    assert KindOf(true, access) == Some(k) && Recorded(access) == g.lhs.bitsize;
    assert KindOf(true, zero) == Some(WordKind(1)) && Recorded(zero) == 1;
    assert WidenedKind(NotEqual, access, zero, k, WordKind(1)) == Some(BoolKind);
    assert KindOf(true, Binary(NotEqual, access, zero)) == Some(BoolKind);
    assert BodyScoped(access, scope, g.lhs.vid, k);
    assert BodyScoped(Binary(NotEqual, access, zero), scope, g.lhs.vid, k);
  }

  /** With the loop first, the same constraints compile. */
  lemma LoopFirstCompiles(g: Node, i: Node, next: nat, c: Constraint, d: Constraint, ids: seq<nat>, vars: seq<Node>,
      scope: M.Scope)
    requires IsNonZeroLoop(g, i) && c.expr == Fix(Unique(g.lhs)) && d.expr == Fix(g)
    requires |ids| < Pow2(31) && AreNew(vars, ids, next) && Declares(scope, ids, WordKind(g.lhs.bitsize))
    requires M.KindsOk(scope)
    ensures Compiles([d, c], ids, vars, scope)
  {
    var k, gs := WordKind(g.lhs.bitsize), [g, Unique(g.lhs)];
    NewAreBits(vars, ids, next);
    NonZeroScoped(g, i, scope);
    hide Pow2, IsScoped, Fix, Compiles, Declares, Touches, TouchedThrough, AreNew, M.KindsOk, IsNonZeroLoop;
    BothScoped(g, d, c, scope, k);
    forall j | 0 <= j < |ids|
      ensures TouchedThrough([g], |ids|, j)
    {
      NonZeroTouches(g, i, j, |ids|);
      TouchedByFirst(g, j, |ids|);
    }
    hide *;
    InTime(g, vars, ids, k);
    UniqueTypedExactly([d, c], gs, scope, g.lhs.vid, k, ids, vars);
    CompilesExactly([d, c], gs, scope, g.lhs.vid, k, ids, vars);
  }

  /** A loop, and distinct elements after it. */
  lemma BothScoped(g: Node, d: Constraint, c: Constraint, scope: M.Scope, k: Kind)
    requires g.ForEach? && g.lhs.VectorExpr? && c.expr == Fix(Unique(g.lhs)) && d.expr == Fix(g)
    requires IsScoped(g, scope, g.lhs.vid, k)
    ensures AllScoped([d, c], [g, Unique(g.lhs)], scope, g.lhs.vid, k)
  {
    hide Fix, KindOf;
    assert IsScoped(Unique(g.lhs), scope, g.lhs.vid, k);
  }

  lemma TouchedByFirst(g: Node, j: nat, size: nat)
    requires g.ForEach? && j < size && Touches(g.rhs, j, size, j)
    ensures TouchedThrough([g], size, j)
  {
    hide Touches;
    assert TouchedBy([g][0].rhs, size, size, j);
  }

  lemma InTime(g: Node, vars: seq<Node>, ids: seq<nat>, k: Kind)
    requires g.ForEach? && |vars| == |ids| && forall j | 0 <= j < |ids| :: TouchedThrough([g], |ids|, j)
    ensures forall n | 0 <= n < |[g, Unique(g.lhs)]| :: TouchedInTime([g, Unique(g.lhs)], n, vars, k)
  {
    hide TouchedThrough, HasType;
    assert [g, Unique(g.lhs)][..1] == [g];
  }

  // ----- Neighbours that differ -----

  /** _i - 1. */
  function Previous(p: nat): Node { Offset(Minus, p, 1, 32, true) }

  /** The loop over v with the body v[_i] != v[_i - 1]. */
  predicate IsNeighbourLoop(g: Node, p: nat) {
    && g.ForEach? && g.lhs.VectorExpr? && g.lhs.bitsize > 0
    && g.rhs == Differing(g.lhs, Placeholder(p), g.lhs, Previous(p))
  }

  lemma NeighbourSubscripts(p: nat, i: nat)
    requires i < Pow2(31)
    ensures Selects(Placeholder(p), i) && Subscript(Placeholder(p), i) == Some(i)
    ensures Selects(Previous(p), i) && Subscript(Previous(p), i) == Some(i - 1)
  {
    PlaceholderSelects(Placeholder(p), i);
    hide Pow2, AsInt, Subscript, Previous;
    Pow2Grows(31);
    PredecessorSelects(p, 1, i);
  }

  lemma NeighbourScoped(g: Node, p: nat, scope: M.Scope)
    requires IsNeighbourLoop(g, p)
    ensures IsScoped(g, scope, g.lhs.vid, TerminalKind(g.lhs.bitsize, g.lhs.sign))
  {
    hide Literal;
    var k := TerminalKind(g.lhs.bitsize, g.lhs.sign);
    var x, y := VectorAccess(g.lhs, Placeholder(p)), VectorAccess(g.lhs, Previous(p));
    assert KindOf(true, x) == Some(k) == KindOf(true, y) && Recorded(x) == Recorded(y);
    assert KindOf(true, Binary(NotEqual, x, y)) == WidenedKind(NotEqual, x, y, k, k);
    assert BodyScoped(Previous(p), scope, g.lhs.vid, k);
    assert BodyScoped(x, scope, g.lhs.vid, k) && BodyScoped(y, scope, g.lhs.vid, k);
  }

  /** All subscripts of the loop select, at every index of a vector with less than 2^31 elements. */
  lemma NeighbourWritten(g: Node, p: nat, scope: M.Scope, size: nat)
    requires IsNeighbourLoop(g, p) && size < Pow2(31)
    ensures IsWritten(g, scope, g.lhs.vid, TerminalKind(g.lhs.bitsize, g.lhs.sign), size)
  {
    NeighbourScoped(g, p, scope);
    hide Pow2, BodyScoped, KindOf, Selects, Previous;
    forall i | 0 <= i < size
      ensures SubscriptsSelect(g.rhs, i)
    {
      NeighbourSubscripts(p, i);
      AccessesSelect(g.lhs, Placeholder(p), Previous(p), i);
    }
  }

  lemma AccessesSelect(v: Node, r: Node, t: Node, i: nat)
    requires Selects(r, i) && Selects(t, i)
    ensures SubscriptsSelect(Differing(v, r, v, t), i)
  {
    hide Selects;
  }

  lemma NeighbourTouches(g: Node, p: nat, i: nat, size: nat)
    requires IsNeighbourLoop(g, p) && i < size < Pow2(31)
    ensures Touches(g.rhs, i, size, i)
  {
    hide Pow2, Subscript, Selects, IsIndex, Touches, Previous, Differing;
    NeighbourSubscripts(p, i);
    IndexIsSmall(Some(i), size);
    LeftTouches(g.lhs, Placeholder(p), Previous(p), i, size);
  }

  lemma LeftTouches(v: Node, r: Node, t: Node, i: nat, size: nat)
    requires Subscript(r, i) == Some(i) && IsIndex(Some(i), size)
    ensures Touches(Differing(v, r, v, t), i, size, i)
  {
    hide Subscript, IsIndex;
    assert Touches(VectorAccess(v, r), i, size, i);
  }

  /** Values of neighbours differ. */
  ghost predicate NeighboursDiffer(ids: seq<nat>, m: Model) {
    forall i | 0 < i < |ids| :: m(ids[i]) != m(ids[i - 1])
  }

  /** The first element has no predecessor; every other element differs from its own. */
  lemma NeighbourAt(g: Node, p: nat, i: nat, vecs: Vectors, m: Model, k: Kind)
    requires IsNeighbourLoop(g, p) && i < |vecs(g.lhs.vid)| < Pow2(31) && ElementsFit(vecs(g.lhs.vid), m, k)
    ensures var ids := vecs(g.lhs.vid);
      && (ReadsInside(g.rhs, i, vecs, m) <==> i > 0)
      && (i > 0 ==> Eval(true, g.rhs, Read(i, vecs, m)) == BoolVal(m(ids[i]) != m(ids[i - 1])))
  {
    var x, y := VectorAccess(g.lhs, Placeholder(p)), VectorAccess(g.lhs, Previous(p));
    hide *;
    assert g.lhs.VectorExpr? && g.rhs == Binary(NotEqual, x, y) by { NeighbourShape(g, p); }
    NeighbourSubscripts(p, i);
    AccessByOffset(g.lhs, Placeholder(p), i, i, vecs, m);
    AccessByOffset(g.lhs, Previous(p), i, i - 1, vecs, m);
    BothInside(x, y, i, vecs, m);
    if i > 0 {
      BothFit(vecs(g.lhs.vid), m, k, i);
      AccessesDiffer(true, x, y, Read(i, vecs, m), k);
    }
  }

  lemma NeighbourShape(g: Node, p: nat)
    requires IsNeighbourLoop(g, p)
    ensures g.lhs.VectorExpr?
    ensures g.rhs == Binary(NotEqual, VectorAccess(g.lhs, Placeholder(p)), VectorAccess(g.lhs, Previous(p)))
  {
    hide Previous;
  }

  lemma BothFit(ids: seq<nat>, m: Model, k: Kind, i: nat)
    requires ElementsFit(ids, m, k) && 0 < i < |ids|
    ensures HasKind(m(ids[i]), k) && HasKind(m(ids[i - 1]), k)
  {
  }

  lemma BothInside(x: Node, y: Node, i: nat, vecs: Vectors, m: Model)
    ensures ReadsInside(Binary(NotEqual, x, y), i, vecs, m) <==>
      ReadsInside(x, i, vecs, m) && ReadsInside(y, i, vecs, m)
  {
    hide NumberAt;
  }

  /** An access by a subscript that selects the place s. */
  lemma AccessByOffset(v: Node, r: Node, i: nat, s: int, vecs: Vectors, m: Model)
    requires v.VectorExpr? && Selects(r, i) && Subscript(r, i) == Some(s) && |vecs(v.vid)| < Pow2(31)
    ensures ReadsInside(VectorAccess(v, r), i, vecs, m) <==> 0 <= s < |vecs(v.vid)|
    ensures 0 <= s < |vecs(v.vid)| ==> Read(i, vecs, m)(VectorAccess(v, r)) == m(vecs(v.vid)[s])
  {
    var size := |vecs(v.vid)|;
    SelectsIsClosed(r, i);
    ReadIsIndexed(i, vecs, m);
    hide Selects, Subscript, Pow2, NumberAt, IsIndex, ReadAt, IsClosed, FromInt;
    ClosedIsInside(r, i, size, vecs, m);
    NumbersAlike(r, i, size, vecs, m);
    IndexIsSmall(Some(s), size);
    AccessReads(v, r, i, vecs, m);
  }

  /** What the loop over neighbours asks for, as it is written. */
  lemma NeighbourLoopHolds(g: Node, p: nat, vecs: Vectors, m: Model, k: Kind)
    requires IsNeighbourLoop(g, p) && |vecs(g.lhs.vid)| < Pow2(31) && ElementsFit(vecs(g.lhs.vid), m, k)
    ensures LoopHolds(g.rhs, g.lhs.vid, vecs, m) <==> NeighboursDiffer(vecs(g.lhs.vid), m)
  {
    hide Pow2, Previous, Differing, Eval, Read, ReadsInside, ElementsFit;
    var ids := vecs(g.lhs.vid);
    forall i | 0 <= i < |ids|
      ensures ReadsInside(g.rhs, i, vecs, m) <==> i > 0
      ensures i > 0 ==> Eval(true, g.rhs, Read(i, vecs, m)) == BoolVal(m(ids[i]) != m(ids[i - 1]))
    {
      NeighbourAt(g, p, i, vecs, m, k);
    }
    if LoopHolds(g.rhs, g.lhs.vid, vecs, m) {
      forall i | 0 < i < |ids|
        ensures m(ids[i]) != m(ids[i - 1])
      {
        assert ReadsInside(g.rhs, i, vecs, m);
      }
    }
    if NeighboursDiffer(ids, m) {
      forall i | 0 <= i < |ids| && ReadsInside(g.rhs, i, vecs, m)
        ensures Eval(true, g.rhs, Read(i, vecs, m)) == BoolVal(true)
      {
        assert m(ids[i]) != m(ids[i - 1]);
      }
    }
  }

  /**
   The list of this loop and distinct elements meets all that the vector solver asks of
   constraints as they are written, so it is solved exactly when the elements can be distinct.
   */
  lemma NeighboursAsWritten(g: Node, p: nat, c: Constraint, d: Constraint, scope: M.Scope, vecs: Vectors,
      vars: seq<Node>)
    requires IsNeighbourLoop(g, p) && c.expr == Fix(Unique(g.lhs)) && d.expr == Fix(g) && Named(vars, vecs(g.lhs.vid))
    requires |vars| < Pow2(31) && Declares(scope, vecs(g.lhs.vid), TerminalKind(g.lhs.bitsize, g.lhs.sign))
    ensures AsWritten([d, c], [g, Unique(g.lhs)], scope, g.lhs.vid, TerminalKind(g.lhs.bitsize, g.lhs.sign), vecs, vars)
  {
    var k, gs, ids := TerminalKind(g.lhs.bitsize, g.lhs.sign), [g, Unique(g.lhs)], vecs(g.lhs.vid);
    NeighbourIsLoop(g, p);
    assert |ids| == |vars|;
    hide *;
    NeighbourScoped(g, p, scope);
    NeighbourWritten(g, p, scope, |ids|);
    BothScoped(g, d, c, scope, k);
    BothWritten(g, d, c, scope, k, |ids|);
    NeighboursTouched(g, p, |ids|);
    InTime(g, vars, ids, k);
    UniqueTypedExactly([d, c], gs, scope, g.lhs.vid, k, ids, vars);
    AreAsWritten([d, c], gs, scope, g.lhs.vid, k, vecs, vars);
  }

  lemma AreAsWritten(cs: seq<Constraint>, gs: seq<Node>, scope: M.Scope, vid: nat, k: Kind, vecs: Vectors,
      vars: seq<Node>)
    requires AllWritten(cs, gs, scope, vid, k, |vars|) && UniqueTyped(cs, vars, k)
    requires Named(vars, vecs(vid)) && Declares(scope, vecs(vid), k)
    ensures AsWritten(cs, gs, scope, vid, k, vecs, vars)
  {
  }

  lemma BothWritten(g: Node, d: Constraint, c: Constraint, scope: M.Scope, k: Kind, size: nat)
    requires g.ForEach? && g.lhs.VectorExpr? && IsWritten(g, scope, g.lhs.vid, k, size)
    requires AllScoped([d, c], [g, Unique(g.lhs)], scope, g.lhs.vid, k)
    ensures AllWritten([d, c], [g, Unique(g.lhs)], scope, g.lhs.vid, k, size)
  {
    hide Fix, KindOf, IsLoopBody;
    var cs, gs := [d, c], [g, Unique(g.lhs)];
    assert cs[0].expr == Fix(gs[0]) && cs[1].expr == Fix(gs[1]);
  }

  lemma NeighboursTouched(g: Node, p: nat, size: nat)
    requires IsNeighbourLoop(g, p) && size < Pow2(31)
    ensures forall j | 0 <= j < size :: TouchedThrough([g], size, j)
  {
    hide Pow2, Touches, TouchedThrough, Previous, Differing;
    forall j | 0 <= j < size
      ensures TouchedThrough([g], size, j)
    {
      NeighbourTouches(g, p, j, size);
      TouchedByFirst(g, j, size);
    }
  }

  lemma NeighbourIsLoop(g: Node, p: nat)
    requires IsNeighbourLoop(g, p)
    ensures g.ForEach? && g.lhs.VectorExpr?
  {
  }
}
