/**
 What the constraints over one vector become, and what that means: the formulas can be
 compiled exactly when every unique constraint meets elements of the right type, and then
 they mean the constraints as written.
 */
module VectorMeaning {
  import opened Ast
  import opened Partitions
  import opened Satisfiability
  import opened ForEachExpansion
  import opened Subscripts
  import opened ForEachMeaning
  import opened FixWidth
  import M = MetaSMT

  // ----- What the constraints become -----

  /** The elements after the instances 0 .. n - 1 of a tree were made. */
  function TypedBy(expr: Node, n: nat, vars: seq<Node>): (r: seq<Node>)
    ensures |r| == |vars|
  {
    if n == 0 then vars else Typed(expr, n - 1, TypedBy(expr, n - 1, vars))
  }

  function TypedThrough(cs: seq<Constraint>, vars: seq<Node>): (r: seq<Node>)
    ensures |r| == |vars|
  {
    if cs == [] then vars
    else
      var c, v := cs[|cs| - 1], TypedThrough(cs[..|cs| - 1], vars);
      if c.expr.Unique? then v else TypedBy(c.expr, |vars|, v)
  }

  /** Every two elements differ. */
  function Pairs(vars: seq<Node>): Formulas {
    set i, j | 0 <= i < |vars| && i < j < |vars| :: Binary(NotEqual, vars[i], vars[j])
  }

  function FormulasOf(c: Constraint, ids: seq<nat>, vars: seq<Node>): Formulas {
    if c.expr.Unique? then Pairs(vars) else Instances(c.expr, |ids|, ids)
  }

  /** The formulas of the hard, or of the soft, constraints. */
  function AllFormulas(cs: seq<Constraint>, soft: bool, ids: seq<nat>, vars: seq<Node>): Formulas {
    if cs == [] then {}
    else
      var init, c := cs[..|cs| - 1], cs[|cs| - 1];
      AllFormulas(init, soft, ids, vars) + if c.soft == soft then FormulasOf(c, ids, TypedThrough(init, vars)) else {}
  }

  lemma {:induction false} TypedByNamed(expr: Node, n: nat, vars: seq<Node>, ids: seq<nat>)
    requires Named(vars, ids)
    ensures Named(TypedBy(expr, n, vars), ids)
  {
    hide Typed, Named;
    if n > 0 {
      TypedByNamed(expr, n - 1, vars, ids);
      TypedKeepsNames(expr, n - 1, TypedBy(expr, n - 1, vars), ids);
    }
  }

  lemma {:induction false} ThroughNamed(cs: seq<Constraint>, vars: seq<Node>, ids: seq<nat>)
    requires Named(vars, ids)
    ensures Named(TypedThrough(cs, vars), ids)
  {
    if cs != [] {
      ThroughNamed(cs[..|cs| - 1], vars, ids);
      TypedByNamed(cs[|cs| - 1].expr, |vars|, TypedThrough(cs[..|cs| - 1], vars), ids);
    }
  }

  lemma AllFormulasLast(cs: seq<Constraint>, soft: bool, ids: seq<nat>, vars: seq<Node>)
    requires cs != []
    ensures var n := |cs| - 1;
      AllFormulas(cs, soft, ids, vars) == if cs[n].soft == soft then
        AllFormulas(cs[..n], soft, ids, vars) + FormulasOf(cs[n], ids, TypedThrough(cs[..n], vars))
      else AllFormulas(cs[..n], soft, ids, vars)
  {
  }

  lemma HoldsUnion(fs: Formulas, gs: Formulas, m: Model)
    ensures Holds(fs + gs, m) <==> Holds(fs, m) && Holds(gs, m)
  {
  }

  // ----- The types of the elements -----

  /** Distinct elements, or a loop whose body is a truth value over declared variables and one vector of kind k. */
  predicate IsScoped(g: Node, scope: M.Scope, vid: nat, k: Kind) {
    g.Unique? || (g.ForEach? && KindOf(true, g.rhs) == Some(BoolKind) && BodyScoped(g.rhs, scope, vid, k))
  }

  /** The constraints cs were made from gs by fixing the widths. */
  predicate AllScoped(cs: seq<Constraint>, gs: seq<Node>, scope: M.Scope, vid: nat, k: Kind) {
    |cs| == |gs| && forall i | 0 <= i < |cs| :: cs[i].expr == Fix(gs[i]) && IsScoped(gs[i], scope, vid, k)
  }

  /** The constraint g as written, of which all subscripts select the element that the user reads. */
  ghost predicate IsWritten(g: Node, scope: M.Scope, vid: nat, k: Kind, size: nat) {
    IsScoped(g, scope, vid, k) && (g.ForEach? ==> IsLoopBody(g.rhs, scope, vid, k, size))
  }

  ghost predicate AllWritten(cs: seq<Constraint>, gs: seq<Node>, scope: M.Scope, vid: nat, k: Kind, size: nat) {
    |cs| == |gs| && forall i | 0 <= i < |cs| :: cs[i].expr == Fix(gs[i]) && IsWritten(gs[i], scope, vid, k, size)
  }

  predicate Declares(scope: M.Scope, ids: seq<nat>, k: Kind) {
    forall i | 0 <= i < |ids| :: ids[i] in scope && scope[ids[i]] == k
  }

  predicate HasType(e: Node, k: Kind) { e.VariableExpr? && TerminalKind(e.bitsize, e.sign) == k }

  predicate AllTyped(vars: seq<Node>, k: Kind) {
    forall i | 0 <= i < |vars| :: HasType(vars[i], k)
  }

  /** Some access of the tree at index idx goes to the element j. */
  predicate Touches(n: Node, idx: nat, size: nat, j: nat) {
    match n
    case Placeholder(_) => false
    case VariableExpr(_, _, _) => false
    case ConstantExpr(_) => false
    case VectorExpr(_, _, _) => false
    case Unary(_, child) => Touches(child, idx, size, j)
    case Inside(child, _) => Touches(child, idx, size, j)
    case Extend(child, _) => Touches(child, idx, size, j)
    case Binary(_, l, r) => Touches(l, idx, size, j) || Touches(r, idx, size, j)
    case VectorAccess(l, r) =>
      Touches(r, idx, size, j) || (IsIndex(Subscript(r, idx), size) && Subscript(r, idx).value == j)
    case IfThenElse(a, b, c) => Touches(a, idx, size, j) || Touches(b, idx, size, j) || Touches(c, idx, size, j)
    case ForEach(_, r) => Touches(r, idx, size, j)
    case Unique(_) => false
    case Bitslice(child, _, _) => Touches(child, idx, size, j)
  }

  /** One visit gives the type to exactly the elements that it touches. */
  lemma {:induction false} TypedExactly(n: Node, scope: M.Scope, vid: nat, k: Kind, idx: nat, vars: seq<Node>,
      ids: seq<nat>, j: nat)
    requires BodyScoped(n, scope, vid, k) && Named(vars, ids) && j < |vars|
    ensures HasType(Typed(n, idx, vars)[j], k) <==> HasType(vars[j], k) || Touches(n, idx, |vars|, j)
  {
    hide Subscript, IsIndex, HasType, Named;
    match n
    case Unary(_, child) => TypedExactly(child, scope, vid, k, idx, vars, ids, j);
    case Inside(child, _) => TypedExactly(child, scope, vid, k, idx, vars, ids, j);
    case Extend(child, _) => TypedExactly(child, scope, vid, k, idx, vars, ids, j);
    case Binary(_, l, r) =>
      TypedKeepsNames(l, idx, vars, ids);
      TypedExactly(l, scope, vid, k, idx, vars, ids, j);
      TypedExactly(r, scope, vid, k, idx, Typed(l, idx, vars), ids, j);
    case VectorAccess(l, r) =>
      TypedKeepsNames(r, idx, vars, ids);
      TypedExactly(r, scope, vid, k, idx, vars, ids, j);
      AccessTypes(l, r, k, idx, vars, Typed(r, idx, vars), ids, j);
    case IfThenElse(a, b, c) =>
      TypedKeepsNames(a, idx, vars, ids);
      TypedKeepsNames(b, idx, Typed(a, idx, vars), ids);
      TypedExactly(a, scope, vid, k, idx, vars, ids, j);
      TypedExactly(b, scope, vid, k, idx, Typed(a, idx, vars), ids, j);
      TypedExactly(c, scope, vid, k, idx, Typed(b, idx, Typed(a, idx, vars)), ids, j);
    case Bitslice(child, _, _) => TypedExactly(child, scope, vid, k, idx, vars, ids, j);
    case _ =>
  }

  lemma AccessTypes(l: Node, r: Node, k: Kind, idx: nat, vars: seq<Node>, after: seq<Node>, ids: seq<nat>, j: nat)
    requires l.VectorExpr? && TerminalKind(l.bitsize, l.sign) == k && after == Typed(r, idx, vars)
    requires Named(after, ids) && j < |vars|
    ensures HasType(Typed(VectorAccess(l, r), idx, vars)[j], k)
      <==> HasType(after[j], k) || (IsIndex(Subscript(r, idx), |vars|) && Subscript(r, idx).value == j)
  {
    hide Subscript, AsInt;
    var s := Subscript(r, idx);
    assert Typed(VectorAccess(l, r), idx, vars) == if IsIndex(s, |vars|) then
      after[s.value := VariableExpr(after[s.value].id, l.bitsize, l.sign)] else after;
  }

  /** Some instance 0 .. n - 1 of the loop touches the element. */
  predicate TouchedBy(g: Node, n: nat, size: nat, j: nat) {
    exists i :: 0 <= i < n && Touches(g, i, size, j)
  }

  lemma {:induction false} LoopTypes(v: Node, g: Node, scope: M.Scope, vid: nat, k: Kind, n: nat, vars: seq<Node>,
      ids: seq<nat>, j: nat)
    requires BodyScoped(g, scope, vid, k) && Named(vars, ids) && j < |vars|
    ensures HasType(TypedBy(Fix(ForEach(v, g)), n, vars)[j], k) <==> HasType(vars[j], k) || TouchedBy(g, n, |vars|, j)
  {
    if n > 0 {
      var e, before := Fix(ForEach(v, g)), TypedBy(Fix(ForEach(v, g)), n - 1, vars);
      hide *;
      LoopTypes(v, g, scope, vid, k, n - 1, vars, ids, j);
      TypedByNamed(e, n - 1, vars, ids);
      LoopTyped(v, g, n - 1, before);
      FixTypes(g, n - 1, before);
      TypedExactly(g, scope, vid, k, n - 1, before, ids, j);
      TypedByLast(e, n, vars);
      TouchedNext(g, n, |vars|, j);
    } else {
      hide Fix, BodyScoped;
    }
  }

  lemma TypedByLast(expr: Node, n: nat, vars: seq<Node>)
    requires n > 0
    ensures TypedBy(expr, n, vars) == Typed(expr, n - 1, TypedBy(expr, n - 1, vars))
  {
  }

  lemma TouchedNext(g: Node, n: nat, size: nat, j: nat)
    requires n > 0
    ensures TouchedBy(g, n, size, j) <==> TouchedBy(g, n - 1, size, j) || Touches(g, n - 1, size, j)
  {
    hide Touches;
  }

  lemma LoopTyped(v: Node, g: Node, i: nat, vars: seq<Node>)
    ensures Typed(Fix(ForEach(v, g)), i, vars) == Typed(Fix(g), i, vars)
  {
  }

  lemma {:induction false} FixTypes(n: Node, idx: nat, vars: seq<Node>)
    ensures Typed(Fix(n), idx, vars) == Typed(n, idx, vars)
  {
    hide Subscript, IsIndex;
    match n
    case Unary(_, child) => FixTypes(child, idx, vars);
    case Inside(child, _) => FixTypes(child, idx, vars);
    case Extend(child, _) => FixTypes(child, idx, vars);
    case Binary(_, l, r) =>
      FixTypes(l, idx, vars);
      FixTypes(r, idx, Typed(l, idx, vars));
    case VectorAccess(l, r) =>
      FixTypes(l, idx, vars);
      FixTypes(r, idx, Typed(l, idx, vars));
      FixSubscript(r, idx);
    case IfThenElse(a, b, c) =>
      FixTypes(a, idx, vars);
      FixTypes(b, idx, Typed(a, idx, vars));
      FixTypes(c, idx, Typed(b, idx, Typed(a, idx, vars)));
    case ForEach(_, r) => FixTypes(r, idx, vars);
    case Bitslice(child, _, _) => FixTypes(child, idx, vars);
    case _ =>
  }

  /** An earlier loop touches the element. */
  predicate TouchedThrough(gs: seq<Node>, size: nat, j: nat) {
    exists c :: 0 <= c < |gs| && gs[c].ForEach? && TouchedBy(gs[c].rhs, size, size, j)
  }

  /**
   After some constraints an element has the type of the vector exactly when it had it
   before, or one of the loops has touched it at some index.
   */
  lemma {:induction false} ThroughTypes(cs: seq<Constraint>, gs: seq<Node>, scope: M.Scope, vid: nat, k: Kind,
      vars: seq<Node>, ids: seq<nat>, j: nat)
    requires AllScoped(cs, gs, scope, vid, k) && Named(vars, ids) && j < |vars|
    ensures HasType(TypedThrough(cs, vars)[j], k) <==> HasType(vars[j], k) || TouchedThrough(gs, |vars|, j)
  {
    if cs != [] {
      var n := |cs| - 1;
      ThroughTypes(cs[..n], gs[..n], scope, vid, k, vars, ids, j);
      ThroughNamed(cs[..n], vars, ids);
      TouchedLast(gs, |vars|, j);
      hide HasType, TouchedThrough, TouchedBy, IsScoped, Named, Fix, TypedThrough, TypedBy;
      assert cs[n].expr == Fix(gs[n]) && IsScoped(gs[n], scope, vid, k);
      OneTypes(gs[n], scope, vid, k, TypedThrough(cs[..n], vars), ids, j);
      ThroughLast(cs, vars);
    } else {
      assert !TouchedThrough(gs, |vars|, j);
    }
  }

  lemma ThroughLast(cs: seq<Constraint>, vars: seq<Node>)
    requires cs != []
    ensures var n := |cs| - 1;
      var through := TypedThrough(cs[..n], vars);
      TypedThrough(cs, vars) == if cs[n].expr.Unique? then through else TypedBy(cs[n].expr, |vars|, through)
  {
  }

  lemma OneTypes(g: Node, scope: M.Scope, vid: nat, k: Kind, vars: seq<Node>, ids: seq<nat>, j: nat)
    requires IsScoped(g, scope, vid, k) && Named(vars, ids) && j < |vars|
    ensures g.ForEach? ==> !Fix(g).Unique?
    ensures g.ForEach? ==>
      (HasType(TypedBy(Fix(g), |vars|, vars)[j], k) <==> HasType(vars[j], k) || TouchedBy(g.rhs, |vars|, |vars|, j))
    ensures !g.ForEach? ==> Fix(g).Unique?
  {
    if g.ForEach? {
      assert g == ForEach(g.lhs, g.rhs);
      hide Fix, HasType, TouchedBy, TypedBy, BodyScoped, Named, KindOf;
      FixUnique(g);
      LoopTypes(g.lhs, g.rhs, scope, vid, k, |vars|, vars, ids, j);
    }
  }

  lemma TouchedLast(gs: seq<Node>, size: nat, j: nat)
    requires gs != []
    ensures var n := |gs| - 1;
      TouchedThrough(gs, size, j) <==>
        TouchedThrough(gs[..n], size, j) || (gs[n].ForEach? && TouchedBy(gs[n].rhs, size, size, j))
  {
    var n := |gs| - 1;
    assert forall c | 0 <= c < n :: gs[..n][c] == gs[c];
    if TouchedThrough(gs, size, j) {
      var c :| 0 <= c < |gs| && gs[c].ForEach? && TouchedBy(gs[c].rhs, size, size, j);
      assert c < n ==> gs[..n][c].ForEach?;
    }
    if TouchedThrough(gs[..n], size, j) {
      var c :| 0 <= c < n && gs[..n][c].ForEach? && TouchedBy(gs[..n][c].rhs, size, size, j);
      assert gs[c].ForEach?;
    }
  }

  /** The elements are typed in time: those that n's earlier loops touch, and those that had the type before. */
  predicate TouchedInTime(gs: seq<Node>, n: nat, vars: seq<Node>, k: Kind)
    requires n < |gs|
  {
    gs[n].Unique? ==> |vars| < 2 || forall j | 0 <= j < |vars| ::
      HasType(vars[j], k) || TouchedThrough(gs[..n], |vars|, j)
  }

  // ----- What can be compiled -----

  /** What the back end asks of an assertion: declared variables of the declared kinds, and a truth value. */
  predicate Assertable(f: Node, scope: M.Scope) { KindOf(false, f) == Some(BoolKind) && M.Scoped(f, scope) }

  predicate AllAssertable(fs: Formulas, scope: M.Scope) {
    forall f | f in fs :: Assertable(f, scope)
  }

  /** Two elements of one kind can be compared. */
  lemma PairAssertable(x: Node, y: Node, scope: M.Scope, k: Kind)
    requires x.VariableExpr? && y.VariableExpr? && M.KindsOk(scope)
    requires x.id in scope && y.id in scope && scope[x.id] == scope[y.id] == k
    ensures Assertable(Binary(NotEqual, x, y), scope) <==> HasType(x, k) && HasType(y, k)
  {
    var f := Binary(NotEqual, x, y);
    assert M.Scoped(f, scope) <==> HasType(x, k) && HasType(y, k);
    if HasType(x, k) && HasType(y, k) {
      assert scope[x.id].WordKind? ==> scope[x.id].width > 0;
      assert KindOf(false, x) == Some(k) && KindOf(false, y) == Some(k);
      assert KindOf(false, f) == BinaryKind(NotEqual, x.sign, y.sign, k, k);
    }
  }

  /** Two and more elements can be compared exactly when they all have the type of the vector. */
  lemma PairsAssertable(vars: seq<Node>, ids: seq<nat>, scope: M.Scope, k: Kind)
    requires Named(vars, ids) && Declares(scope, ids, k) && M.KindsOk(scope)
    ensures AllAssertable(Pairs(vars), scope) <==> |vars| < 2 || AllTyped(vars, k)
  {
    forall i, j | 0 <= i < j < |vars|
      ensures Assertable(Binary(NotEqual, vars[i], vars[j]), scope) <==> HasType(vars[i], k) && HasType(vars[j], k)
    {
      PairAssertable(vars[i], vars[j], scope, k);
    }
    if AllAssertable(Pairs(vars), scope) && |vars| >= 2 {
      forall i | 0 <= i < |vars|
        ensures HasType(vars[i], k)
      {
        if i == 0 {
          assert Binary(NotEqual, vars[0], vars[1]) in Pairs(vars);
        } else {
          assert Binary(NotEqual, vars[0], vars[i]) in Pairs(vars);
        }
      }
    }
  }

  lemma {:induction false} FixBodyScoped(n: Node, scope: M.Scope, vid: nat, k: Kind)
    requires BodyScoped(n, scope, vid, k)
    ensures BodyScoped(Fix(n), scope, vid, k)
  {
    match n
    case Unary(_, child) => FixBodyScoped(child, scope, vid, k);
    case Inside(child, _) => FixBodyScoped(child, scope, vid, k);
    case Extend(child, _) => FixBodyScoped(child, scope, vid, k);
    case Binary(_, l, r) =>
      FixBodyScoped(l, scope, vid, k);
      FixBodyScoped(r, scope, vid, k);
    case VectorAccess(l, r) => FixBodyScoped(r, scope, vid, k);
    case IfThenElse(a, b, c) =>
      FixBodyScoped(a, scope, vid, k);
      FixBodyScoped(b, scope, vid, k);
      FixBodyScoped(c, scope, vid, k);
    case Bitslice(child, _, _) => FixBodyScoped(child, scope, vid, k);
    case _ =>
  }

  lemma {:induction false} InstanceAssertable(n: Node, scope: M.Scope, vid: nat, k: Kind, idx: nat, ids: seq<nat>)
    requires BodyScoped(n, scope, vid, k) && Declares(scope, ids, k) && InRange(n, idx, |ids|) && KindOf(false, n).Some?
    ensures M.Scoped(Instance(n, idx, ids), scope) && KindOf(false, Instance(n, idx, ids)) == KindOf(false, n)
  {
    hide Subscript, AsInt, BinaryKind, UnaryKind, InsideOk;
    match n
    case Unary(_, child) => InstanceAssertable(child, scope, vid, k, idx, ids);
    case Inside(child, _) => InstanceAssertable(child, scope, vid, k, idx, ids);
    case Extend(child, _) => InstanceAssertable(child, scope, vid, k, idx, ids);
    case Binary(_, l, r) =>
      InstanceAssertable(l, scope, vid, k, idx, ids);
      InstanceAssertable(r, scope, vid, k, idx, ids);
      ScopedIsBody(n, scope, vid, k);
      InstanceSign(l, idx, ids);
      InstanceSign(r, idx, ids);
    case IfThenElse(a, b, c) =>
      InstanceAssertable(a, scope, vid, k, idx, ids);
      InstanceAssertable(b, scope, vid, k, idx, ids);
      InstanceAssertable(c, scope, vid, k, idx, ids);
    case Bitslice(child, _, _) => InstanceAssertable(child, scope, vid, k, idx, ids);
    case _ =>
  }

  /** The instances of a loop can always be compiled. */
  lemma LoopAssertable(g: Node, scope: M.Scope, vid: nat, k: Kind, ids: seq<nat>)
    requires g.ForEach? && BodyScoped(g.rhs, scope, vid, k) && KindOf(true, g.rhs) == Some(BoolKind)
    requires Declares(scope, ids, k)
    ensures AllAssertable(Instances(Fix(g), |ids|, ids), scope)
  {
    forall i | 0 <= i < |ids| && InRange(Fix(g), i, |ids|)
      ensures Assertable(Instance(Fix(g), i, ids), scope)
    {
      LoopIsBody(g.lhs, g.rhs, i, ids);
      FixBodyScoped(g.rhs, scope, vid, k);
      FixKind(g.rhs);
      assert g == ForEach(g.lhs, g.rhs);
      hide *;
      InstanceAssertable(Fix(g.rhs), scope, vid, k, i, ids);
    }
  }

  /** At the unique constraint n all elements have the type of the vector, unless there are no two. */
  predicate UniqueTypedAt(cs: seq<Constraint>, n: nat, vars: seq<Node>, k: Kind)
    requires n < |cs|
  {
    cs[n].expr.Unique? ==> |vars| < 2 || AllTyped(TypedThrough(cs[..n], vars), k)
  }

  predicate UniqueTyped(cs: seq<Constraint>, vars: seq<Node>, k: Kind) {
    forall n | 0 <= n < |cs| :: UniqueTypedAt(cs, n, vars, k)
  }

  lemma UniqueTypedPrefix(cs: seq<Constraint>, i: nat, n: nat, vars: seq<Node>, k: Kind)
    requires i < n <= |cs|
    ensures UniqueTypedAt(cs[..n], i, vars, k) == UniqueTypedAt(cs, i, vars, k)
  {
    hide AllTyped, TypedThrough;
    assert cs[..n][i] == cs[i] && cs[..n][..i] == cs[..i];
  }

  lemma UniqueTypedLast(cs: seq<Constraint>, vars: seq<Node>, k: Kind)
    requires cs != []
    ensures var n := |cs| - 1;
      UniqueTyped(cs, vars, k) <==> UniqueTyped(cs[..n], vars, k) && UniqueTypedAt(cs, n, vars, k)
  {
    hide UniqueTypedAt;
    var n := |cs| - 1;
    forall i | 0 <= i < n
      ensures UniqueTypedAt(cs[..n], i, vars, k) == UniqueTypedAt(cs, i, vars, k)
    {
      UniqueTypedPrefix(cs, i, n, vars, k);
    }
  }

  /**
   A unique constraint meets typed elements exactly when earlier loops touch all that did
   not have the type before.
   */
  lemma UniqueTypedExactly(cs: seq<Constraint>, gs: seq<Node>, scope: M.Scope, vid: nat, k: Kind, ids: seq<nat>,
      vars: seq<Node>)
    requires AllScoped(cs, gs, scope, vid, k) && Named(vars, ids)
    ensures UniqueTyped(cs, vars, k) <==> forall n | 0 <= n < |gs| :: TouchedInTime(gs, n, vars, k)
  {
    forall n | 0 <= n < |gs|
      ensures UniqueTypedAt(cs, n, vars, k) <==> TouchedInTime(gs, n, vars, k)
    {
      FixUnique(gs[n]);
      assert cs[n].expr == Fix(gs[n]);
      hide HasType, TypedThrough, TouchedThrough, IsScoped, Fix, Named;
      forall j | 0 <= j < |vars|
        ensures HasType(TypedThrough(cs[..n], vars)[j], k) <==>
          HasType(vars[j], k) || TouchedThrough(gs[..n], |vars|, j)
      {
        ThroughTypes(cs[..n], gs[..n], scope, vid, k, vars, ids, j);
      }
    }
  }

  ghost predicate Compiles(cs: seq<Constraint>, ids: seq<nat>, vars: seq<Node>, scope: M.Scope) {
    AllAssertable(AllFormulas(cs, false, ids, vars), scope) && AllAssertable(AllFormulas(cs, true, ids, vars), scope)
  }

  lemma CompilesLast(cs: seq<Constraint>, ids: seq<nat>, vars: seq<Node>, scope: M.Scope)
    requires cs != []
    ensures var n := |cs| - 1;
      Compiles(cs, ids, vars, scope) <==> (
        && Compiles(cs[..n], ids, vars, scope)
        && AllAssertable(FormulasOf(cs[n], ids, TypedThrough(cs[..n], vars)), scope))
  {
    hide FormulasOf, TypedThrough, Assertable;
    AllFormulasLast(cs, false, ids, vars);
    AllFormulasLast(cs, true, ids, vars);
  }

  /**
   All formulas of the constraints can be compiled exactly when every unique constraint
   meets elements that earlier loops, or an earlier call, have given their type.
   */
  lemma {:induction false} CompilesExactly(cs: seq<Constraint>, gs: seq<Node>, scope: M.Scope, vid: nat, k: Kind,
      ids: seq<nat>, vars: seq<Node>)
    requires AllScoped(cs, gs, scope, vid, k) && Named(vars, ids) && Declares(scope, ids, k)
    requires M.KindsOk(scope)
    ensures Compiles(cs, ids, vars, scope) <==> UniqueTyped(cs, vars, k)
  {
    if cs != [] {
      var n := |cs| - 1;
      var through := TypedThrough(cs[..n], vars);
      CompilesExactly(cs[..n], gs[..n], scope, vid, k, ids, vars);
      CompilesLast(cs, ids, vars, scope);
      UniqueTypedLast(cs, vars, k);
      ThroughNamed(cs[..n], vars, ids);
      FixUnique(gs[n]);
      hide Compiles, UniqueTyped, AllTyped, AllAssertable, BodyScoped, Declares, Pairs, Instances, TypedThrough, KindOf;
      if gs[n].Unique? {
        PairsAssertable(through, ids, scope, k);
      } else {
        LoopAssertable(gs[n], scope, vid, k, ids);
      }
    } else {
      assert AllFormulas(cs, false, ids, vars) == {} && AllFormulas(cs, true, ids, vars) == {};
    }
  }

  lemma FixUnique(g: Node)
    ensures Fix(g).Unique? == g.Unique?
  {
  }

  // ----- The elements at the start -----

  /** As many elements as asked for: the first ones are kept, new ones are signed bits with new ids. */
  function Resized(vars: seq<Node>, size: nat, next: nat): (r: seq<Node>)
    ensures |r| == size
  {
    if size <= |vars| then vars[..size]
      else vars + seq(size - |vars|, i requires 0 <= i => VariableExpr(next + i, 1, true))
  }

  /** Elements that stay keep their places, new ones are distinct single bits with ids that were not given out. */
  lemma ResizedKeeps(vars: seq<Node>, size: nat, next: nat)
    ensures forall i | 0 <= i < size && i < |vars| :: Resized(vars, size, next)[i] == vars[i]
    ensures forall i | |vars| <= i < size :: HasType(Resized(vars, size, next)[i], BoolKind)
    ensures forall i | |vars| <= i < size :: Resized(vars, size, next)[i].id >= next
    ensures forall i, j | |vars| <= i < j < size :: Resized(vars, size, next)[i].id != Resized(vars, size, next)[j].id
  {
  }

  // ----- What the formulas mean -----

  ghost predicate Distinct(ids: seq<nat>, m: Model) {
    forall i, j | 0 <= i < j < |ids| :: m(ids[i]) != m(ids[j])
  }

  /** The pairs hold exactly when the elements have pairwise different values. */
  lemma PairsMean(vars: seq<Node>, ids: seq<nat>, k: Kind, m: Model)
    requires Named(vars, ids) && ElementsFit(ids, m, k) && (|vars| < 2 || AllTyped(vars, k))
    ensures Holds(Pairs(vars), m) <==> Distinct(ids, m)
  {
    forall i, j | 0 <= i < j < |ids|
      ensures Denote(Binary(NotEqual, vars[i], vars[j]), m) == BoolVal(m(ids[i]) != m(ids[j]))
    {
      EvalBinary(false, NotEqual, vars[i], vars[j], Scalar(m));
      NotEqualMeans(false, Sign(vars[i]), Sign(vars[j]), m(ids[i]), m(ids[j]), k);
    }
    if Holds(Pairs(vars), m) {
      forall i, j | 0 <= i < j < |ids|
        ensures m(ids[i]) != m(ids[j])
      {
        assert Binary(NotEqual, vars[i], vars[j]) in Pairs(vars);
      }
    }
  }

  /** The constraint g, as written, asks for distinct elements or for its body at every index. */
  ghost predicate Meets(g: Node, vid: nat, vecs: Vectors, m: Model) {
    if g.ForEach? then LoopHolds(g.rhs, vid, vecs, m) else Distinct(vecs(vid), m)
  }

  ghost predicate MeetsAll(cs: seq<Constraint>, gs: seq<Node>, soft: bool, vid: nat, vecs: Vectors, m: Model)
    requires |cs| == |gs|
  {
    forall i | 0 <= i < |cs| && cs[i].soft == soft :: Meets(gs[i], vid, vecs, m)
  }

  lemma OneMeets(c: Constraint, g: Node, scope: M.Scope, k: Kind, vid: nat, vecs: Vectors, vars: seq<Node>, m: Model)
    requires c.expr == Fix(g) && IsWritten(g, scope, vid, k, |vars|) && Named(vars, vecs(vid))
    requires M.ModelFits(m, scope) && ElementsFit(vecs(vid), m, k) && (g.Unique? ==> |vars| < 2 || AllTyped(vars, k))
    ensures Holds(FormulasOf(c, vecs(vid), vars), m) <==> Meets(g, vid, vecs, m)
  {
    FixUnique(g);
    hide Fix, Pairs, Instances, Distinct, LoopHolds, ElementsFit, AllTyped, IsLoopBody;
    if g.Unique? {
      PairsMean(vars, vecs(vid), k, m);
    } else {
      assert g == ForEach(g.lhs, g.rhs);
      ForEachMeans(g.lhs, g.rhs, scope, vid, k, vecs, m);
    }
  }

  /**
   A model meets what the vector solver hands over exactly when it meets every constraint
   as it is written.
   */
  lemma {:induction false} AllFormulasMean(cs: seq<Constraint>, gs: seq<Node>, soft: bool, scope: M.Scope, vid: nat,
      k: Kind,
      vecs: Vectors, vars: seq<Node>, m: Model)
    requires AllWritten(cs, gs, scope, vid, k, |vars|) && UniqueTyped(cs, vars, k)
    requires Named(vars, vecs(vid)) && M.ModelFits(m, scope) && ElementsFit(vecs(vid), m, k)
    ensures Holds(AllFormulas(cs, soft, vecs(vid), vars), m) <==> MeetsAll(cs, gs, soft, vid, vecs, m)
  {
    if cs != [] {
      var n, ids := |cs| - 1, vecs(vid);
      var through := TypedThrough(cs[..n], vars);
      UniqueTypedLast(cs, vars, k);
      AllFormulasMean(cs[..n], gs[..n], soft, scope, vid, k, vecs, vars, m);
      ThroughNamed(cs[..n], vars, ids);
      FixUnique(gs[n]);
      assert cs[n].expr == Fix(gs[n]) && IsWritten(gs[n], scope, vid, k, |vars|);
      hide *;
      OneMeets(cs[n], gs[n], scope, k, vid, vecs, through, m);
      HoldsUnion(AllFormulas(cs[..n], soft, ids, vars), FormulasOf(cs[n], ids, through), m);
      AllFormulasLast(cs, soft, ids, vars);
      MeetsLast(cs, gs, soft, vid, vecs, m);
    } else {
      assert AllFormulas(cs, soft, vecs(vid), vars) == {};
    }
  }

  lemma MeetsLast(cs: seq<Constraint>, gs: seq<Node>, soft: bool, vid: nat, vecs: Vectors, m: Model)
    requires |cs| == |gs| > 0
    ensures var n := |cs| - 1;
      MeetsAll(cs, gs, soft, vid, vecs, m) <==> (
        && MeetsAll(cs[..n], gs[..n], soft, vid, vecs, m)
        && (cs[n].soft == soft ==> Meets(gs[n], vid, vecs, m)))
  {
    hide Meets;
    var n := |cs| - 1;
    assert forall i | 0 <= i < n :: cs[..n][i] == cs[i] && gs[..n][i] == gs[i];
  }

  /** Some values of the declared variables, of which the elements are some, meet the constraints. */
  ghost predicate CanMeet(cs: seq<Constraint>, gs: seq<Node>, hardOnly: bool, vid: nat, vecs: Vectors, scope: M.Scope)
    requires |cs| == |gs|
  {
    exists m: Model :: MetBy(cs, gs, hardOnly, vid, vecs, scope, m)
  }

  ghost predicate MetBy(cs: seq<Constraint>, gs: seq<Node>, hardOnly: bool, vid: nat, vecs: Vectors, scope: M.Scope,
      m: Model)
    requires |cs| == |gs|
  {
    && M.ModelFits(m, scope) && MeetsAll(cs, gs, false, vid, vecs, m)
    && (hardOnly || MeetsAll(cs, gs, true, vid, vecs, m))
  }

  /** The formulas, with or without the soft ones. */
  function Handed(cs: seq<Constraint>, hardOnly: bool, ids: seq<nat>, vars: seq<Node>): Formulas {
    AllFormulas(cs, false, ids, vars) + if hardOnly then {} else AllFormulas(cs, true, ids, vars)
  }

  /** What makes the formulas mean the constraints: they were written over this vector, and can be compiled. */
  ghost predicate AsWritten(cs: seq<Constraint>, gs: seq<Node>, scope: M.Scope, vid: nat, k: Kind, vecs: Vectors,
      vars: seq<Node>) {
    && AllWritten(cs, gs, scope, vid, k, |vars|) && UniqueTyped(cs, vars, k)
    && Named(vars, vecs(vid)) && Declares(scope, vecs(vid), k)
  }

  lemma HandedMeans(cs: seq<Constraint>, gs: seq<Node>, hardOnly: bool, scope: M.Scope, vid: nat, k: Kind,
      vecs: Vectors, vars: seq<Node>)
    requires AsWritten(cs, gs, scope, vid, k, vecs, vars)
    ensures forall m: Model ::
      Satisfies(m, scope, Handed(cs, hardOnly, vecs(vid), vars)) <==> MetBy(cs, gs, hardOnly, vid, vecs, scope, m)
    ensures Sat(scope, Handed(cs, hardOnly, vecs(vid), vars)) <==> CanMeet(cs, gs, hardOnly, vid, vecs, scope)
  {
    var fs := Handed(cs, hardOnly, vecs(vid), vars);
    forall m: Model
      ensures Satisfies(m, scope, fs) <==> MetBy(cs, gs, hardOnly, vid, vecs, scope, m)
    {
      if M.ModelFits(m, scope) {
        assert ElementsFit(vecs(vid), m, k);
        hide AllFormulas, UniqueTyped, AllWritten, Declares, ElementsFit, MeetsAll, Holds;
        AllFormulasMean(cs, gs, false, scope, vid, k, vecs, vars, m);
        AllFormulasMean(cs, gs, true, scope, vid, k, vecs, vars, m);
        HoldsUnion(AllFormulas(cs, false, vecs(vid), vars), AllFormulas(cs, true, vecs(vid), vars), m);
        HoldsNone(AllFormulas(cs, false, vecs(vid), vars));
      }
    }
    hide MetBy, Satisfies, Handed;
    if m: Model :| Satisfies(m, scope, fs) {
      assert MetBy(cs, gs, hardOnly, vid, vecs, scope, m);
    }
    if m: Model :| MetBy(cs, gs, hardOnly, vid, vecs, scope, m) {
      assert Satisfies(m, scope, fs);
    }
  }

  lemma HoldsNone(fs: Formulas)
    ensures fs + {} == fs
  {
  }
}
