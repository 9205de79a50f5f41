/**
 The whole path of a constraint: its widths are fixed, it is compiled to gates and asserted.
 */
module Blasting {
  import opened Ast
  import opened FixWidth
  import MetaSMT

  function FixAll(gs: seq<Node>): (fs: seq<Node>)
    ensures |fs| == |gs| && forall j | 0 <= j < |gs| :: fs[j] == Fix(gs[j])
  {
    seq(|gs|, j requires 0 <= j < |gs| => Fix(gs[j]))
  }

  /** A constraint as the user may write it: a truth value over declared variables. */
  predicate IsConstraint(g: Node, scope: MetaSMT.Scope) {
    KindOf(true, g) == Some(BoolKind) && MetaSMT.Scoped(g, scope)
  }

  ghost predicate Satisfies(m: Model, gs: seq<Node>) {
    forall j | 0 <= j < |gs| :: Meaning(gs[j], m) == BoolVal(true)
  }

  lemma {:induction false} ScopedLeavesFit(n: Node, scope: MetaSMT.Scope, m: Model)
    requires MetaSMT.Scoped(n, scope) && MetaSMT.ModelFits(m, scope)
    ensures LeavesFit(n, Scalar(m))
  {
    match n
    case Unary(_, child) => ScopedLeavesFit(child, scope, m);
    case Inside(child, _) => ScopedLeavesFit(child, scope, m);
    case Extend(child, _) => ScopedLeavesFit(child, scope, m);
    case Binary(_, l, r) =>
      ScopedLeavesFit(l, scope, m);
      ScopedLeavesFit(r, scope, m);
    case IfThenElse(a, b, c) =>
      ScopedLeavesFit(a, scope, m);
      ScopedLeavesFit(b, scope, m);
      ScopedLeavesFit(c, scope, m);
    case Bitslice(child, _, _) => ScopedLeavesFit(child, scope, m);
    case _ =>
  }

  lemma {:induction false} FixScoped(n: Node, scope: MetaSMT.Scope)
    requires MetaSMT.Scoped(n, scope)
    ensures MetaSMT.Scoped(Fix(n), scope)
  {
    match n
    case Unary(_, child) => FixScoped(child, scope);
    case Inside(child, _) => FixScoped(child, scope);
    case Extend(child, _) => FixScoped(child, scope);
    case Binary(_, l, r) =>
      FixScoped(l, scope);
      FixScoped(r, scope);
    case IfThenElse(a, b, c) =>
      FixScoped(a, scope);
      FixScoped(b, scope);
      FixScoped(c, scope);
    case Bitslice(child, _, _) => FixScoped(child, scope);
    case _ =>
  }

  /** A fixed constraint meets what the visitor asks of an assertion: none of its assertions can fail. */
  lemma FixedCanBeAsserted(g: Node, scope: MetaSMT.Scope)
    requires IsConstraint(g, scope)
    ensures KindOf(false, Fix(g)) == Some(BoolKind) && MetaSMT.Scoped(Fix(g), scope)
  {
    FixKind(g);
    FixScoped(g, scope);
  }

  lemma FixedHolds(gs: seq<Node>, scope: MetaSMT.Scope, m: Model)
    requires (forall j | 0 <= j < |gs| :: IsConstraint(gs[j], scope)) && MetaSMT.ModelFits(m, scope)
    ensures MetaSMT.AllHold(FixAll(gs), m) <==> Satisfies(m, gs)
  {
    forall j | 0 <= j < |gs|
      ensures Denote(Fix(gs[j]), m) == Meaning(gs[j], m)
    {
      assert IsConstraint(gs[j], scope);
      ScopedLeavesFit(gs[j], scope, m);
      FixPreservesMeaning(gs[j], m);
    }
  }

  /**
   The gates asserted for a list of constraints can be made true together exactly when some
   model of the declared variables makes every constraint true as the user reads it.
   */
  lemma ConstraintsPreserveSatisfiability(v: MetaSMT.MetaSMTVisitor, scope: MetaSMT.Scope, gs: seq<Node>)
    requires v.Valid(scope) && v.Asserted() && MetaSMT.KindsOk(scope) && v.asserted == FixAll(gs)
    requires forall j | 0 <= j < |gs| :: IsConstraint(gs[j], scope)
    ensures (exists env :: MetaSMT.AllTrue(v.bb.gates, v.bb.assertions, env))
      <==> (exists m :: MetaSMT.ModelFits(m, scope) && Satisfies(m, gs))
  {
    v.AssertionsPreserveSatisfiability(scope);
    forall m | MetaSMT.ModelFits(m, scope)
      ensures MetaSMT.AllHold(FixAll(gs), m) <==> Satisfies(m, gs)
    {
      FixedHolds(gs, scope, m);
    }
  }

  /** Fix the widths of every constraint, then compile and assert it. */
  method AssertAll(gs: seq<Node>, fixer: FixWidthVisitor, v: MetaSMT.MetaSMTVisitor, ghost scope: MetaSMT.Scope)
    requires v.Valid(scope) && v.Asserted() && v.asserted == [] && MetaSMT.KindsOk(scope)
    requires forall j | 0 <= j < |gs| :: IsConstraint(gs[j], scope)
    modifies fixer, v, v.bb
    ensures v.Valid(scope) && v.Asserted() && v.asserted == FixAll(gs)
    ensures (exists env :: MetaSMT.AllTrue(v.bb.gates, v.bb.assertions, env))
      <==> (exists m :: MetaSMT.ModelFits(m, scope) && Satisfies(m, gs))
  {
    for i := 0 to |gs|
      invariant v.Valid(scope) && v.Asserted() && v.asserted == FixAll(gs)[..i]
    {
      var fixed := fixer.FixTree(gs[i]);
      FixedCanBeAsserted(gs[i], scope);
      v.MakeAssertion(fixed, scope);
    }
    ConstraintsPreserveSatisfiability(v, scope, gs);
  }

  /**
   A quotient of mixed sign is one bit wider than recorded, so comparing it with an operand
   of its recorded width fails.
   */
  lemma MixedDivisionHasNoKind()
    ensures var s, u := VariableExpr(0, 4, true), VariableExpr(1, 4, false);
      && KindOf(true, Binary(Devide, s, u)) == Some(WordKind(5)) && Recorded(Binary(Devide, s, u)) == 4
      && KindOf(true, Binary(Equal, Binary(Devide, s, u), u)) == None
  {
  }
}
