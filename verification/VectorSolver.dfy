/**
 The solver of the constraints over one vector: it makes a variable per element, unrolls
 the constraints and asks the back end.
 */
module VectorSolvers {
  import opened Ast
  import opened Partitions
  import opened Satisfiability
  import opened Solving
  import opened ForEachExpansion
  import opened ForEachMeaning
  import opened VectorMeaning
  import opened FixWidth
  import M = MetaSMT

  /** Unrolling a constraint meets no undefined subscript. */
  ghost predicate CanExpand(c: Constraint, size: nat, names: Names) {
    c.expr.Unique? || (Shaped(c.expr, names) && forall i | 0 <= i < size :: Subscript(c.expr, i).Some?)
  }

  /** The formulas f were handed over as soft, or as lasting, assertions. */
  ghost predicate Added(soft: bool, f: Formulas, hard: Formulas, softs: seq<Node>, hard': Formulas, softs': seq<Node>) {
    && hard' == hard + (if soft then {} else f)
    && ToSet(softs') == ToSet(softs) + (if soft then f else {})
  }

  lemma AddedMore(soft: bool, f: Formulas, g: Formulas, a: Formulas, b: seq<Node>, a': Formulas, b': seq<Node>,
      a'': Formulas, b'': seq<Node>)
    requires Added(soft, f, a, b, a', b') && Added(soft, g, a', b', a'', b'')
    ensures Added(soft, f + g, a, b, a'', b'')
  {
  }

  lemma InstancesNext(expr: Node, i: nat, size: nat, ids: seq<nat>)
    ensures InstancesUpTo(expr, i + 1, size, ids) == InstancesUpTo(expr, i, size, ids) +
      if InRange(expr, i, size) then {Instance(expr, i, ids)} else {}
  {
  }

  function InstancesUpTo(expr: Node, n: nat, size: nat, ids: seq<nat>): Formulas {
    set i | 0 <= i < n && InRange(expr, i, size) :: Instance(expr, i, ids)
  }

  function PairsOf(vars: seq<Node>, i: nat, n: nat): Formulas
    requires i < |vars| && n <= |vars|
  {
    set j | i < j < n :: Binary(NotEqual, vars[i], vars[j])
  }

  function PairsUpTo(vars: seq<Node>, n: nat): Formulas
    requires n <= |vars|
  {
    set i, j | 0 <= i < n && i < j < |vars| :: Binary(NotEqual, vars[i], vars[j])
  }

  lemma PairsNext(vars: seq<Node>, i: nat)
    requires i < |vars|
    ensures PairsUpTo(vars, i + 1) == PairsUpTo(vars, i) + PairsOf(vars, i, |vars|)
  {
  }

  class VectorSolver {
    const vectorId: nat
    const scope: M.Scope
    const decide: BackEnd
    const vecElements: VectorElements
    var constraints: seq<Constraint>
    var solver: Solver
    var nextVar: nat

    constructor (vectorId: nat, scope: M.Scope, decide: BackEnd, nextVar: nat)
      ensures this.vectorId == vectorId && this.scope == scope && this.decide == decide && constraints == []
      ensures fresh(solver) && fresh(vecElements)
      ensures vecElements.elements == [] && this.nextVar == nextVar && solver.scope == scope
    {
      this.vectorId, this.scope, this.decide, this.nextVar, constraints := vectorId, scope, decide, nextVar, [];
      vecElements := new VectorElements();
      solver := new Solver(scope, decide, 0);
    }

    method AddConstraint(c: Constraint)
      modifies this`constraints
      ensures constraints == old(constraints) + [c]
    {
      constraints := constraints + [c];
    }

    method Make(soft: bool, n: Node)
      modifies solver`asserted, solver`softs, solver`terminals
      ensures Added(soft, {n}, old(solver.asserted), old(solver.softs), solver.asserted, solver.softs)
    {
      ToSetPush(solver.softs, n);
      if soft {
        solver.MakeSoftAssertion(n);
      } else {
        solver.MakeAssertion(n);
      }
    }

    /** One instance: it is made for every index, and handed over when no subscript left the vector. */
    method ExpandAt(c: Constraint, i: nat, replacer: ReplaceVisitor, ghost names: Names, ghost ids: seq<nat>)
      requires replacer.variables == vecElements && replacer.IsReset() && i < |ids| && Named(vecElements.elements, ids)
      requires !c.expr.Unique? && CanExpand(c, |ids|, names)
      modifies replacer, vecElements, solver`asserted, solver`softs, solver`terminals
      ensures replacer.IsReset() && vecElements.elements == Typed(c.expr, i, old(vecElements.elements))
      ensures Named(vecElements.elements, ids)
      ensures Added(c.soft, if InRange(c.expr, i, |ids|) then {Instance(c.expr, i, ids)} else {},
        old(solver.asserted), old(solver.softs), solver.asserted, solver.softs)
    {
      replacer.SetVecIdx(i);
      assert TerminalsOk(replacer.terminals, names, replacer.vecIdx);
      replacer.Visit(c.expr, names, ids);
      hide Shaped, Subscript, Instance, InRange, Typed;
      assert Visited(c.expr, i, ids, old(replacer.Value()), replacer.Value());
      if replacer.okay {
        Make(c.soft, replacer.result.value);
      }
      replacer.Reset();
    }

    method ExpandForEach(c: Constraint, size: nat, ghost names: Names, ghost ids: seq<nat>)
      requires size == |ids| && Named(vecElements.elements, ids) && !c.expr.Unique? && CanExpand(c, |ids|, names)
      modifies vecElements, solver`asserted, solver`softs, solver`terminals
      ensures vecElements.elements == TypedBy(c.expr, size, old(vecElements.elements))
      ensures Named(vecElements.elements, ids)
      ensures Added(c.soft, Instances(c.expr, size, ids), old(solver.asserted), old(solver.softs), solver.asserted,
        solver.softs)
    {
      var replacer := new ReplaceVisitor(vecElements);
      for i := 0 to size
        invariant replacer.IsReset() && Named(vecElements.elements, ids)
        invariant vecElements.elements == TypedBy(c.expr, i, old(vecElements.elements))
        invariant Added(c.soft, InstancesUpTo(c.expr, i, size, ids), old(solver.asserted), old(solver.softs),
          solver.asserted, solver.softs)
      {
        ghost var a, b := solver.asserted, solver.softs;
        ExpandAt(c, i, replacer, names, ids);
        InstancesNext(c.expr, i, size, ids);
        AddedMore(c.soft, InstancesUpTo(c.expr, i, size, ids),
          if InRange(c.expr, i, size) then {Instance(c.expr, i, ids)} else {},
          old(solver.asserted), old(solver.softs), a, b, solver.asserted, solver.softs);
      }
    }

    method ExpandUnique(c: Constraint)
      modifies solver`asserted, solver`softs, solver`terminals
      ensures Added(c.soft, Pairs(vecElements.elements), old(solver.asserted), old(solver.softs), solver.asserted,
        solver.softs)
    {
      var vars := vecElements.elements;
      for i := 0 to |vars|
        invariant Added(c.soft, PairsUpTo(vars, i), old(solver.asserted), old(solver.softs), solver.asserted,
          solver.softs)
      {
        ghost var a, b := solver.asserted, solver.softs;
        for j := i + 1 to |vars|
          invariant Added(c.soft, PairsOf(vars, i, j), a, b, solver.asserted, solver.softs)
        {
          ghost var a', b' := solver.asserted, solver.softs;
          Make(c.soft, Binary(NotEqual, vars[i], vars[j]));
          assert PairsOf(vars, i, j + 1) == PairsOf(vars, i, j) + {Binary(NotEqual, vars[i], vars[j])};
          AddedMore(c.soft, PairsOf(vars, i, j), {Binary(NotEqual, vars[i], vars[j])}, a, b, a', b', solver.asserted,
            solver.softs);
        }
        PairsNext(vars, i);
        AddedMore(c.soft, PairsUpTo(vars, i), PairsOf(vars, i, |vars|), old(solver.asserted), old(solver.softs), a, b,
          solver.asserted, solver.softs);
      }
      assert PairsUpTo(vars, |vars|) == Pairs(vars);
    }

    /** The elements are distinct variables; new ones get new ids. */
    ghost predicate Valid()
      reads this`nextVar, vecElements
    {
      && (forall e | e in vecElements.elements :: e.VariableExpr? && e.id < nextVar)
      && forall i, j | 0 <= i < j < |vecElements.elements| :: vecElements.elements[i].id != vecElements.elements[j].id
    }

    /** As many elements as asked for: the first ones are kept, new ones start as single bits. */
    method Resize(size: nat)
      requires Valid()
      modifies this`nextVar, vecElements
      ensures Valid() && vecElements.elements == Resized(old(vecElements.elements), size, old(nextVar))
    {
      var oldSize := |vecElements.elements|;
      if size < oldSize {
        vecElements.elements := vecElements.elements[..size];
      } else {
        for i := oldSize to size
          invariant Valid() && nextVar == old(nextVar) + i - oldSize
          invariant vecElements.elements == Resized(old(vecElements.elements), i, old(nextVar))
        {
          vecElements.elements := vecElements.elements + [VariableExpr(nextVar, 1, true)];
          nextVar := nextVar + 1;
        }
      }
    }

    /** Make the element variables and unroll every constraint. */
    method BuildSolver(size: nat, ghost names: Names) returns (ghost vars: seq<Node>)
      requires Valid() && forall c | c in constraints :: CanExpand(c, size, names)
      modifies this`nextVar, vecElements, solver`asserted, solver`softs, solver`terminals
      ensures Valid() && vars == Resized(old(vecElements.elements), size, old(nextVar))
      ensures Named(vars, IdsOf(vars)) && IdsOf(vecElements.elements) == IdsOf(vars)
      ensures vecElements.elements == TypedThrough(constraints, vars)
      ensures solver.asserted == old(solver.asserted) + AllFormulas(constraints, false, IdsOf(vars), vars)
      ensures ToSet(solver.softs) == ToSet(old(solver.softs)) + AllFormulas(constraints, true, IdsOf(vars), vars)
    {
      Resize(size);
      vars := vecElements.elements;
      ghost var ids, next := IdsOf(vars), nextVar;
      for i := 0 to |constraints|
        invariant nextVar == next
        invariant Built(constraints[..i], ids, vars, vecElements.elements, old(solver.asserted), old(solver.softs),
          solver.asserted, solver.softs)
      {
        ExpandOne(i, size, names, ids, vars, old(solver.asserted), old(solver.softs));
      }
      assert constraints[..|constraints|] == constraints;
      SameNames(vars, vecElements.elements, ids);
      assert forall i | 0 <= i < size :: vecElements.elements[i].id == vars[i].id && vars[i] in vars;
    }

    /**
     Unroll the constraints for the given size and ask the back end, first with the soft
     constraints and, when that fails, without them. With constraints as written over this
     vector, gs, the call succeeds exactly when some values of the elements meet all hard
     ones, and they meet the soft ones too when that is possible.
     */
    method Solve(size: nat, ghost names: Names, ghost gs: seq<Node>, ghost k: Kind, ghost vecs: Vectors)
        returns (ok: bool, ghost vars: seq<Node>)
      requires Valid() && Exact(decide, scope) && forall c | c in constraints :: CanExpand(c, size, names)
      requires |gs| == |constraints|
      modifies this`nextVar, this`solver, vecElements
      ensures Valid() && fresh(solver) && vars == Resized(old(vecElements.elements), size, old(nextVar))
      ensures Named(vars, IdsOf(vars)) && IdsOf(vecElements.elements) == IdsOf(vars)
      ensures vecElements.elements == TypedThrough(constraints, vars)
      ensures var hard, all := Handed(constraints, true, IdsOf(vars), vars), Handed(constraints, false, IdsOf(vars),
        vars);
        && ok == Sat(scope, hard) == solver.model.Some?
        && (ok ==> Satisfies(solver.model.value, scope, hard))
        && (Sat(scope, all) ==> ok && Satisfies(solver.model.value, scope, all))
      ensures vecs(vectorId) == IdsOf(vars) && AsWritten(constraints, gs, scope, vectorId, k, vecs, vars) ==>
        && ok == CanMeet(constraints, gs, true, vectorId, vecs, scope)
        && (ok ==> MetBy(constraints, gs, true, vectorId, vecs, scope, solver.model.value))
        && (CanMeet(constraints, gs, false, vectorId, vecs, scope) ==>
              ok && MetBy(constraints, gs, false, vectorId, vecs, scope, solver.model.value))
    {
      solver := new Solver(scope, decide, 0);
      vars := BuildSolver(size, names);
      hide AllFormulas, AsWritten, CanMeet, MetBy, Exact, Sat, Satisfies;
      ok := SolveTwice(AllFormulas(constraints, false, IdsOf(vars), vars),
        AllFormulas(constraints, true, IdsOf(vars), vars));
      HoldsNone(AllFormulas(constraints, false, IdsOf(vars), vars));
      if vecs(vectorId) == IdsOf(vars) && AsWritten(constraints, gs, scope, vectorId, k, vecs, vars) {
        HandedMeans(constraints, gs, true, scope, vectorId, k, vecs, vars);
        HandedMeans(constraints, gs, false, scope, vectorId, k, vecs, vars);
      }
    }

    method SolveTwice(ghost hard: Formulas, ghost soft: Formulas) returns (ok: bool)
      requires solver.Valid() && solver.scope == scope && solver.assumptions == [] && solver.suggestions == []
      requires solver.asserted == hard && ToSet(solver.softs) == soft
      modifies solver
      ensures ok == Sat(scope, hard) == solver.model.Some?
      ensures ok ==> Satisfies(solver.model.value, scope, hard)
      ensures Sat(scope, hard + soft) ==> ok && Satisfies(solver.model.value, scope, hard + soft)
    {
      SatFewer(scope, hard + soft, hard);
      assert solver.Must(false, []) == hard + soft && solver.Must(true, []) == hard;
      ghost var kept;
      ok, kept := solver.Solve(false);
      if !ok {
        ok, kept := solver.Solve(true);
      }
    }

    method ExpandOne(i: nat, size: nat, ghost names: Names, ghost ids: seq<nat>, ghost vars: seq<Node>,
        ghost hard: Formulas, ghost softs: seq<Node>)
      requires i < |constraints| && CanExpand(constraints[i], size, names) && size == |ids|
      requires Built(constraints[..i], ids, vars, vecElements.elements, hard, softs, solver.asserted, solver.softs)
      modifies vecElements, solver`asserted, solver`softs, solver`terminals
      ensures Built(constraints[..i + 1], ids, vars, vecElements.elements, hard, softs, solver.asserted, solver.softs)
    {
      var c := constraints[i];
      ghost var elements, a, b := vecElements.elements, solver.asserted, solver.softs;
      if c.expr.Unique? {
        ExpandUnique(c);
      } else {
        ExpandForEach(c, size, names, ids);
      }
      assert constraints[..i + 1] == constraints[..i] + [c];
      BuiltNext(constraints[..i], c, ids, vars, elements, vecElements.elements, hard, softs, a, b, solver.asserted,
        solver.softs);
    }
  }

  function IdsOf(vars: seq<Node>): (ids: seq<nat>)
    ensures |ids| == |vars| && forall i | 0 <= i < |vars| && vars[i].VariableExpr? :: ids[i] == vars[i].id
  {
    seq(|vars|, i requires 0 <= i < |vars| => if vars[i].VariableExpr? then vars[i].id else 0)
  }

  lemma SameNames(vars: seq<Node>, vars': seq<Node>, ids: seq<nat>)
    requires Named(vars, ids) && Named(vars', ids)
    ensures IdsOf(vars) == ids == IdsOf(vars')
  {
  }

  /** The constraints cs have been unrolled. */
  ghost predicate Built(cs: seq<Constraint>, ids: seq<nat>, vars: seq<Node>, elements: seq<Node>,
      hard: Formulas, softs: seq<Node>, hard': Formulas, softs': seq<Node>) {
    && Named(vars, ids) && Named(elements, ids) && elements == TypedThrough(cs, vars)
    && hard' == hard + AllFormulas(cs, false, ids, vars)
      && ToSet(softs') == ToSet(softs) + AllFormulas(cs, true, ids, vars)
  }

  lemma BuiltNext(cs: seq<Constraint>, c: Constraint, ids: seq<nat>, vars: seq<Node>, elements: seq<Node>,
      elements': seq<Node>,
      hard: Formulas, softs: seq<Node>, a: Formulas, b: seq<Node>, a': Formulas, b': seq<Node>)
    requires Built(cs, ids, vars, elements, hard, softs, a, b)
    requires Added(c.soft, FormulasOf(c, ids, elements), a, b, a', b')
    requires elements' == if c.expr.Unique? then elements else TypedBy(c.expr, |ids|, elements)
    ensures Built(cs + [c], ids, vars, elements', hard, softs, a', b')
  {
    assert (cs + [c])[..|cs|] == cs;
    if !c.expr.Unique? {
      TypedByNamed(c.expr, |ids|, elements, ids);
    }
  }
}
