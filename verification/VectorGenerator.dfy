/**
 The generator of vectors: one solver per vector with constraints, asked after the scalar
 variables have their values, because these give the sizes of the vectors.
 */
module VectorGenerators {
  import opened Bits
  import opened Ast
  import opened Partitions
  import opened Satisfiability
  import opened Solving
  import opened DefaultSolver
  import opened SoftsPerPartition
  import opened Softs
  import opened Generators
  import opened ForEachExpansion
  import opened ForEachMeaning
  import opened VectorMeaning
  import opened VectorSolvers
  import M = MetaSMT

  const DEFAULT_SIZE := 5

  /** The size of a vector, from the value of its size variable. */
  function SizeOf(v: Option<Val>): nat { if v.Some? && v.value.WordVal? then Num(v.value.w) else DEFAULT_SIZE }

  class VectorGenerator {
    var solvers: seq<VectorSolver>

    constructor ()
      ensures solvers == [] && Valid()
    {
      solvers := [];
    }

    /** One solver per vector, in the order of their ids; the solvers share no elements. */
    ghost predicate Valid()
      reads this, solvers, set i | 0 <= i < |solvers| :: solvers[i].vecElements
    {
      && (forall i | 0 <= i < |solvers| :: solvers[i].Valid() && Exact(solvers[i].decide, solvers[i].scope))
      && forall i, j | 0 <= i < j < |solvers| ::
           solvers[i].vectorId < solvers[j].vectorId && solvers[i].vecElements != solvers[j].vecElements
    }

    /** The hard constraints of vector i can hold for this size. */
    ghost predicate CanSolve(i: nat, size: nat)
      reads this, solvers, set j | 0 <= j < |solvers| :: solvers[j].vecElements
      requires i < |solvers|
    {
      var vs := solvers[i];
      var vars := Resized(vs.vecElements.elements, size, vs.nextVar);
      Sat(vs.scope, Handed(vs.constraints, true, IdsOf(vars), vars))
    }

    /** With constraints as they are written over the vector, gs, that is when its elements can meet the hard ones. */
    lemma CanSolveAsWritten(i: nat, size: nat, gs: seq<Node>, k: Kind, vecs: Vectors)
      requires i < |solvers|
      requires var vs := solvers[i];
        var vars := Resized(vs.vecElements.elements, size, vs.nextVar);
        vecs(vs.vectorId) == IdsOf(vars) && AsWritten(vs.constraints, gs, vs.scope, vs.vectorId, k, vecs, vars)
      ensures var vs := solvers[i];
        CanSolve(i, size) <==> CanMeet(vs.constraints, gs, true, vs.vectorId, vecs, vs.scope)
    {
      var vs := solvers[i];
      hide AsWritten, CanMeet, Handed, Sat;
      HandedMeans(vs.constraints, gs, true, vs.scope, vs.vectorId, k, vecs,
        Resized(vs.vecElements.elements, size, vs.nextVar));
    }

    /** The elements of vector i have values that meet its hard constraints. */
    ghost predicate Solved(i: nat)
      reads this, solvers, set j | 0 <= j < |solvers| :: solvers[j].vecElements
      reads set j | 0 <= j < |solvers| :: solvers[j].solver
      requires i < |solvers|
    {
      var vs := solvers[i];
      var ids := IdsOf(vs.vecElements.elements);
      vs.solver.model.Some? && exists vars ::
        && IdsOf(vars) == ids && Satisfies(vs.solver.model.value, vs.scope, Handed(vs.constraints, true, ids, vars))
    }

    /** Unrolling the constraints of vector i for this size meets no undefined subscript. */
    ghost predicate CanUnroll(i: nat, size: nat, names: Names)
      reads this, solvers
      requires i < |solvers|
    {
      forall c | c in solvers[i].constraints :: CanExpand(c, size, names)
    }

    /** Vector i can be unrolled for its size; sizes[i] is read from the scalar variables. */
    ghost predicate Ready(sizes: seq<nat>, names: Names)
      reads this, solvers
    {
      |sizes| == |solvers| && forall i | 0 <= i < |solvers| :: CanUnroll(i, sizes[i], names)
    }

    method SolveOne(i: nat, size: nat, ghost sizes: seq<nat>, ghost names: Names) returns (ok: bool)
      requires Valid() && i < |solvers| && Ready(sizes, names) && size == sizes[i]
      modifies solvers[i], solvers[i].vecElements
      ensures Valid() && Ready(sizes, names) && fresh(solvers[i].solver)
      ensures ok == old(CanSolve(i, size)) && (ok ==> Solved(i))
      ensures forall j | 0 <= j < |solvers| && j != i ::
        CanSolve(j, sizes[j]) == old(CanSolve(j, sizes[j])) && Solved(j) == old(Solved(j))
    {
      var vs := solvers[i];
      ghost var vars;
      ghost var gs := seq(|vs.constraints|, _ => Unique(Placeholder(0)));
      hide CanExpand, AllFormulas, Handed, AsWritten, CanMeet, MetBy;
      ok, vars := vs.Solve(size, names, gs, BoolKind, v => []);
      forall j | 0 <= j < |solvers| && j != i
        ensures solvers[j] != vs && solvers[j].vecElements != vs.vecElements
      {
        assert if j < i then solvers[j].vectorId < vs.vectorId else vs.vectorId < solvers[j].vectorId;
      }
    }

    ghost predicate SolvedUpTo(i: nat)
      reads this, solvers, set j | 0 <= j < |solvers| :: solvers[j].vecElements
      reads set j | 0 <= j < |solvers| :: solvers[j].solver
    {
      i <= |solvers| && forall j | 0 <= j < i :: Solved(j)
    }

    /** Vector after vector, until one fails. */
    method Solve(sizes: seq<nat>, ghost names: Names) returns (ok: bool)
      requires Valid() && Ready(sizes, names)
      modifies solvers, set i | 0 <= i < |solvers| :: solvers[i].vecElements
      ensures Valid() && solvers == old(solvers)
      ensures ok <==> forall i | 0 <= i < |solvers| :: old(CanSolve(i, sizes[i]))
      ensures ok ==> forall i | 0 <= i < |solvers| :: Solved(i)
    {
      hide CanExpand, CanSolve, Solved, CanUnroll;
      for i := 0 to |solvers|
        invariant Valid() && solvers == old(solvers) && Ready(sizes, names)
        invariant SolvedUpTo(i) && forall j | 0 <= j < i :: old(CanSolve(j, sizes[j]))
        invariant forall j | i <= j < |solvers| :: CanSolve(j, sizes[j]) == old(CanSolve(j, sizes[j]))
      {
        ok := SolveOne(i, sizes[i], sizes, names);
        if !ok {
          return;
        }
      }
      ok := true;
    }
  }

  /** A size that can be read when m is the model of the scalar variables: that of its variable, or the default. */
  predicate IsSize(size: nat, m: Model, id: nat) { size == SizeOf(Some(m(id))) || size == DEFAULT_SIZE }

  /** Scalar variables first, then vectors. */
  class RandomGenerator {
    const scalars: Generator
    const vectors: VectorGenerator

    constructor (scalars: Generator, vectors: VectorGenerator)
      ensures this.scalars == scalars && this.vectors == vectors
    {
      this.scalars, this.vectors := scalars, vectors;
    }

    /** The scalar variables and the vectors share nothing. */
    ghost predicate Apart()
      reads scalars.varGen, vectors
    {
      && scalars.partitioner !in scalars.varGen.repr && vectors !in scalars.varGen.repr
      && forall i | 0 <= i < |vectors.solvers| ::
           vectors.solvers[i] !in scalars.varGen.repr && vectors.solvers[i].vecElements !in scalars.varGen.repr
    }

    ghost function Asked(cs: seq<Constraint>, scope: M.Scope, exprs: RefExprs): Formulas {
      AskedOfAll(scope, Enabled(cs, false), scalars.varGen.vcon.readRefs, exprs)
    }

    /** Every vector can be unrolled for every size that it may get. */
    ghost predicate CanUnrollAll(asked: Formulas, scope: M.Scope, sizeVar: nat -> nat, names: Names)
      reads vectors, vectors.solvers
    {
      forall i, m: Model, size: nat | 0 <= i < |vectors.solvers| && Satisfies(m, scope, asked)
          && IsSize(size, m, sizeVar(vectors.solvers[i].vectorId)) ::
        vectors.CanUnroll(i, size, names)
    }

    /**
     A size is the unsigned number of its variable in m. The default is taken only when no
     partition has the variable or no formula mentions it.
     */
    ghost predicate SizeRead(size: nat, id: nat, m: Model)
      reads scalars.varGen, set i | 0 <= i < |scalars.varGen.solvers| :: scalars.varGen.solvers[i].solver
    {
      if (exists i: nat :: scalars.varGen.Mentioned(i, id)) && m(id).WordVal? then size == Num(m(id).w) else size == 5
    }

    /** A size of which an enabled hard constraint speaks is the number that its variable has in m. */
    ghost predicate SizesAsked(cs: seq<Constraint>, m: Model, sizeVar: nat -> nat, sizes: seq<nat>)
      reads vectors
    {
      forall i, c | 0 <= i < |sizes| && i < |vectors.solvers| && c in cs && c.enabled && !c.vector ::
        var id := sizeVar(vectors.solvers[i].vectorId);
        !c.soft && !c.cover && id in Support(c.expr) && m(id).WordVal? ==> sizes[i] == Num(m(id).w)
    }

    /** m is a model of the scalar constraints that the partitions agree with, and it gives the sizes. */
    ghost predicate Chosen(m: Model, asked: Formulas, scope: M.Scope, sizeVar: nat -> nat, sizes: seq<nat>)
      reads vectors, scalars.varGen, scalars.varGen.solvers
      reads set i | 0 <= i < |scalars.varGen.solvers| :: scalars.varGen.solvers[i].solver
    {
      && Satisfies(m, scope, asked)
        && (forall i | 0 <= i < |scalars.varGen.solvers| :: scalars.varGen.solvers[i].Holds(m))
      && |sizes| == |vectors.solvers|
      && forall i | 0 <= i < |sizes| :: SizeRead(sizes[i], sizeVar(vectors.solvers[i].vectorId), m)
    }

    /** ... and m makes every enabled hard constraint over scalars true, with the sizes that they ask for. */
    ghost predicate Explains(m: Model, cs: seq<Constraint>, scope: M.Scope, exprs: RefExprs, sizeVar: nat -> nat,
        sizes: seq<nat>)
      reads vectors, scalars.varGen, scalars.varGen.solvers
      reads set i | 0 <= i < |scalars.varGen.solvers| :: scalars.varGen.solvers[i].solver
    {
      && Chosen(m, Asked(cs, scope, exprs), scope, sizeVar, sizes)
      && MeetsEnabled(cs, m) && SizesAsked(cs, m, sizeVar, sizes)
    }

    method ReadSizes(sizeVar: nat -> nat) returns (sizes: seq<nat>)
      requires forall i | 0 <= i < |scalars.varGen.solvers| :: scalars.varGen.solvers[i].solver.model.Some?
      ensures |sizes| == |vectors.solvers|
      ensures forall i | 0 <= i < |sizes| ::
        sizes[i] == SizeOf(scalars.varGen.Value(0, sizeVar(vectors.solvers[i].vectorId)))
    {
      sizes := [];
      for i := 0 to |vectors.solvers|
        invariant |sizes| == i
        invariant forall j | 0 <= j < i ::
          sizes[j] == SizeOf(scalars.varGen.Value(0, sizeVar(vectors.solvers[j].vectorId)))
      {
        var v := scalars.varGen.Read(sizeVar(vectors.solvers[i].vectorId));
        sizes := sizes + [SizeOf(v)];
      }
    }

    lemma SizeIsRead(cs: seq<Constraint>, scope: M.Scope, m: Model, id: nat)
      requires scalars.Built(cs, scope)
      requires forall i | 0 <= i < |scalars.varGen.solvers| :: scalars.varGen.solvers[i].Holds(m)
      ensures SizeRead(SizeOf(scalars.varGen.Value(0, id)), id, m)
    {
      hide Num;
      scalars.varGen.ValueFound(0, id);
      scalars.varGen.ValueHolds(0, id, m);
      if i: nat :| scalars.varGen.Mentioned(i, id) {
        scalars.OnlyOne(cs, scope, i, id);
      }
    }

    lemma SizesAreChosen(cs: seq<Constraint>, scope: M.Scope, m: Model, sizeVar: nat -> nat, sizes: seq<nat>)
      requires scalars.Built(cs, scope)
      requires forall i | 0 <= i < |scalars.varGen.solvers| :: scalars.varGen.solvers[i].Holds(m)
      requires |sizes| == |vectors.solvers|
      requires forall i | 0 <= i < |sizes| ::
        sizes[i] == SizeOf(scalars.varGen.Value(0, sizeVar(vectors.solvers[i].vectorId)))
      ensures forall i | 0 <= i < |sizes| :: SizeRead(sizes[i], sizeVar(vectors.solvers[i].vectorId), m)
    {
      hide SizeOf, SizeRead;
      forall i | 0 <= i < |sizes|
        ensures SizeRead(sizes[i], sizeVar(vectors.solvers[i].vectorId), m)
      {
        SizeIsRead(cs, scope, m, sizeVar(vectors.solvers[i].vectorId));
      }
    }

    lemma AskedSizes(cs: seq<Constraint>, scope: M.Scope, exprs: RefExprs, m: Model, sizeVar: nat -> nat,
        sizes: seq<nat>)
      requires scalars.Built(cs, scope) && WellMade(Enabled(cs, false)) && M.KindsOk(scope)
      requires Chosen(m, Asked(cs, scope, exprs), scope, sizeVar, sizes)
      ensures MeetsEnabled(cs, m) && SizesAsked(cs, m, sizeVar, sizes)
    {
      scalars.AskedMeetsEnabled(cs, scope, exprs, m);
      SortedHards(Enabled(cs, false));
      hide Num, Generator.Built, MeetsEnabled, Hards, InsertAll, Survivors;
      SatFewer(scope, Asked(cs, scope, exprs), Hards(Enabled(cs, false)));
      forall i, c | 0 <= i < |sizes| && c in cs && c.enabled && !c.vector && !c.soft && !c.cover
          && sizeVar(vectors.solvers[i].vectorId) in Support(c.expr)
        ensures exists k: nat :: scalars.varGen.Mentioned(k, sizeVar(vectors.solvers[i].vectorId))
      {
        var k := scalars.HardIsMentioned(cs, scope, c, sizeVar(vectors.solvers[i].vectorId));
      }
    }

    lemma DeliveredModels(cs: seq<Constraint>, scope: M.Scope, exprs: RefExprs)
      requires scalars.Built(cs, scope) && scalars.Delivered(cs, scope, exprs)
      ensures forall i | 0 <= i < |scalars.varGen.solvers| :: scalars.varGen.solvers[i].solver.model.Some?
    {
    }

    lemma SomeChosen(cs: seq<Constraint>, scope: M.Scope, exprs: RefExprs, sizeVar: nat -> nat, sizes: seq<nat>)
      requires scalars.Built(cs, scope) && scalars.Delivered(cs, scope, exprs)
      requires ConstraintsOk(Enabled(cs, false), scalars.varGen.vcon) && M.KindsOk(scope)
      requires |sizes| == |vectors.solvers| && forall i | 0 <= i < |sizes| ::
        sizes[i] == SizeOf(scalars.varGen.Value(0, sizeVar(vectors.solvers[i].vectorId)))
      ensures exists m: Model :: Explains(m, cs, scope, exprs, sizeVar, sizes)
    {
      hide AskedOfAll, Satisfies, Generator.Built, VariableDefaultSolver.Holds, SizeRead, SizeOf;
      hide VariableGenerator.Value;
      var m := scalars.SomeModel(cs, scope, exprs);
      SizesAreChosen(cs, scope, m, sizeVar, sizes);
      assert Chosen(m, Asked(cs, scope, exprs), scope, sizeVar, sizes);
      AskedSizes(cs, scope, exprs, m, sizeVar, sizes);
      assert Explains(m, cs, scope, exprs, sizeVar, sizes);
    }

    /** The scalar part of a call, and the sizes that it gives to the vectors. */
    method NextScalars(ghost cs: seq<Constraint>, ghost scope: M.Scope, exprs: RefExprs, values: RefValues,
        sizeVar: nat -> nat) returns (ok: bool, sizes: seq<nat>)
      requires scalars.Built(cs, scope) && Apart() && M.KindsOk(scope)
      requires ConstraintsOk(Enabled(cs, false), scalars.varGen.vcon) && RefsSpeak(scalars.varGen.vcon.readRefs, exprs)
      modifies scalars.varGen.repr
      ensures scalars.Built(cs, scope) && Apart() && |sizes| == |vectors.solvers|
      ensures scalars.varGen.repr == old(scalars.varGen.repr)
      ensures ok <==> Sat(scope, Asked(cs, scope, exprs))
      ensures ok ==> exists m: Model :: Explains(m, cs, scope, exprs, sizeVar, sizes)
    {
      hide AskedOfAll, Sat, ConstraintsOk, RefsSpeak, Generator.Built, Generator.Delivered, Explains, MeetsEnabled;
      hide ReadsNothing, M.ModelFits, SizeOf, VariableGenerator.Value;
      ok := scalars.Next(cs, scope, exprs, values);
      if ok {
        DeliveredModels(cs, scope, exprs);
        sizes := ReadSizes(sizeVar);
        SomeChosen(cs, scope, exprs, sizeVar, sizes);
      } else {
        sizes := seq(|vectors.solvers|, _ => 0);
      }
    }

    lemma ChosenUnrolls(m: Model, cs: seq<Constraint>, scope: M.Scope, exprs: RefExprs, sizeVar: nat -> nat,
        sizes: seq<nat>, names: Names)
      requires CanUnrollAll(Asked(cs, scope, exprs), scope, sizeVar, names)
      requires Explains(m, cs, scope, exprs, sizeVar, sizes)
      ensures vectors.Ready(sizes, names)
    {
      hide Satisfies, VariableDefaultSolver.Holds, Num;
      forall i | 0 <= i < |vectors.solvers|
        ensures vectors.CanUnroll(i, sizes[i], names)
      {
        assert IsSize(sizes[i], m, sizeVar(vectors.solvers[i].vectorId));
      }
    }

    /** Vectors for which no subscript is undefined and whose solvers are apart from the scalar ones. */
    ghost predicate VectorsReady(asked: Formulas, scope: M.Scope, sizeVar: nat -> nat, names: Names)
      reads scalars.varGen, vectors, vectors.solvers
      reads set i | 0 <= i < |vectors.solvers| :: vectors.solvers[i].vecElements
    {
      vectors.Valid() && Apart() && CanUnrollAll(asked, scope, sizeVar, names)
    }

    /**
     A call succeeds exactly when the scalar constraints can hold together and then, for the
     sizes that the chosen model of the scalar variables gives, the hard constraints of every
     vector can. The sizes are not chosen again when a vector fails.
     */
    method Next(ghost cs: seq<Constraint>, ghost scope: M.Scope, exprs: RefExprs, values: RefValues,
        sizeVar: nat -> nat, ghost names: Names) returns (ok: bool, sizes: seq<nat>)
      requires scalars.Built(cs, scope) && M.KindsOk(scope)
      requires VectorsReady(Asked(cs, scope, exprs), scope, sizeVar, names)
      requires ConstraintsOk(Enabled(cs, false), scalars.varGen.vcon) && RefsSpeak(scalars.varGen.vcon.readRefs, exprs)
      modifies scalars.varGen.repr, vectors.solvers
      modifies set i | 0 <= i < |vectors.solvers| :: vectors.solvers[i].vecElements
      ensures |sizes| == |vectors.solvers| == |old(vectors.solvers)|
      ensures ok <==> (
        && Sat(scope, Asked(cs, scope, exprs))
        && forall i | 0 <= i < |sizes| :: old(vectors.CanSolve(i, sizes[i])))
      ensures Sat(scope, Asked(cs, scope, exprs)) ==>
        exists m: Model :: Explains(m, cs, scope, exprs, sizeVar, sizes)
      ensures ok ==> forall i | 0 <= i < |sizes| :: vectors.Solved(i)
    {
      hide AskedOfAll, Sat, ConstraintsOk, RefsSpeak, Generator.Built, Explains, VectorGenerator.CanSolve;
      ok, sizes := NextScalars(cs, scope, exprs, values, sizeVar);
      if ok {
        ghost var m: Model :| Explains(m, cs, scope, exprs, sizeVar, sizes);
        ChosenUnrolls(m, cs, scope, exprs, sizeVar, sizes, names);
        ok := vectors.Solve(sizes, names);
        assert Explains(m, cs, scope, exprs, sizeVar, sizes);
      }
    }
  }
}
