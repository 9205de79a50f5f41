/**
 The generator: one solver per partition, asked one after the other.
 */
module Generators {
  import opened Ast
  import opened Partitions
  import opened Satisfiability
  import opened Softs
  import opened Solving
  import opened DefaultSolver
  import opened SoftsPerPartition
  import M = MetaSMT

  // ----- What the answers of the partitions say together -----

  lemma AllDemands(scope: M.Scope, ps: seq<Partition>, cs: seq<Constraint>, n: Node)
    requires Splits(ps, cs) && WellMade(cs) && DistinctIds(cs) && Sat(scope, Hards(cs))
    ensures n in Demands(scope, InsertAll(cs)) <==> exists i :: 0 <= i < |ps| && n in Demands(scope, ps[i].constraints)
  {
    if n in Demands(scope, InsertAll(cs)) {
      DemandSomewhere(scope, ps, cs, n);
    }
    if i :| 0 <= i < |ps| && n in Demands(scope, ps[i].constraints) {
      var own, all := ps[i].constraints, InsertAll(cs);
      SortedHards(cs);
      if n in Hards(own) {
        var c :| c in own && c.IsHard() && c.expr == n;
        MemberSomewhere(ps, cs, c);
      } else {
        var c :| c in Survivors(scope, own) && c.expr == n;
        PartitioningKeepsSurvivors(scope, ps, cs, i);
        WithinMember(Survivors(scope, all), Members(own), c);
      }
    }
  }

  /** The variables of all constraints are those of the partitions. */
  lemma AllSupport(ps: seq<Partition>, cs: seq<Constraint>, id: nat)
    requires Splits(ps, cs)
    ensures id in UnionSupport(Members(cs)) <==> exists i :: 0 <= i < |ps| && id in ps[i].support
  {
    if id in UnionSupport(Members(cs)) {
      var c :| c in Members(cs) && id in c.support;
      MemberSomewhere(ps, cs, c);
      var i :| 0 <= i < |ps| && c in ps[i].constraints;
      MemberSupport(ps[i], c);
    }
    if i :| 0 <= i < |ps| && id in ps[i].support {
      assert PartitionOk(ps[i]);
      var c :| c in Members(ps[i].constraints) && id in c.support;
      MemberSomewhere(ps, cs, c);
      assert c in Members(cs);
    }
  }

  /** The formula of a reference speaks of its own variable. */
  ghost predicate RefsSpeak(refs: seq<nat>, exprs: RefExprs) {
    forall id | id in refs :: Support(exprs(id)) <= {id}
  }

  /** What partition p has to meet, with the read references. */
  ghost function Asked(scope: M.Scope, p: Partition, refs: seq<nat>, exprs: RefExprs): Formulas {
    Demands(scope, p.constraints) + RefFormulas(Contained(refs, p.support), exprs)
  }

  /** What all constraints together have to meet. */
  ghost function AskedOfAll(scope: M.Scope, cs: seq<Constraint>, refs: seq<nat>, exprs: RefExprs): Formulas {
    Demands(scope, InsertAll(cs)) + RefFormulas(Contained(refs, UnionSupport(Members(cs))), exprs)
  }

  lemma AskedIsUnion(scope: M.Scope, ps: seq<Partition>, cs: seq<Constraint>, refs: seq<nat>, exprs: RefExprs, n: Node)
    requires Splits(ps, cs) && WellMade(cs) && DistinctIds(cs) && Sat(scope, Hards(cs))
    ensures n in AskedOfAll(scope, cs, refs, exprs) <==> exists i ::
      0 <= i < |ps| && n in Asked(scope, ps[i], refs, exprs)
  {
    AllDemands(scope, ps, cs, n);
    ContainedMember(refs, UnionSupport(Members(cs)));
    forall i | 0 <= i < |ps|
      ensures forall id :: id in Contained(refs, ps[i].support) <==> id in refs && id in ps[i].support
    {
      ContainedMember(refs, ps[i].support);
    }
    forall id
      ensures id in UnionSupport(Members(cs)) <==> exists i :: 0 <= i < |ps| && id in ps[i].support
    {
      AllSupport(ps, cs, id);
    }
  }

  lemma AskedOver(scope: M.Scope, ps: seq<Partition>, cs: seq<Constraint>, i: nat, refs: seq<nat>, exprs: RefExprs)
    requires Splits(ps, cs) && WellMade(cs) && RefsSpeak(refs, exprs) && i < |ps|
    ensures Over(Asked(scope, ps[i], refs, exprs), ps[i].support)
  {
    DemandsOver(scope, ps, cs, i);
    ContainedMember(refs, ps[i].support);
  }

  ghost function AskedOfEach(scope: M.Scope, ps: seq<Partition>, refs: seq<nat>, exprs: RefExprs): (r: seq<Formulas>)
    ensures |r| == |ps| && forall i | 0 <= i < |ps| :: r[i] == Asked(scope, ps[i], refs, exprs)
  {
    seq(|ps|, i requires 0 <= i < |ps| => Asked(scope, ps[i], refs, exprs))
  }

  lemma UnionIsAsked(scope: M.Scope, ps: seq<Partition>, cs: seq<Constraint>, refs: seq<nat>, exprs: RefExprs)
    requires Splits(ps, cs) && WellMade(cs) && DistinctIds(cs) && Sat(scope, Hards(cs))
    ensures Union(AskedOfEach(scope, ps, refs, exprs)) == AskedOfAll(scope, cs, refs, exprs)
  {
    forall n
      ensures n in Union(AskedOfEach(scope, ps, refs, exprs)) <==> n in AskedOfAll(scope, cs, refs, exprs)
    {
      InUnion(AskedOfEach(scope, ps, refs, exprs), n);
      AskedIsUnion(scope, ps, cs, refs, exprs, n);
    }
  }

  /**
   Every partition can be solved by itself exactly when all hard constraints, all surviving
   soft constraints and all read references can hold together.
   */
  lemma PartitionsDecideAll(scope: M.Scope, ps: seq<Partition>, cs: seq<Constraint>, refs: seq<nat>, exprs: RefExprs)
    requires Splits(ps, cs) && WellMade(cs) && DistinctIds(cs) && RefsSpeak(refs, exprs) && M.KindsOk(scope)
    ensures (forall i | 0 <= i < |ps| :: Sat(scope, Asked(scope, ps[i], refs, exprs)))
      <==> Sat(scope, AskedOfAll(scope, cs, refs, exprs))
  {
    SortedHards(cs);
    HardsIffPartitions(ps, cs, scope);
    if Sat(scope, Hards(cs)) {
      UnionIsAsked(scope, ps, cs, refs, exprs);
      forall i | 0 <= i < |ps|
        ensures Over(Asked(scope, ps[i], refs, exprs), ps[i].support)
      {
        AskedOver(scope, ps, cs, i, refs, exprs);
      }
      UnionSat(ps, scope, AskedOfEach(scope, ps, refs, exprs));
    } else {
      SatFewer(scope, AskedOfAll(scope, cs, refs, exprs), Hards(cs));
      var i :| 0 <= i < |ps| && !Sat(scope, Hards(ps[i].constraints));
      SatFewer(scope, Asked(scope, ps[i], refs, exprs), Hards(ps[i].constraints));
    }
  }

  // ----- The generator -----

  class VariableGenerator {
    const vcon: VariableContainer
    var solvers: seq<VariableDefaultSolver>
    ghost var repr: set<object>

    constructor (vcon: VariableContainer)
      ensures this.vcon == vcon && solvers == [] && Valid() && repr == {}
    {
      this.vcon, solvers, repr := vcon, [], {};
    }

    /** The solvers are in order and share nothing. */
    ghost predicate Valid()
      reads this, repr
    {
      && this !in repr
      && (forall i | 0 <= i < |solvers| ::
            solvers[i] in repr && solvers[i].Owns() && solvers[i].repr <= repr && solvers[i].Valid())
      && (forall i, j | 0 <= i < j < |solvers| :: solvers[i].repr !! solvers[j].repr)
    }

    method SolveOne(i: nat, exprs: RefExprs, values: RefValues) returns (ok: bool)
      requires Valid() && i < |solvers|
      modifies solvers[i].repr
      ensures Valid() && ok == old(solvers[i].Solvable(exprs))
      ensures ok ==> solvers[i].Delivered(exprs)
      ensures forall j | 0 <= j < |solvers| :: solvers[j].Analysis() == old(solvers[j].Analysis())
      ensures forall j | 0 <= j < |solvers| && j != i :: solvers[j].Delivered(exprs) == old(solvers[j].Delivered(exprs))
    {
      ok := solvers[i].Solve(exprs, values);
      forall j | 0 <= j < |solvers| && j != i
        ensures solvers[j].repr !! solvers[i].repr
      {
        if j < i {
          assert solvers[j].repr !! solvers[i].repr;
        } else {
          assert solvers[i].repr !! solvers[j].repr;
        }
      }
    }

    /** One after the other, until one fails. */
    method Solve(exprs: RefExprs, values: RefValues) returns (ok: bool)
      requires Valid()
      modifies repr
      ensures Valid() && solvers == old(solvers) && repr == old(repr)
      ensures ok <==> forall i | 0 <= i < |solvers| :: old(solvers[i].Solvable(exprs))
      ensures ok ==> forall i | 0 <= i < |solvers| :: solvers[i].Delivered(exprs)
      ensures forall i | 0 <= i < |solvers| :: solvers[i].Analysis() == old(solvers[i].Analysis())
    {
      for i := 0 to |solvers|
        invariant Valid()
        invariant forall j | 0 <= j < i :: old(solvers[j].Solvable(exprs)) && solvers[j].Delivered(exprs)
        invariant forall j | 0 <= j < |solvers| :: solvers[j].Analysis() == old(solvers[j].Analysis())
      {
        ok := SolveOne(i, exprs, values);
        if !ok {
          return;
        }
      }
      ok := true;
    }

    /** The value of a variable in the model of the first partition that has it, from partition i on. */
    ghost function Value(i: nat, id: nat): Option<Val>
      reads this`solvers, set j | 0 <= j < |solvers| :: solvers[j].solver
      decreases |solvers| - i
    {
      if i >= |solvers| then None
      else
        var vs := solvers[i];
        if id !in vs.partition.support then Value(i + 1, id)
        else if vs.solver.model.Some? && id in vs.solver.terminals then Some(vs.solver.model.value(id))
        else None
    }

    /** Some formula of partition i mentions the variable. */
    ghost predicate Mentioned(i: nat, id: nat)
      reads this`solvers, set j | 0 <= j < |solvers| :: solvers[j].solver
    {
      i < |solvers| && id in solvers[i].partition.support && id in solvers[i].solver.terminals
    }

    /** No partition from i on, before k, has the variable. */
    ghost predicate First(i: nat, k: nat, id: nat)
      reads this`solvers
    {
      forall j | i <= j < k && j < |solvers| :: id !in solvers[j].partition.support
    }

    /**
     A variable that is mentioned in the only partition that has it has the value of that
     partition's model, and no other variable has a value.
     */
    method Read(id: nat) returns (v: Option<Val>)
      requires forall i | 0 <= i < |solvers| :: solvers[i].solver.model.Some?
      ensures v == Value(0, id)
      ensures forall i: nat | Mentioned(i, id) && First(0, i, id) :: v == Some(solvers[i].solver.model.value(id))
      ensures v.Some? ==> exists i: nat :: Mentioned(i, id) && v.value == solvers[i].solver.model.value(id)
    {
      ValueFound(0, id);
      for i := 0 to |solvers|
        invariant Value(0, id) == Value(i, id)
      {
        var found;
        found, v := solvers[i].Read(id);
        if found {
          return;
        }
      }
      v := None;
    }

    lemma {:induction false} ValueFound(i: nat, id: nat)
      requires i <= |solvers| && forall j | 0 <= j < |solvers| :: solvers[j].solver.model.Some?
      ensures forall k: nat | i <= k && Mentioned(k, id) && First(i, k, id) ::
        Value(i, id) == Some(solvers[k].solver.model.value(id))
      ensures Value(i, id).Some? ==>
        exists k: nat :: Mentioned(k, id) && Value(i, id).value == solvers[k].solver.model.value(id)
      decreases |solvers| - i
    {
      if i < |solvers| {
        ValueFound(i + 1, id);
        forall k: nat | i < k && Mentioned(k, id) && First(i, k, id)
          ensures id !in solvers[i].partition.support && First(i + 1, k, id)
        {
        }
        if Value(i, id).Some? && id in solvers[i].partition.support {
          assert Mentioned(i, id);
        }
      }
    }

    /** What is read is the value in every model that the partitions agree with. */
    lemma {:induction false} ValueHolds(i: nat, id: nat, m: Model)
      requires forall j | 0 <= j < |solvers| :: solvers[j].Holds(m)
      ensures Value(i, id).Some? ==> Value(i, id).value == m(id)
      decreases |solvers| - i
    {
      if i < |solvers| && id !in solvers[i].partition.support {
        ValueHolds(i + 1, id, m);
      }
    }

    method AddSolver(p: Partition, scope: M.Scope, decide: BackEnd, conflicts: Conflicts,
        toConstant: (nat, Option<Val>) -> Constant, bypass: bool, cudd: bool)
      requires Valid() && CanBuild(vcon, p) && Exact(decide, scope) && FindsConflicts(conflicts, scope)
      modifies this`solvers, this`repr
      ensures Valid() && fresh(repr - old(repr))
      ensures |solvers| == |old(solvers)| + 1 && solvers[..|old(solvers)|] == old(solvers)
      ensures solvers[|old(solvers)|].BuiltFor(vcon, p, scope, bypass)
    {
      hide Exact, FindsConflicts, VariableDefaultSolver.BuiltFor;
      var vs := new VariableDefaultSolver(vcon, p, scope, decide, conflicts, toConstant, bypass, cudd);
      Register(vs);
    }

    method Register(vs: VariableDefaultSolver)
      requires Valid() && vs.Valid() && vs.Owns() && vs.repr !! repr && this !in vs.repr
      modifies this`solvers, this`repr
      ensures Valid() && solvers == old(solvers) + [vs] && repr == old(repr) + vs.repr
    {
      solvers := solvers + [vs];
      repr := repr + vs.repr;
    }

    /** One solver per partition. */
    method Reset(partitions: seq<Partition>, scope: M.Scope, decide: BackEnd, conflicts: Conflicts,
        toConstant: (nat, Option<Val>) -> Constant, bypass: bool, cudd: bool)
      requires forall i | 0 <= i < |partitions| :: CanBuild(vcon, partitions[i])
      requires Exact(decide, scope) && FindsConflicts(conflicts, scope)
      modifies this
      ensures Valid() && fresh(repr) && |solvers| == |partitions|
      ensures forall i | 0 <= i < |partitions| :: solvers[i].BuiltFor(vcon, partitions[i], scope, bypass)
    {
      hide Exact, FindsConflicts, CanBuild, VariableDefaultSolver.BuiltFor;
      solvers, repr := [], {};
      for i := 0 to |partitions|
        invariant Valid() && fresh(repr) && |solvers| == i
        invariant forall j | 0 <= j < i :: solvers[j].BuiltFor(vcon, partitions[j], scope, bypass)
      {
        AddSolver(partitions[i], scope, decide, conflicts, toConstant, bypass, cudd);
      }
    }
  }

  /** What the constructor of a partition's solver asks for. */
  ghost predicate CanBuild(vcon: VariableContainer, p: Partition) {
    && PartitionOk(p) && WellMade(p.constraints) && p.support <= vcon.variables.Keys
    && forall id | id in vcon.distRefs && id in p.support :: id in vcon.distRefToVar
  }

  // ----- From the constraints to the answer -----

  /** A partition's solver answers whether the partition's demands and references can hold. */
  lemma SolvableIfAsked(vs: VariableDefaultSolver, vcon: VariableContainer, p: Partition, scope: M.Scope,
      exprs: RefExprs)
    requires vs.BuiltFor(vcon, p, scope, false)
    ensures vs.Solvable(exprs) <==> Sat(scope, Asked(scope, p, vcon.readRefs, exprs))
  {
    SatFewer(scope, Asked(scope, p, vcon.readRefs, exprs), Hards(p.constraints));
  }

  ghost predicate ConstraintsOk(cs: seq<Constraint>, vcon: VariableContainer) {
    && WellMade(cs) && DistinctIds(cs)
    && (forall c | c in cs :: c.support <= vcon.variables.Keys)
    && forall id | id in vcon.distRefs :: id in vcon.distRefToVar
  }

  lemma PartitionsCanBuild(ps: seq<Partition>, cs: seq<Constraint>, vcon: VariableContainer, i: nat)
    requires Splits(ps, cs) && ConstraintsOk(cs, vcon) && i < |ps|
    ensures CanBuild(vcon, ps[i])
  {
    SplitsWellMade(ps, cs, i);
    assert PartitionOk(ps[i]);
    forall c | c in ps[i].constraints
      ensures c in cs
    {
      MemberSomewhere(ps, cs, c);
    }
  }

  /** The models that the solvers have found. */
  ghost function Models(vss: seq<VariableDefaultSolver>): (models: seq<Model>)
    reads set i | 0 <= i < |vss| :: vss[i].solver
    requires forall i | 0 <= i < |vss| :: vss[i].solver.model.Some?
    ensures |models| == |vss| && forall i | 0 <= i < |vss| :: models[i] == vss[i].solver.model.value
  {
    if vss == [] then [] else Models(vss[..|vss| - 1]) + [vss[|vss| - 1].solver.model.value]
  }

  /** Inside a partition the glued model is the partition's own. */
  lemma {:induction false} GluedAt(ps: seq<Partition>, models: seq<Model>, base: Model, i: nat, id: nat)
    requires Separated(ps) && |models| == |ps| && i < |ps| && id in ps[i].support
    ensures Glued(ps, models, base)(id) == models[i](id)
  {
    var k := |ps| - 1;
    if i < k {
      assert ps[i].support !! ps[k].support;
      GluedAt(ps[..k], models[..k], base, i, id);
    }
  }

  /** The values that the partitions deliver are those of one model of everything. */
  lemma GluedDelivers(vcon: VariableContainer, vss: seq<VariableDefaultSolver>, ps: seq<Partition>,
      cs: seq<Constraint>, scope: M.Scope, exprs: RefExprs)
      returns (m: Model)
    requires Splits(ps, cs) && ConstraintsOk(cs, vcon) && RefsSpeak(vcon.readRefs, exprs) && M.KindsOk(scope)
    requires |vss| == |ps|
    requires forall i | 0 <= i < |ps| ::
      vss[i].BuiltFor(vcon, ps[i], scope, false) && vss[i].Delivered(exprs) && vss[i].contradictions == []
    ensures Satisfies(m, scope, AskedOfAll(scope, cs, vcon.readRefs, exprs))
    ensures forall i | 0 <= i < |vss| :: vss[i].Holds(m)
  {
    var models := Models(vss);
    var fss := AskedOfEach(scope, ps, vcon.readRefs, exprs);
    NothingIsSat(scope);
    m := Glued(ps, models, DefaultModel(scope));
    forall i | 0 <= i < |ps|
      ensures Over(fss[i], ps[i].support) && Sat(scope, Hards(ps[i].constraints)) && vss[i].Holds(m)
    {
      AskedOver(scope, ps, cs, i, vcon.readRefs, exprs);
      ContainedMember(vcon.writeRefs, ps[i].support);
      forall id | id in ps[i].support
        ensures m(id) == models[i](id)
      {
        GluedAt(ps, models, DefaultModel(scope), i, id);
      }
    }
    HardsIffPartitions(ps, cs, scope);
    GluedSatisfies(ps, models, DefaultModel(scope), scope, fss);
    UnionIsAsked(scope, ps, cs, vcon.readRefs, exprs);
  }

  /** m makes every enabled hard constraint that is not over a vector true. */
  ghost predicate MeetsEnabled(cs: seq<Constraint>, m: Model) {
    forall c | c in cs && c.enabled && !c.vector && !c.soft && !c.cover :: Denote(c.expr, m) == BoolVal(true)
  }

  /** No enabled constraint over scalars mentions a read reference. */
  ghost predicate ReadsNothing(cs: seq<Constraint>, refs: seq<nat>) {
    forall c, id | c in cs && c.enabled && !c.vector && id in refs :: id !in c.support
  }

  lemma NothingContained(cs: seq<Constraint>, all: seq<Constraint>, refs: seq<nat>)
    requires (forall c :: c in all <==> c in cs && c.enabled && !c.vector) && ReadsNothing(cs, refs)
    ensures Contained(refs, UnionSupport(Members(all))) == []
  {
    ContainedNone(refs, UnionSupport(Members(all)));
  }

  lemma {:induction false} ContainedNone(refs: seq<nat>, vars: set<nat>)
    requires forall id | id in refs :: id !in vars
    ensures Contained(refs, vars) == []
  {
    if refs != [] {
      ContainedNone(refs[..|refs| - 1], vars);
    }
  }

  lemma HardsMeet(cs: seq<Constraint>, all: seq<Constraint>, scope: M.Scope)
    requires forall c :: c in all <==> c in cs && c.enabled && !c.vector
    ensures Sat(scope, Hards(all)) <==> exists m: Model :: M.ModelFits(m, scope) && MeetsEnabled(cs, m)
  {
    hide Denote;
    forall m: Model
      ensures Holds(Hards(all), m) <==> MeetsEnabled(cs, m)
    {
      if Holds(Hards(all), m) {
        forall c | c in cs && c.enabled && !c.vector && !c.soft && !c.cover
          ensures Denote(c.expr, m) == BoolVal(true)
        {
          assert c.expr in Hards(all);
        }
      }
    }
    if m: Model :| Satisfies(m, scope, Hards(all)) {
      assert M.ModelFits(m, scope) && MeetsEnabled(cs, m);
    }
    if m: Model :| M.ModelFits(m, scope) && MeetsEnabled(cs, m) {
      assert Satisfies(m, scope, Hards(all));
    }
  }

  class Generator {
    const partitioner: ConstraintPartitioner
    const varGen: VariableGenerator

    constructor (vcon: VariableContainer)
      ensures varGen.Valid() && varGen.vcon == vcon && fresh(partitioner) && fresh(varGen) && varGen.repr == {}
      ensures partitioner !in varGen.repr
    {
      partitioner := new ConstraintPartitioner();
      varGen := new VariableGenerator(vcon);
    }

    /** The solvers of the partitions of the enabled constraints over scalar variables. */
    ghost predicate Built(cs: seq<Constraint>, scope: M.Scope)
      reads partitioner, varGen, varGen.repr
    {
      && varGen.Valid() && Splits(partitioner.partitions, Enabled(cs, false))
      && |varGen.solvers| == |partitioner.partitions|
      && forall i | 0 <= i < |varGen.solvers| ::
           varGen.solvers[i].BuiltFor(varGen.vcon, partitioner.partitions[i], scope, false)
    }

    /** Partition the constraints anew and make a solver for every partition. */
    method Rebuild(id: nat, cs: seq<Constraint>, scope: M.Scope, decide: BackEnd, conflicts: Conflicts,
        toConstant: (nat, Option<Val>) -> Constant, cudd: bool)
      requires ConstraintsOk(Enabled(cs, false), varGen.vcon) && Exact(decide, scope)
      requires FindsConflicts(conflicts, scope)
      modifies partitioner, varGen
      ensures Built(cs, scope) && fresh(varGen.repr)
    {
      partitioner.Reset();
      partitioner.MergeConstraints(id, cs);
      partitioner.Partition();
      ghost var ps := partitioner.partitions;
      assert ps[0..] == ps && [] + Enabled(cs, false) == Enabled(cs, false);
      forall i | 0 <= i < |ps|
        ensures CanBuild(varGen.vcon, ps[i])
      {
        PartitionsCanBuild(ps, Enabled(cs, false), varGen.vcon, i);
      }
      varGen.Reset(partitioner.partitions, scope, decide, conflicts, toConstant, false, cudd);
    }

    /** The written variables that some formula mentions have the values of one model of everything that is asked. */
    ghost predicate Delivered(cs: seq<Constraint>, scope: M.Scope, exprs: RefExprs)
      reads partitioner, varGen, varGen.repr
      requires Built(cs, scope)
    {
      exists m: Model :: Satisfies(m, scope, AskedOfAll(scope, Enabled(cs, false), varGen.vcon.readRefs, exprs))
        && forall i | 0 <= i < |varGen.solvers| :: varGen.solvers[i].Holds(m)
    }

    lemma SomeModel(cs: seq<Constraint>, scope: M.Scope, exprs: RefExprs) returns (m: Model)
      requires Built(cs, scope) && Delivered(cs, scope, exprs)
      ensures Satisfies(m, scope, AskedOfAll(scope, Enabled(cs, false), varGen.vcon.readRefs, exprs))
      ensures forall i | 0 <= i < |varGen.solvers| :: varGen.solvers[i].Holds(m)
    {
      m :| Satisfies(m, scope, AskedOfAll(scope, Enabled(cs, false), varGen.vcon.readRefs, exprs))
        && forall i | 0 <= i < |varGen.solvers| :: varGen.solvers[i].Holds(m);
    }

    method SolveAll(ghost cs: seq<Constraint>, ghost scope: M.Scope, exprs: RefExprs, values: RefValues)
        returns (ok: bool)
      requires Built(cs, scope) && partitioner !in varGen.repr
      modifies varGen.repr
      ensures Built(cs, scope) && varGen.repr == old(varGen.repr) && varGen.solvers == old(varGen.solvers)
      ensures ok <==> forall i | 0 <= i < |varGen.solvers| :: old(varGen.solvers[i].Solvable(exprs))
      ensures ok ==> forall i | 0 <= i < |varGen.solvers| ::
        varGen.solvers[i].Delivered(exprs) && varGen.solvers[i].contradictions == []
    {
      hide Splits, Analysed, Sat;
      ok := varGen.Solve(exprs, values);
    }

    lemma Answer(cs: seq<Constraint>, scope: M.Scope, exprs: RefExprs)
      requires Built(cs, scope) && ConstraintsOk(Enabled(cs, false), varGen.vcon)
      requires RefsSpeak(varGen.vcon.readRefs, exprs) && M.KindsOk(scope)
      ensures (forall i | 0 <= i < |varGen.solvers| :: varGen.solvers[i].Solvable(exprs))
        <==> Sat(scope, AskedOfAll(scope, Enabled(cs, false), varGen.vcon.readRefs, exprs))
    {
      var ps := partitioner.partitions;
      forall i | 0 <= i < |ps|
        ensures varGen.solvers[i].Solvable(exprs) <==> Sat(scope, Asked(scope, ps[i], varGen.vcon.readRefs, exprs))
      {
        SolvableIfAsked(varGen.solvers[i], varGen.vcon, ps[i], scope, exprs);
      }
      PartitionsDecideAll(scope, ps, Enabled(cs, false), varGen.vcon.readRefs, exprs);
    }

    lemma Delivery(cs: seq<Constraint>, scope: M.Scope, exprs: RefExprs)
      requires Built(cs, scope) && ConstraintsOk(Enabled(cs, false), varGen.vcon)
      requires RefsSpeak(varGen.vcon.readRefs, exprs) && M.KindsOk(scope)
      requires forall i | 0 <= i < |varGen.solvers| ::
        varGen.solvers[i].Delivered(exprs) && varGen.solvers[i].contradictions == []
      ensures Delivered(cs, scope, exprs)
    {
      var m := GluedDelivers(varGen.vcon, varGen.solvers, partitioner.partitions, Enabled(cs, false), scope, exprs);
    }

    /** A model of what is asked makes every enabled hard constraint over scalars true. */
    lemma AskedMeetsEnabled(cs: seq<Constraint>, scope: M.Scope, exprs: RefExprs, m: Model)
      requires Satisfies(m, scope, AskedOfAll(scope, Enabled(cs, false), varGen.vcon.readRefs, exprs))
      ensures MeetsEnabled(cs, m)
    {
      var all := Enabled(cs, false);
      SortedHards(all);
      hide InsertAll, Survivors, Denote;
      forall c | c in cs && c.enabled && !c.vector && !c.soft && !c.cover
        ensures Denote(c.expr, m) == BoolVal(true)
      {
        EnabledMember(cs, false, c);
        assert c.expr in Hards(all);
      }
    }

    /** Without read references among the variables the enabled hard constraints alone decide. */
    lemma EnabledDecide(cs: seq<Constraint>, scope: M.Scope, exprs: RefExprs)
      requires ReadsNothing(cs, varGen.vcon.readRefs)
      ensures Sat(scope, AskedOfAll(scope, Enabled(cs, false), varGen.vcon.readRefs, exprs))
        <==> exists m: Model :: M.ModelFits(m, scope) && MeetsEnabled(cs, m)
    {
      var all, refs := Enabled(cs, false), varGen.vcon.readRefs;
      SortedHards(all);
      forall c
        ensures c in all <==> c in cs && c.enabled && !c.vector
      {
        EnabledMember(cs, false, c);
      }
      hide Sat, Demands, Hards, InsertAll, MeetsEnabled, M.ModelFits, Enabled;
      NothingContained(cs, all, refs);
      assert AskedOfAll(scope, all, refs, exprs) == Demands(scope, InsertAll(all));
      DemandsAreSat(scope, InsertAll(all));
      HardsMeet(cs, all, scope);
    }

    /**
     The scalar variables are solved exactly when all enabled hard constraints, the soft
     constraints that one newest-first pass over all of them keeps, and the values of all
     read references can hold together; partitions and random draws make no difference.
     */
    method Next(ghost cs: seq<Constraint>, ghost scope: M.Scope, exprs: RefExprs, values: RefValues) returns (ok: bool)
      requires Built(cs, scope) && partitioner !in varGen.repr
      requires ConstraintsOk(Enabled(cs, false), varGen.vcon) && RefsSpeak(varGen.vcon.readRefs, exprs)
      requires M.KindsOk(scope)
      modifies varGen.repr
      ensures Built(cs, scope) && varGen.repr == old(varGen.repr)
      ensures ok <==> Sat(scope, AskedOfAll(scope, Enabled(cs, false), varGen.vcon.readRefs, exprs))
      ensures ok ==> Delivered(cs, scope, exprs)
      ensures ok ==> exists m: Model ::
        && M.ModelFits(m, scope) && MeetsEnabled(cs, m)
        && forall i | 0 <= i < |varGen.solvers| :: varGen.solvers[i].Holds(m)
      ensures ReadsNothing(cs, varGen.vcon.readRefs) ==>
        (ok <==> exists m: Model :: M.ModelFits(m, scope) && MeetsEnabled(cs, m))
    {
      Answer(cs, scope, exprs);
      if ReadsNothing(cs, varGen.vcon.readRefs) {
        EnabledDecide(cs, scope, exprs);
      }
      hide *;
      ok := SolveAll(cs, scope, exprs, values);
      if ok {
        Delivery(cs, scope, exprs);
        DeliveredEnabled(cs, scope, exprs);
      }
    }

    /** The variables of the partitions are apart, so the first partition with a variable is the only one. */
    lemma OnlyOne(cs: seq<Constraint>, scope: M.Scope, i: nat, id: nat)
      requires Built(cs, scope) && varGen.Mentioned(i, id)
      ensures varGen.First(0, i, id)
    {
      hide Analysed;
      forall j | 0 <= j < i
        ensures id !in varGen.solvers[j].partition.support
      {
        assert partitioner.partitions[j].support !! partitioner.partitions[i].support;
      }
    }

    /** Once all hard constraints can hold, every variable of an enabled one is mentioned in some partition. */
    lemma HardIsMentioned(cs: seq<Constraint>, scope: M.Scope, c: Constraint, id: nat) returns (i: nat)
      requires Built(cs, scope) && WellMade(Enabled(cs, false)) && Sat(scope, Hards(Enabled(cs, false)))
      requires M.KindsOk(scope)
      requires c in cs && c.enabled && !c.vector && !c.soft && !c.cover && id in Support(c.expr)
      ensures varGen.Mentioned(i, id)
    {
      var all, ps := Enabled(cs, false), partitioner.partitions;
      EnabledMember(cs, false, c);
      MemberSomewhere(ps, all, c);
      i :| 0 <= i < |ps| && c in ps[i].constraints;
      assert PartitionOk(ps[i]);
      MemberSupport(ps[i], c);
      HardsIffPartitions(ps, all, scope);
      assert c.expr in Hards(ps[i].constraints);
      hide Sat, PartitionOk, Hards, Enabled;
      assert varGen.solvers[i].Required() == Demands(scope, ps[i].constraints);
      assert Mentions(varGen.solvers[i].solver.terminals, varGen.solvers[i].Given());
    }

    lemma DeliveredEnabled(cs: seq<Constraint>, scope: M.Scope, exprs: RefExprs)
      requires Built(cs, scope) && Delivered(cs, scope, exprs)
      ensures exists m: Model ::
        && M.ModelFits(m, scope) && MeetsEnabled(cs, m)
        && forall i | 0 <= i < |varGen.solvers| :: varGen.solvers[i].Holds(m)
    {
      var m := SomeModel(cs, scope, exprs);
      AskedMeetsEnabled(cs, scope, exprs, m);
    }
  }
}
