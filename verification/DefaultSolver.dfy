/**
 The solver of one partition: it asserts the constraints, looks for contradictions, settles
 the soft constraints, and steers the back end with suggestions.
 */
module DefaultSolver {
  import opened Ast
  import opened Partitions
  import opened Satisfiability
  import opened Softs
  import opened Solving
  import SoftsPerPartition
  import F = FixWidth
  import M = MetaSMT

  const COMPLEXITY_LIMIT_FOR_BDD := 400

  /** Variables, and the references that are read, written or drawn from a distribution, by id. */
  datatype VariableContainer = VariableContainer(
    variables: map<nat, Node>, readRefs: seq<nat>, writeRefs: seq<nat>, distRefs: seq<nat>, distRefToVar: map<nat, nat>)

  /** The index lists of the contradicting formulas. */
  type Conflicts = seq<Node> -> seq<seq<nat>>

  ghost predicate ConflictsOk(conflicts: Conflicts, scope: M.Scope, fs: seq<Node>) {
    && (conflicts(fs) == [] <==> Sat(scope, ToSet(fs)))
    && forall i, j | 0 <= i < |conflicts(fs)| && 0 <= j < |conflicts(fs)[i]| :: conflicts(fs)[i][j] < |fs|
  }

  /** An analysis reports a conflict exactly for formulas that are not jointly satisfiable. */
  ghost predicate FindsConflicts(conflicts: Conflicts, scope: M.Scope) {
    forall fs :: ConflictsOk(conflicts, scope, fs)
  }

  lemma ConflictAnalysisExists(scope: M.Scope)
    ensures exists conflicts :: FindsConflicts(conflicts, scope)
  {
    ghost var conflicts: Conflicts := fs => if Sat(scope, ToSet(fs)) then [] else [[]];
    assert FindsConflicts(conflicts, scope);
  }

  function Names(cs: seq<Constraint>): (r: seq<string>)
    ensures |r| == |cs| && forall i | 0 <= i < |cs| :: r[i] == cs[i].name
  {
    seq(|cs|, i requires 0 <= i < |cs| => cs[i].name)
  }

  /** Every variable of fs has been mentioned. */
  ghost predicate Mentions(terminals: set<nat>, fs: Formulas) {
    forall n | n in fs :: Support(n) <= terminals
  }

  // ----- References of a partition -----

  function Contained(refs: seq<nat>, vars: set<nat>): seq<nat> {
    if refs == [] then []
    else
      var init := Contained(refs[..|refs| - 1], vars);
      if refs[|refs| - 1] in vars then init + [refs[|refs| - 1]] else init
  }

  lemma {:induction false} ContainedMember(refs: seq<nat>, vars: set<nat>)
    ensures forall id :: id in Contained(refs, vars) <==> id in refs && id in vars
  {
    if refs != [] {
      ContainedMember(refs[..|refs| - 1], vars);
      assert refs == refs[..|refs| - 1] + [refs[|refs| - 1]];
    }
  }

  lemma {:induction false} ContainedLength(refs: seq<nat>, vars: set<nat>)
    ensures |Contained(refs, vars)| <= |refs|
  {
    if refs != [] {
      ContainedLength(refs[..|refs| - 1], vars);
    }
  }

  method ContainedRefs(refs: seq<nat>, vars: set<nat>) returns (r: seq<nat>)
    ensures r == Contained(refs, vars)
  {
    r := [];
    for i := 0 to |refs|
      invariant r == Contained(refs[..i], vars)
    {
      assert refs[..i + 1][..i] == refs[..i];
      if refs[i] in vars {
        r := r + [refs[i]];
      }
    }
    assert refs[..|refs|] == refs;
  }

  // ----- Reporting the soft constraints that were given up -----

  lemma {:induction false} RejectedNext(mask: seq<bool>, k: nat)
    requires k <= |mask|
    ensures var r, done := RejectedAt(mask), RejectedAt(mask[..k]);
      && |done| <= |r| && r[..|done|] == done
      && (forall j | |done| <= j < |r| :: k <= r[j] < |mask|)
      && (k < |mask| ==> (|done| < |r| && r[|done|] == k <==> !mask[k]))
      && (|done| == |r| ==> forall j | k <= j < |mask| :: mask[j])
  {
    if k == |mask| {
      assert mask[..k] == mask;
    } else {
      var n := |mask| - 1;
      RejectedNext(mask[..n], k);
      assert mask[..n][..k] == mask[..k];
    }
  }

  ghost predicate NamesSoFar(cs: seq<Constraint>, mask: seq<bool>, cnt: nat, ite: nat, names: seq<string>)
    requires |mask| == |SoftsOf(cs)|
  {
    && cnt <= |mask| && ite == |RejectedAt(mask[..cnt])|
    && names == Names(Pick(SoftsOf(cs)[..cnt], mask[..cnt], false))
  }

  lemma NamesNext(cs: seq<Constraint>, mask: seq<bool>, cnt: nat, ite: nat, names: seq<string>)
    requires |mask| == |SoftsOf(cs)| && NamesSoFar(cs, mask, cnt, ite, names)
    requires cnt < |mask| && ite < |RejectedAt(mask)|
    ensures var hit := RejectedAt(mask)[ite] == cnt;
      NamesSoFar(cs, mask, cnt + 1, if hit then ite + 1 else ite,
        if hit then names + [SoftsOf(cs)[cnt].name] else names)
  {
    RejectedNext(mask, cnt);
    var softs := SoftsOf(cs);
    assert softs[..cnt + 1][..cnt] == softs[..cnt] && mask[..cnt + 1][..cnt] == mask[..cnt];
    var picked := Pick(softs[..cnt], mask[..cnt], false);
    assert Names(picked + [softs[cnt]]) == Names(picked) + [softs[cnt].name];
  }

  lemma {:induction false} PickRest(cs: seq<Constraint>, mask: seq<bool>, k: nat)
    requires |cs| == |mask| && k <= |mask| && forall j | k <= j < |mask| :: mask[j]
    ensures Pick(cs, mask, false) == Pick(cs[..k], mask[..k], false)
  {
    if k == |mask| {
      assert cs[..k] == cs && mask[..k] == mask;
    } else {
      var n := |mask| - 1;
      PickRest(cs[..n], mask[..n], k);
      assert cs[..n][..k] == cs[..k] && mask[..n][..k] == mask[..k];
    }
  }

  lemma NamesDone(cs: seq<Constraint>, mask: seq<bool>, cnt: nat, ite: nat, names: seq<string>)
    requires |mask| == |SoftsOf(cs)| && NamesSoFar(cs, mask, cnt, ite, names)
    requires ite == |RejectedAt(mask)| || cnt == |mask|
    ensures names == Names(Pick(SoftsOf(cs), mask, false))
  {
    RejectedNext(mask, cnt);
    PickRest(SoftsOf(cs), mask, cnt);
  }

  lemma {:induction false} SoftsOfPrefix(cs: seq<Constraint>, i: nat)
    requires i <= |cs|
    ensures SoftsOf(cs[..i]) <= SoftsOf(cs)
    decreases |cs|
  {
    if i == |cs| {
      assert cs[..i] == cs;
    } else {
      var n := |cs| - 1;
      SoftsOfPrefix(cs[..n], i);
      assert cs[..n][..i] == cs[..i];
      hide *;
      assert cs == cs[..n] + [cs[n]];
      SoftsPerPartition.SoftsOfPush(cs[..n], cs[n]);
      PrefixPush(SoftsOf(cs[..n]), cs[n], cs[n].soft && !cs[n].cover);
    }
  }

  lemma PrefixPush(cs: seq<Constraint>, c: Constraint, b: bool)
    ensures cs <= PushIf(cs, c, b)
  {
  }

  lemma SoftsOfNext(cs: seq<Constraint>, i: nat)
    requires i < |cs|
    ensures var softs, init := SoftsOf(cs), SoftsOf(cs[..i]);
      && |init| <= |softs|
      && |SoftsOf(cs[..i + 1])| == (if cs[i].soft && !cs[i].cover then |init| + 1 else |init|)
      && (cs[i].soft && !cs[i].cover ==> |init| < |softs| && softs[|init|] == cs[i])
  {
    SoftsOfPrefix(cs, i);
    SoftsOfPrefix(cs, i + 1);
    assert cs[..i + 1] == cs[..i] + [cs[i]];
    SoftsPerPartition.SoftsOfPush(cs[..i], cs[i]);
    hide SoftsOf;
    assert SoftsOf(cs[..i + 1]) <= SoftsOf(cs);
  }

  lemma EmptySofts(cs: seq<Constraint>)
    requires cs == []
    ensures SoftsOf(cs) == []
  {
  }

  /** Merge the indices of the rejected soft constraints with the list of constraints. */
  method InactiveNames(cs: seq<Constraint>, rejected: seq<nat>, ghost mask: seq<bool>) returns (names: seq<string>)
    requires |mask| == |SoftsOf(cs)| && rejected == RejectedAt(mask) && WellMade(cs)
    ensures names == Names(Pick(SoftsOf(cs), mask, false))
  {
    var ite, cnt := 0, 0;
    names := [];
    var i := 0;
    assert NamesSoFar(cs, mask, cnt, ite, names);
    hide SoftsOf, NamesSoFar, RejectedAt, Pick;
    assert SoftsOf(cs[..0]) == [] by {
      EmptySofts(cs[..0]);
    }
    while i < |cs| && ite < |rejected|
      invariant 0 <= i <= |cs| && cnt == |SoftsOf(cs[..i])| && cnt <= |mask|
      invariant NamesSoFar(cs, mask, cnt, ite, names)
    {
      SoftsOfNext(cs, i);
      assert cs[i] in cs;
      if cs[i].soft {
        NamesNext(cs, mask, cnt, ite, names);
        if rejected[ite] == cnt {
          ite := ite + 1;
          names := names + [cs[i].name];
        }
        cnt := cnt + 1;
      }
      i := i + 1;
    }
    assert cs[..|cs|] == cs;
    RejectedNext(mask, cnt);
    NamesDone(cs, mask, cnt, ite, names);
  }

  // ----- The solver of a partition -----

  /** The current formula of a reference, and the current random value of a written variable. */
  type RefExprs = nat -> Node
  type RefValues = nat -> Constant

  function RefFormulas(refs: seq<nat>, exprs: RefExprs): Formulas { set id | id in refs :: exprs(id) }

  /** The variables that follow a distribution. */
  function DistVars(vcon: VariableContainer, refs: seq<nat>): set<nat> {
    set id | id in refs && id in vcon.distRefToVar :: vcon.distRefToVar[id]
  }

  function FormulasOf(refs: seq<nat>, exprs: RefExprs): seq<Node> {
    seq(|refs|, i requires 0 <= i < |refs| => exprs(refs[i]))
  }

  lemma SatisfiesFewer(m: Model, scope: M.Scope, fs: Formulas, gs: Formulas)
    requires Satisfies(m, scope, fs) && gs <= fs
    ensures Satisfies(m, scope, gs)
  {
  }

  lemma ShuffledRefs(s: seq<nat>, t: seq<nat>)
    requires multiset(s) == multiset(t)
    ensures |s| == |t| && forall id | id in s :: id in t
  {
    assert |multiset(s)| == |s| && |multiset(t)| == |t|;
    forall id | id in s
      ensures id in t
    {
      assert id in multiset(s);
    }
  }

  lemma RefFormulasPush(refs: seq<nat>, i: nat, exprs: RefExprs)
    requires i < |refs|
    ensures RefFormulas(refs[..i + 1], exprs) == RefFormulas(refs[..i], exprs) + {exprs(refs[i])}
  {
  }

  /** An idle solver that only demands hard constraints. */
  ghost predicate BddOk(b: Solver, scope: M.Scope, hards: Formulas)
    reads b
  {
    b.Valid() && b.scope == scope && b.asserted <= hards && b.softs == [] && b.assumptions == [] && b.suggestions == []
  }

  /**
   Contradictions, names of the soft constraints that were given up, requirements, and soft
   constraints that are still queued: what the analysis of a partition leaves. Without it
   only the hard constraints are required, and all soft constraints stay queued.
   */
  ghost predicate Analysed(found: (seq<seq<string>>, seq<string>, Formulas, Formulas), p: Partition, scope: M.Scope,
      bypass: bool)
  {
    && (found.0 == [] <==> bypass || Sat(scope, Hards(p.constraints)))
    && (!bypass && found.0 == [] ==>
          found.2 == Demands(scope, p.constraints) && found.3 == {} && found.1 == Names(Rejected(scope, p.constraints)))
    && (bypass ==> found.2 == Hards(p.constraints) && found.3 == ToSet(Exprs(SoftsOf(p.constraints))))
  }

  function HardsOf(cs: seq<Constraint>): seq<Constraint> {
    if cs == [] then []
    else var c := cs[|cs| - 1]; PushIf(HardsOf(cs[..|cs| - 1]), c, c.IsHard())
  }

  lemma {:induction false} HardsOfExprs(cs: seq<Constraint>)
    ensures ToSet(Exprs(HardsOf(cs))) == Hards(cs)
  {
    if cs != [] {
      var init, c := cs[..|cs| - 1], cs[|cs| - 1];
      HardsOfExprs(init);
      HardsPush(init, c);
      assert cs == init + [c];
      ToSetPush(Exprs(HardsOf(init)), c.expr);
      assert Exprs(HardsOf(init) + [c]) == Exprs(HardsOf(init)) + [c.expr];
    }
  }

  /** The names at the given places. */
  function NamesAt(names: seq<string>, places: seq<nat>): seq<string>
    requires forall j | 0 <= j < |places| :: places[j] < |names|
  {
    seq(|places|, j requires 0 <= j < |places| => names[places[j]])
  }

  /** Every conflict by the names of its hard constraints. */
  ghost predicate NamesConflicts(contradictions: seq<seq<string>>, conflicts: Conflicts, cs: seq<Constraint>) {
    var places, names := conflicts(Exprs(HardsOf(cs))), Names(HardsOf(cs));
    && (forall i, j | 0 <= i < |places| && 0 <= j < |places[i]| :: places[i][j] < |names|)
    && |contradictions| == |places|
    && forall i | 0 <= i < |places| :: contradictions[i] == NamesAt(names, places[i])
  }

  /** The hard constraints that are small enough for a solver of their own. */
  function SmallHards(cs: seq<Constraint>): Formulas {
    set c | c in cs && 0 < c.complexity < COMPLEXITY_LIMIT_FOR_BDD :: c.expr
  }

  /** The references to other variables than vars. */
  function Remaining(refs: seq<nat>, vars: set<nat>): seq<nat> {
    if refs == [] then []
    else
      var init := Remaining(refs[..|refs| - 1], vars);
      if refs[|refs| - 1] in vars then init else init + [refs[|refs| - 1]]
  }

  /** A reference remains, as often as it occurs, exactly when its variable is not one of vars. */
  lemma {:induction false} RemainingCounts(refs: seq<nat>, vars: set<nat>, id: nat)
    ensures multiset(Remaining(refs, vars))[id] == if id in vars then 0 else multiset(refs)[id]
  {
    if refs != [] {
      var n := |refs| - 1;
      RemainingCounts(refs[..n], vars, id);
      assert refs == refs[..n] + [refs[n]];
    }
  }

  /** The mentioned ones of ids have been given their values in m. */
  ghost predicate Carries(written: map<nat, Val>, ids: seq<nat>, terminals: set<nat>, m: Model) {
    forall id | id in ids && id in terminals :: id in written && written[id] == m(id)
  }

  /** ... where m, the model that was found, is a model of fs. */
  ghost predicate Delivers(written: map<nat, Val>, ids: seq<nat>, terminals: set<nat>, scope: M.Scope, fs: Formulas,
      model: Option<Model>)
  {
    model.Some? && Satisfies(model.value, scope, fs) && Carries(written, ids, terminals, model.value)
  }

  class VariableDefaultSolver {
    const partition: Partition
    const variables: map<nat, Node>
    const readRefs: seq<nat>
    const writeRefs: seq<nat>
    const distRefs: seq<nat>
    const toConstant: (nat, Option<Val>) -> Constant
    const solver: Solver
    var bddSolvers: map<nat, Solver>
    var randomWriteRefs: seq<nat>
    var contradictions: seq<seq<string>>
    var inactiveSofts: seq<string>
    var written: map<nat, Val>
    ghost var repr: set<object>

    ghost function Bdds(): set<Solver>
      reads this`bddSolvers
    {
      bddSolvers.Values
    }

    ghost function Hard(): Formulas { Hards(partition.constraints) }

    /** What every solution of the partition must meet. */
    ghost function Required(): Formulas
      reads solver
    {
      solver.asserted
    }

    /** What the back end has been given: the requirements and the queued soft constraints. */
    ghost function Given(): Formulas
      reads solver
    {
      solver.asserted + ToSet(solver.softs)
    }

    ghost predicate BddsOk()
      reads this`bddSolvers, this`contradictions, Bdds()
    {
      && solver !in Bdds()
      && (forall b | b in Bdds() :: BddOk(b, solver.scope, Hard()))
      && (forall id | id in bddSolvers ::
        id in partition.single && bddSolvers[id].asserted == SmallHards(partition.single[id]))
      && (Bdds() != {} && contradictions == [] ==> Sat(solver.scope, Hard()))
    }

    ghost predicate RefsOk()
      reads this`randomWriteRefs
    {
      && (forall id | id in writeRefs :: id in variables)
      && (forall id | id in randomWriteRefs :: id in variables)
      && |randomWriteRefs| <= |writeRefs|
    }

    ghost predicate Valid()
      reads this`bddSolvers, this`contradictions, this`randomWriteRefs, solver, Bdds()
    {
      && BddsOk() && RefsOk() && solver.Valid()
      && solver.assumptions == [] && solver.suggestions == []
      && Mentions(solver.terminals, Given())
    }

    /** The constraints except the cover constraints go to the back end. */
    method AssertConstraints()
      requires WellMade(partition.constraints)
      requires solver.asserted == {} && solver.softs == []
      modifies solver`asserted, solver`softs, solver`terminals
      ensures solver.asserted == Hard() && solver.softs == Exprs(SoftsOf(partition.constraints))
      ensures Mentions(solver.terminals, Given())
    {
      var cs := partition.constraints;
      for i := 0 to |cs|
        invariant Entered(cs[..i], solver.asserted, solver.softs, solver.terminals)
      {
        EnteredNext(cs, i, solver.asserted, solver.softs, solver.terminals);
        if !cs[i].cover {
          if cs[i].soft {
            solver.MakeSoftAssertion(cs[i].expr);
          } else {
            solver.MakeAssertion(cs[i].expr);
          }
        }
      }
      assert cs[..|cs|] == cs;
    }

    /** The names of the hard constraints of every conflict. */
    method AnalyseHards(conflicts: Conflicts)
      requires FindsConflicts(conflicts, solver.scope) && WellMade(partition.constraints) && contradictions == []
      modifies this`contradictions
      ensures contradictions == [] <==> Sat(solver.scope, Hard())
      ensures NamesConflicts(contradictions, conflicts, partition.constraints)
    {
      var cs := partition.constraints;
      var s: seq<Node>, out: seq<string> := [], [];
      for i := 0 to |cs|
        invariant s == Exprs(HardsOf(cs[..i])) && out == Names(HardsOf(cs[..i])) && contradictions == []
      {
        assert cs[..i + 1][..i] == cs[..i];
        if !cs[i].soft && !cs[i].cover {
          s := s + [cs[i].expr];
          out := out + [cs[i].name];
        }
      }
      assert cs[..|cs|] == cs;
      HardsOfExprs(cs);
      var results := conflicts(s);
      assert ConflictsOk(conflicts, solver.scope, s);
      for i := 0 to |results|
        invariant |contradictions| == i && forall k | 0 <= k < i :: contradictions[k] == NamesAt(out, results[k])
      {
        var vec := [];
        for j := 0 to |results[i]|
          invariant vec == NamesAt(out, results[i][..j])
        {
          vec := vec + [out[results[i][j]]];
        }
        assert results[i][..|results[i]|] == results[i];
        contradictions := contradictions + [vec];
      }
    }

    method AnalyseSofts()
      requires solver.Valid() && WellMade(partition.constraints)
      requires solver.asserted == Hard() && solver.softs == Exprs(SoftsOf(partition.constraints))
      requires Mentions(solver.terminals, Given())
      modifies this`inactiveSofts, solver`asserted, solver`assumed, solver`softs, solver`calls, solver`model
      ensures solver.Valid() && Required() == Demands(solver.scope, partition.constraints) && solver.softs == []
      ensures inactiveSofts == Names(Rejected(solver.scope, partition.constraints))
      ensures Mentions(solver.terminals, Given())
    {
      ghost var mask := Mask(solver.scope, partition.constraints);
      var rejected := solver.AnalyseSofts();
      inactiveSofts := InactiveNames(partition.constraints, rejected, mask);
      PickedAreKept(SoftsOf(partition.constraints), mask);
      assert Given() <= old(Given());
    }

    method AnalyseConstraints(conflicts: Conflicts)
      requires solver.Valid() && WellMade(partition.constraints) && FindsConflicts(conflicts, solver.scope)
      requires solver.asserted == Hard() && solver.softs == Exprs(SoftsOf(partition.constraints))
      requires Mentions(solver.terminals, Given()) && contradictions == []
      modifies this`contradictions, this`inactiveSofts
      modifies solver`asserted, solver`assumed, solver`softs, solver`calls, solver`model
      ensures solver.Valid() && Mentions(solver.terminals, Given())
      ensures Analysed(Analysis(), partition, solver.scope, false)
    {
      hide Sat, Exact, FindsConflicts, Mentions, Demands, Rejected, NamesConflicts;
      AnalyseHards(conflicts);
      if contradictions == [] {
        AnalyseSofts();
      }
    }

    /** A solver for the small hard constraints over the single variable id. */
    method CreateBdd(id: nat, decide: BackEnd, inst: nat) returns (bdd: Solver)
      requires PartitionOk(partition) && id in partition.single && Exact(decide, solver.scope)
      ensures fresh(bdd) && BddOk(bdd, solver.scope, Hard()) && bdd.asserted == SmallHards(partition.single[id])
    {
      bdd := new Solver(solver.scope, decide, inst);
      var cs := partition.single[id];
      for i := 0 to |cs|
        invariant BddOk(bdd, solver.scope, Hard()) && bdd.asserted == SmallHards(cs[..i])
      {
        assert cs[..i + 1] == cs[..i] + [cs[i]] && cs[i] in cs;
        if 0 < cs[i].complexity < COMPLEXITY_LIMIT_FOR_BDD {
          bdd.MakeAssertion(cs[i].expr);
        }
      }
      assert cs[..|cs|] == cs;
    }

    /** Register the solver of one more variable. */
    method AddBdd(id: nat, bdd: Solver)
      requires BddsOk() && BddOk(bdd, solver.scope, Hard()) && bdd != solver
      requires id in partition.single && bdd.asserted == SmallHards(partition.single[id])
      requires contradictions == [] ==> Sat(solver.scope, Hard())
      modifies this`bddSolvers
      ensures BddsOk() && Bdds() <= old(Bdds()) + {bdd} && bddSolvers == old(bddSolvers)[id := bdd]
    {
      bddSolvers := bddSolvers[id := bdd];
      assert Bdds() <= old(Bdds()) + {bdd};
    }

    /** A solver per written variable with hard constraints of its own, unless its values follow a distribution. */
    method CreateBdds(vars: set<nat>, decide: BackEnd) returns (varsWithDist: set<nat>)
      requires BddsOk() && bddSolvers == map[] && PartitionOk(partition)
      requires Exact(decide, solver.scope) && (contradictions == [] ==> Sat(solver.scope, Hard()))
      modifies this`bddSolvers
      ensures BddsOk() && fresh(Bdds()) && varsWithDist == vars + bddSolvers.Keys
      ensures forall id :: id in bddSolvers <==> id in writeRefs && id in partition.single && id !in vars
    {
      varsWithDist := vars;
      for i := 0 to |writeRefs|
        invariant BddsOk() && fresh(Bdds()) && varsWithDist == vars + bddSolvers.Keys
        invariant forall id :: id in bddSolvers <==> id in writeRefs[..i] && id in partition.single && id !in vars
      {
        assert writeRefs[..i + 1] == writeRefs[..i] + [writeRefs[i]];
        var id := writeRefs[i];
        if id in partition.single && id !in varsWithDist {
          var bdd := CreateBdd(id, decide, i + 1);
          AddBdd(id, bdd);
          varsWithDist := varsWithDist + {id};
        }
      }
      assert writeRefs[..|writeRefs|] == writeRefs;
    }

    /** The variables that are left to random values, unless more than half of all have their own source of values. */
    method CollectRandomRefs(varsWithDist: set<nat>)
      requires RefsOk() && randomWriteRefs == []
      modifies this`randomWriteRefs
      ensures RefsOk()
      ensures randomWriteRefs == if 2 * |varsWithDist| > |writeRefs| then [] else Remaining(writeRefs, varsWithDist)
    {
      if 2 * |varsWithDist| > |writeRefs| {
        return;
      }
      for i := 0 to |writeRefs|
        invariant RefsOk() && |randomWriteRefs| <= i && randomWriteRefs == Remaining(writeRefs[..i], varsWithDist)
      {
        assert writeRefs[..i + 1][..i] == writeRefs[..i];
        if writeRefs[i] !in varsWithDist {
          randomWriteRefs := randomWriteRefs + [writeRefs[i]];
        }
      }
      assert writeRefs[..|writeRefs|] == writeRefs;
    }

    lemma BypassedIsAnalysed()
      requires contradictions == [] && Required() == Hard() && solver.softs == Exprs(SoftsOf(partition.constraints))
      ensures Analysed(Analysis(), partition, solver.scope, true)
    {
    }

    lemma AnalysedMeans()
      requires Analysed(Analysis(), partition, solver.scope, false)
      ensures contradictions == [] ==> Sat(solver.scope, Hard())
    {
    }

    /** Which variables have a solver of their own, and which are left to random values. */
    ghost predicate Sources(varsWithDist: set<nat>, cudd: bool)
      reads this`bddSolvers, this`randomWriteRefs
    {
      var vars := varsWithDist + bddSolvers.Keys;
      && (forall id :: id in bddSolvers <==> cudd && id in writeRefs && id in partition.single && id !in varsWithDist)
      && randomWriteRefs == if 2 * |vars| > |writeRefs| then [] else Remaining(writeRefs, vars)
    }

    method FindSources(decide: BackEnd, varsWithDist: set<nat>, cudd: bool)
      requires BddsOk() && RefsOk() && bddSolvers == map[] && randomWriteRefs == [] && PartitionOk(partition)
      requires Exact(decide, solver.scope) && (contradictions == [] ==> Sat(solver.scope, Hard()))
      modifies this`bddSolvers, this`randomWriteRefs
      ensures BddsOk() && RefsOk() && fresh(Bdds()) && Sources(varsWithDist, cudd)
    {
      var vars := varsWithDist;
      if cudd {
        vars := CreateBdds(varsWithDist, decide);
      }
      assert vars == varsWithDist + bddSolvers.Keys;
      CollectRandomRefs(vars);
    }

    /** The results of the analysis, which solving does not touch. */
    ghost function Analysis(): (seq<seq<string>>, seq<string>, Formulas, Formulas)
      reads this`contradictions, this`inactiveSofts, solver
    {
      (contradictions, inactiveSofts, Required(), ToSet(solver.softs))
    }

    /** The solver of partition p, after its analysis. */
    ghost predicate BuiltFor(vcon: VariableContainer, p: Partition, scope: M.Scope, bypass: bool)
      reads this`contradictions, this`inactiveSofts, solver
    {
      && partition == p && solver.scope == scope
      && readRefs == Contained(vcon.readRefs, p.support) && writeRefs == Contained(vcon.writeRefs, p.support)
      && Analysed(Analysis(), p, scope, bypass)
    }

    /** Assert the constraints and analyse them unless told not to. */
    method Analyse(conflicts: Conflicts, bypass: bool)
      requires solver.Valid() && WellMade(partition.constraints) && FindsConflicts(conflicts, solver.scope)
      requires solver.asserted == {} && solver.softs == [] && contradictions == []
      modifies this`contradictions, this`inactiveSofts
      modifies solver`asserted, solver`assumed, solver`softs, solver`terminals, solver`calls, solver`model
      ensures solver.Valid() && Mentions(solver.terminals, Given())
      ensures Analysed(Analysis(), partition, solver.scope, bypass)
    {
      hide Analysed, Sat, Exact, FindsConflicts;
      AssertConstraints();
      if bypass {
        BypassedIsAnalysed();
      } else {
        AnalyseConstraints(conflicts);
      }
    }

    lemma NoBdds()
      requires bddSolvers == map[]
      ensures BddsOk()
    {
    }

    /** The analysis, and the sources of suggestions. */
    method Initialise(decide: BackEnd, conflicts: Conflicts, varsWithDist: set<nat>, bypass: bool, cudd: bool)
      requires Valid() && PartitionOk(partition) && WellMade(partition.constraints)
      requires solver.asserted == {} && solver.softs == [] && contradictions == [] && bddSolvers == map[]
      requires randomWriteRefs == []
      requires Exact(decide, solver.scope) && FindsConflicts(conflicts, solver.scope)
      modifies this`contradictions, this`inactiveSofts, this`bddSolvers, this`randomWriteRefs
      modifies solver`asserted, solver`assumed, solver`softs, solver`terminals, solver`calls, solver`model
      ensures Valid() && fresh(Bdds())
      ensures Analysed(Analysis(), partition, solver.scope, bypass) && (!bypass ==> Sources(varsWithDist, cudd))
    {
      hide Analysed, Analysis, Given, Sat, Exact, FindsConflicts, Sources, PartitionOk, WellMade, Mentions, RefsOk;
      hide BddOk, BddsOk;
      Analyse(conflicts, bypass);
      NoBdds();
      if !bypass {
        AnalysedMeans();
        FindSources(decide, varsWithDist, cudd);
      }
    }

    method SetUp(decide: BackEnd, conflicts: Conflicts, varsWithDist: set<nat>, bypass: bool, cudd: bool)
      requires Valid() && PartitionOk(partition) && WellMade(partition.constraints)
      requires solver.asserted == {} && solver.softs == [] && contradictions == [] && bddSolvers == map[]
      requires randomWriteRefs == []
      requires Exact(decide, solver.scope) && FindsConflicts(conflicts, solver.scope)
      modifies this`contradictions, this`inactiveSofts, this`bddSolvers, this`randomWriteRefs, this`repr
      modifies solver`asserted, solver`assumed, solver`softs, solver`terminals, solver`calls, solver`model
      ensures Valid() && fresh(Bdds()) && Owns() && repr == {this, solver} + Bdds()
      ensures Analysed(Analysis(), partition, solver.scope, bypass) && (!bypass ==> Sources(varsWithDist, cudd))
    {
      hide Analysed, Sources, RefsOk, Mentions, Exact, FindsConflicts, PartitionOk, WellMade;
      Initialise(decide, conflicts, varsWithDist, bypass, cudd);
      Own();
    }

    // ----- Solving -----

    /** Between two calls: the back end may hold assumptions and suggestions of this call. */
    ghost predicate Ready(required: Formulas)
      reads this`bddSolvers, this`contradictions, this`randomWriteRefs, solver, Bdds()
    {
      BddsOk() && RefsOk() && solver.Valid() && Required() == required && Mentions(solver.terminals, Given())
    }

    /** Without a contradiction the solver of one variable always finds a value. */
    method BddValue(bdd: Solver, id: nat) returns (v: Option<Val>, ghost m: Model)
      requires BddOk(bdd, solver.scope, Hard()) && Sat(solver.scope, Hard())
      modifies bdd
      ensures BddOk(bdd, solver.scope, Hard()) && bdd.asserted == old(bdd.asserted)
      ensures Satisfies(m, solver.scope, bdd.asserted) && (v.Some? ==> v.value == m(id))
    {
      SatFewer(solver.scope, Hard(), bdd.asserted);
      assert bdd.Must(true, []) == bdd.asserted;
      var ok, kept := bdd.Solve(true);
      assert ok;
      v := bdd.Read(id);
      m := bdd.model.value;
      SatisfiesFewer(m, solver.scope, bdd.asserted + ToSet(kept), bdd.asserted);
    }

    /** n suggests a value for the variable that meets its small hard constraints, if they mention it. */
    ghost predicate SmallSuggestion(n: Node, id: nat) {
      && id in variables && id in partition.single
      && exists v: Option<Val>, m: Model ::
        n == Suggestion(id, toConstant(id, v)) && Satisfies(m, solver.scope, SmallHards(partition.single[id]))
          && (v.Some? ==> v.value == m(id))
    }

    /** The value that the solver of one variable finds becomes a suggestion. */
    method SuggestFromBdd(id: nat)
      requires Ready(Required()) && contradictions == [] && id in variables && id in bddSolvers
      modifies Bdds(), solver`suggestions, solver`terminals
      ensures Ready(old(Required()))
      ensures exists n :: SmallSuggestion(n, id) && solver.suggestions == old(solver.suggestions) + [n]
    {
      var bdd := bddSolvers[id];
      assert bdd in Bdds() && BddOk(bdd, solver.scope, Hard());
      var found, m := BddValue(bdd, id);
      var n := Suggestion(id, toConstant(id, found));
      assert SmallSuggestion(n, id);
      solver.MakeSuggestion(n);
    }

    /** small are suggestions for the references, in their order. */
    ghost predicate AllSmall(small: seq<Node>, refs: seq<nat>) {
      |small| == |refs| && forall k | 0 <= k < |refs| :: SmallSuggestion(small[k], refs[k])
    }

    /** One suggestion per written variable with a solver of its own. */
    method SuggestFromBdds() returns (ghost small: seq<Node>)
      requires Ready(Required()) && contradictions == []
      modifies Bdds(), solver`suggestions, solver`terminals
      ensures Ready(old(Required())) && solver.suggestions == old(solver.suggestions) + small
      ensures AllSmall(small, Contained(writeRefs, bddSolvers.Keys))
    {
      ghost var required := Required();
      small := [];
      assert RefsOk();
      hide SmallSuggestion, BddsOk, Mentions, Exact;
      for i := 0 to |writeRefs|
        invariant Ready(required) && solver.suggestions == old(solver.suggestions) + small
        invariant AllSmall(small, Contained(writeRefs[..i], bddSolvers.Keys))
      {
        assert writeRefs[..i + 1][..i] == writeRefs[..i];
        if writeRefs[i] in bddSolvers {
          ghost var before := solver.suggestions;
          SuggestFromBdd(writeRefs[i]);
          ghost var n :| SmallSuggestion(n, writeRefs[i]) && solver.suggestions == before + [n];
          small := small + [n];
        }
      }
      assert writeRefs[..|writeRefs|] == writeRefs;
    }

    method AssumeReads(exprs: RefExprs)
      requires Ready(Required()) && solver.assumptions == []
      modifies solver`assumptions, solver`terminals
      ensures Ready(old(Required())) && ToSet(solver.assumptions) == RefFormulas(readRefs, exprs)
    {
      ghost var required := Required();
      for i := 0 to |readRefs|
        invariant Ready(required) && ToSet(solver.assumptions) == RefFormulas(readRefs[..i], exprs)
      {
        RefFormulasPush(readRefs, i, exprs);
        ToSetPush(solver.assumptions, exprs(readRefs[i]));
        solver.MakeAssumption(exprs(readRefs[i]));
      }
      assert readRefs[..|readRefs|] == readRefs;
    }

    method SuggestDists(exprs: RefExprs)
      requires Ready(Required())
      modifies solver`suggestions, solver`terminals
      ensures Ready(old(Required()))
      ensures solver.suggestions == old(solver.suggestions) + FormulasOf(distRefs, exprs)
    {
      ghost var required := Required();
      for i := 0 to |distRefs|
        invariant Ready(required)
        invariant solver.suggestions == old(solver.suggestions) + FormulasOf(distRefs[..i], exprs)
      {
        solver.MakeSuggestion(exprs(distRefs[i]));
      }
      assert distRefs[..|distRefs|] == distRefs;
    }

    function Suggestion(id: nat, c: Constant): Node
      requires id in variables
    {
      Binary(Equal, variables[id], ConstantExpr(c))
    }

    /** A suggestion is met by the models in which the variable has the suggested value. */
    lemma SuggestionMeans(id: nat, c: Constant, m: Model, k: Kind)
      requires id in variables && variables[id].VariableExpr? && variables[id].id == id
      requires HasKind(m(id), k) && HasKind(ConstantVal(c), k)
      ensures Denote(Suggestion(id, c), m) == BoolVal(true) <==> m(id) == ConstantVal(c)
    {
      F.EvalBinary(false, Equal, variables[id], ConstantExpr(c), Scalar(m));
    }

    /** The suggested random values of some references. */
    function RandomSuggestions(refs: seq<nat>, values: RefValues): seq<Node>
      requires forall id | id in refs :: id in variables
    {
      seq(|refs|, i requires 0 <= i < |refs| => Suggestion(refs[i], values(refs[i])))
    }

    /** Half of the remaining variables, chosen at random, are suggested their random values. */
    method SuggestRandom(values: RefValues)
      requires Ready(Required())
      modifies this`randomWriteRefs, solver`suggestions, solver`terminals
      ensures Ready(old(Required()))
      ensures multiset(randomWriteRefs) == multiset(old(randomWriteRefs))
      ensures solver.suggestions
        == old(solver.suggestions) + RandomSuggestions(randomWriteRefs[..(|randomWriteRefs| + 1) / 2], values)
    {
      if randomWriteRefs == [] {
        return;
      }
      var refs := Shuffle(randomWriteRefs);
      ShuffledRefs(refs, randomWriteRefs);
      randomWriteRefs := refs;
      SuggestValues(randomWriteRefs[..(|randomWriteRefs| + 1) / 2], values);
    }

    method SuggestValues(refs: seq<nat>, values: RefValues)
      requires Ready(Required()) && forall id | id in refs :: id in variables
      modifies solver`suggestions, solver`terminals
      ensures Ready(old(Required())) && solver.suggestions == old(solver.suggestions) + RandomSuggestions(refs, values)
    {
      ghost var required := Required();
      for i := 0 to |refs|
        invariant Ready(required)
        invariant solver.suggestions == old(solver.suggestions) + RandomSuggestions(refs[..i], values)
      {
        assert refs[..i + 1] == refs[..i] + [refs[i]];
        solver.MakeSuggestion(Suggestion(refs[i], values(refs[i])));
      }
      assert refs[..|refs|] == refs;
    }

    /** Everything that goes to the back end before a call. */
    method Prepare(exprs: RefExprs, values: RefValues) returns (ghost small: seq<Node>)
      requires Valid() && contradictions == []
      modifies this`randomWriteRefs, Bdds(), solver`assumptions, solver`suggestions, solver`terminals
      ensures Ready(old(Required())) && ToSet(solver.assumptions) == RefFormulas(readRefs, exprs)
      ensures AllSmall(small, Contained(writeRefs, bddSolvers.Keys))
      ensures multiset(randomWriteRefs) == multiset(old(randomWriteRefs))
      ensures solver.suggestions == small + FormulasOf(distRefs, exprs)
        + RandomSuggestions(randomWriteRefs[..(|randomWriteRefs| + 1) / 2], values)
    {
      assert Ready(Required()) && solver.assumptions == [] && solver.suggestions == [] && solver !in Bdds();
      hide Valid, Ready, AllSmall, Contained, RandomSuggestions, FormulasOf, ToSet, RefFormulas;
      small := SuggestFromBdds();
      PrepareRefs(exprs, values, Required(), small);
    }

    method PrepareRefs(exprs: RefExprs, values: RefValues, ghost required: Formulas, ghost small: seq<Node>)
      requires Ready(required) && solver.assumptions == [] && solver.suggestions == small
      modifies this`randomWriteRefs, solver`assumptions, solver`suggestions, solver`terminals
      ensures Ready(required) && ToSet(solver.assumptions) == RefFormulas(readRefs, exprs)
      ensures multiset(randomWriteRefs) == multiset(old(randomWriteRefs))
      ensures solver.suggestions == small + FormulasOf(distRefs, exprs)
        + RandomSuggestions(randomWriteRefs[..(|randomWriteRefs| + 1) / 2], values)
    {
      AssumeReads(exprs);
      SuggestDists(exprs);
      SuggestRandom(values);
    }

    /** The written variables get their values in the model. */
    method ReadBack(ghost fs: Formulas)
      requires solver.model.Some? && Satisfies(solver.model.value, solver.scope, fs)
      modifies this`written
      ensures Delivers(written, writeRefs, solver.terminals, solver.scope, fs, solver.model)
    {
      ghost var m := solver.model.value;
      for i := 0 to |writeRefs|
        invariant Carries(written, writeRefs[..i], solver.terminals, m)
      {
        var v := solver.Read(writeRefs[i]);
        assert writeRefs[..i + 1] == writeRefs[..i] + [writeRefs[i]];
        if v.Some? {
          written := written[writeRefs[i] := v.value];
        }
      }
      assert writeRefs[..|writeRefs|] == writeRefs;
      assert Carries(written, writeRefs, solver.terminals, m);
    }

    method Run() returns (ok: bool)
      requires Ready(Required())
      modifies this`written, solver`assumed, solver`assumptions, solver`suggestions, solver`calls, solver`model
      ensures Valid() && Required() == old(Required()) && solver.softs == old(solver.softs)
      ensures ok <==> Sat(solver.scope, Required() + ToSet(old(solver.assumptions)))
      ensures ok ==> Delivers(written, writeRefs, solver.terminals, solver.scope,
        Required() + ToSet(old(solver.assumptions)), solver.model)
      ensures solver.calls <= old(solver.calls) + |old(solver.suggestions)| + 1
    {
      ghost var must := Required() + ToSet(solver.assumptions);
      assert solver.Must(true, solver.assumptions) == must;
      ghost var kept;
      hide Sat, Satisfies, ToSet, Mentions, Exact, BddOk, Delivers, RefsOk;
      ok, kept := solver.Solve(true);
      if ok {
        SatisfiesFewer(solver.model.value, solver.scope, must + ToSet(kept), must);
        ReadBack(must);
      }
    }

    /** repr holds every object of this solver. */
    ghost predicate Owns()
      reads this
    {
      this in repr && solver in repr && Bdds() <= repr
    }

    /** No contradiction was found, and what is required can hold together with the read references. */
    ghost predicate Solvable(exprs: RefExprs)
      reads this`contradictions, solver
    {
      contradictions == [] && Sat(solver.scope, Required() + RefFormulas(readRefs, exprs))
    }

    /**
     The variables of the partition have the same values in m and in the model that was found,
     and the written ones carry them, as far as some formula mentions them.
     */
    ghost predicate Holds(m: Model)
      reads this`written, solver
    {
      && solver.model.Some? && (forall id | id in partition.support :: m(id) == solver.model.value(id))
      && Carries(written, writeRefs, solver.terminals, m)
    }

    /** Whether the partition has a variable, and its value if some formula mentions it. */
    method Read(id: nat) returns (found: bool, v: Option<Val>)
      requires solver.model.Some?
      ensures found == (id in partition.support)
      ensures v == if found && id in solver.terminals then Some(solver.model.value(id)) else None
    {
      found := id in partition.support;
      v := None;
      if found {
        v := solver.Read(id);
      }
    }

    /** The values written last are those of a model of everything that is asked. */
    ghost predicate Delivered(exprs: RefExprs)
      reads this`written, solver
    {
      Delivers(written, writeRefs, solver.terminals, solver.scope, Required() + RefFormulas(readRefs, exprs),
        solver.model)
    }

    /**
     Whatever is drawn at random, a partition without a contradiction is solved exactly when
     what it requires can hold together with the values of the read references.
     */
    method Solve(exprs: RefExprs, values: RefValues) returns (ok: bool)
      requires Valid()
      modifies this`randomWriteRefs, this`written, solver, Bdds()
      ensures Valid() && Required() == old(Required()) && solver.softs == old(solver.softs)
      ensures ok <==> Solvable(exprs)
      ensures ok ==> Delivered(exprs)
      ensures solver.calls <= old(solver.calls) + |writeRefs| + |distRefs| + (|writeRefs| + 1) / 2 + 1
    {
      if contradictions != [] {
        return false;
      }
      ghost var small := Prepare(exprs, values);
      ContainedLength(writeRefs, bddSolvers.Keys);
      ok := Run();
    }

    /** Queued soft constraints are ignored, but delivered all the same when what is asked entails them. */
    lemma QueuedAreMetIfEntailed(exprs: RefExprs)
      requires Delivered(exprs)
      requires Entails(solver.scope, Required() + RefFormulas(readRefs, exprs), ToSet(solver.softs))
      ensures Delivers(written, writeRefs, solver.terminals, solver.scope, Given() + RefFormulas(readRefs, exprs),
        solver.model)
    {
      assert Satisfies(solver.model.value, solver.scope, Given() + RefFormulas(readRefs, exprs));
    }

    ghost method Own()
      modifies this`repr
      ensures Owns() && repr == {this, solver} + Bdds()
    {
      repr := {this, solver} + Bdds();
    }

    /**
     Make the solver of a partition. With bypass the analysis of the constraints is
     skipped; cudd says whether solvers for single variables are available.
     */
    constructor (vcon: VariableContainer, p: Partition, scope: M.Scope, decide: BackEnd, conflicts: Conflicts,
        toConstant: (nat, Option<Val>) -> Constant, bypass: bool, cudd: bool)
      requires PartitionOk(p) && WellMade(p.constraints) && p.support <= vcon.variables.Keys
      requires forall id | id in vcon.distRefs && id in p.support :: id in vcon.distRefToVar
      requires Exact(decide, scope) && FindsConflicts(conflicts, scope)
      ensures Valid() && Owns() && repr == {this, solver} + Bdds() && fresh(solver) && fresh(Bdds())
      ensures BuiltFor(vcon, p, scope, bypass)
      ensures !bypass ==> Sources(DistVars(vcon, Contained(vcon.distRefs, p.support)), cudd)
    {
      partition, variables, this.toConstant := p, vcon.variables, toConstant;
      var rs := ContainedRefs(vcon.readRefs, p.support);
      var ws := ContainedRefs(vcon.writeRefs, p.support);
      var ds := ContainedRefs(vcon.distRefs, p.support);
      ContainedMember(vcon.writeRefs, p.support);
      ContainedMember(vcon.distRefs, p.support);
      readRefs, writeRefs, distRefs := rs, ws, ds;
      bddSolvers, randomWriteRefs, contradictions, inactiveSofts, written := map[], [], [], [], map[];
      repr := {};
      var s := new Solver(scope, decide, 0);
      solver := s;
      new;
      SetUp(decide, conflicts, DistVars(vcon, ds), bypass, cudd);
    }
  }

  /** The constraints cs have been handed to a back end. */
  ghost predicate Entered(cs: seq<Constraint>, asserted: Formulas, softs: seq<Node>, terminals: set<nat>) {
    asserted == Hards(cs) && softs == Exprs(SoftsOf(cs)) && Mentions(terminals, asserted + ToSet(softs))
  }

  lemma EnteredNext(cs: seq<Constraint>, i: nat, asserted: Formulas, softs: seq<Node>, terminals: set<nat>)
    requires i < |cs| && WellMade(cs) && Entered(cs[..i], asserted, softs, terminals)
    ensures var c := cs[i];
      var vars := terminals + Support(c.expr);
      if c.cover then Entered(cs[..i + 1], asserted, softs, terminals)
      else if c.soft then Entered(cs[..i + 1], asserted, softs + [c.expr], vars)
      else Entered(cs[..i + 1], asserted + {c.expr}, softs, vars)
  {
    var c := cs[i];
    assert cs[..i + 1] == cs[..i] + [c] && c in cs;
    assert !(c.soft && c.cover);
    SoftsOfPushed(cs[..i], c);
    HardsPush(cs[..i], c);
    ToSetPush(softs, c.expr);
    MentionsPush(terminals, asserted + ToSet(softs), c.expr);
    hide SoftsOf, Hards, ToSet, Support, WellMade, Mentions, Exprs;
    assert asserted + {c.expr} + ToSet(softs) == asserted + ToSet(softs) + {c.expr};
    assert asserted + (ToSet(softs) + {c.expr}) == asserted + ToSet(softs) + {c.expr};
  }

  lemma MentionsPush(terminals: set<nat>, fs: Formulas, n: Node)
    requires Mentions(terminals, fs)
    ensures Mentions(terminals + Support(n), fs + {n})
  {
  }

  lemma SoftsOfPushed(cs: seq<Constraint>, c: Constraint)
    ensures Exprs(SoftsOf(cs + [c])) == if c.soft && !c.cover then Exprs(SoftsOf(cs)) + [c.expr] else Exprs(SoftsOf(cs))
  {
  }

  /** Without analysis a partition is solved exactly when its hard constraints and read references can hold. */
  lemma BypassedSolvable(vs: VariableDefaultSolver, vcon: VariableContainer, p: Partition, scope: M.Scope,
      exprs: RefExprs)
    requires vs.BuiltFor(vcon, p, scope, true)
    ensures vs.Solvable(exprs)
      <==> Sat(scope, Hards(p.constraints) + RefFormulas(Contained(vcon.readRefs, p.support), exprs))
  {
  }

  lemma HardsPush(cs: seq<Constraint>, c: Constraint)
    ensures Hards(cs + [c]) == if c.IsHard() then Hards(cs) + {c.expr} else Hards(cs)
  {
  }
}
