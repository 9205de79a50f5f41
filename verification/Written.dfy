/**
 From end to end: what the generator is asked for and what it delivers, said of the
 constraints as the user wrote them, before widths are fixed.
 */
module Written {
  import opened Ast
  import opened FixWidth
  import opened Blasting
  import opened Partitions
  import opened Softs
  import opened DefaultSolver
  import opened SoftsPerPartition
  import opened Generators
  import S = Satisfiability
  import M = MetaSMT

  /** The constraint with an id, as it was written. */
  type Source = nat -> Node

  /** The constraints were made, with their widths fixed, from truth values over declared variables. */
  ghost predicate FromSource(cs: seq<Constraint>, src: Source, scope: M.Scope) {
    forall c | c in cs :: c.expr == Fix(src(c.id)) && IsConstraint(src(c.id), scope)
  }

  ghost predicate AreConstraints(gs: set<Node>, scope: M.Scope) {
    forall g | g in gs :: IsConstraint(g, scope)
  }

  /** All trees are true as the user reads them. */
  ghost predicate True(gs: set<Node>, m: Model) {
    forall g | g in gs :: Meaning(g, m) == BoolVal(true)
  }

  ghost predicate CanBeTrue(scope: M.Scope, gs: set<Node>) {
    exists m: Model :: M.ModelFits(m, scope) && True(gs, m)
  }

  function FixEach(gs: set<Node>): S.Formulas { set g | g in gs :: Fix(g) }

  /** A fixed constraint is true exactly where the written one is. */
  lemma FixedIsTrue(g: Node, scope: M.Scope, m: Model)
    requires IsConstraint(g, scope) && M.ModelFits(m, scope)
    ensures Denote(Fix(g), m) == Meaning(g, m)
  {
    ScopedLeavesFit(g, scope, m);
    FixPreservesMeaning(g, m);
  }

  lemma FixedHold(gs: set<Node>, scope: M.Scope, m: Model)
    requires AreConstraints(gs, scope) && M.ModelFits(m, scope)
    ensures S.Holds(FixEach(gs), m) <==> True(gs, m)
  {
    forall g | g in gs
      ensures Fix(g) in FixEach(gs) && Denote(Fix(g), m) == Meaning(g, m)
    {
      FixedIsTrue(g, scope, m);
    }
  }

  lemma FixedSat(gs: set<Node>, scope: M.Scope)
    requires AreConstraints(gs, scope)
    ensures S.Sat(scope, FixEach(gs)) <==> CanBeTrue(scope, gs)
  {
    hide FixEach;
    forall m: Model | M.ModelFits(m, scope)
      ensures S.Holds(FixEach(gs), m) <==> True(gs, m)
    {
      FixedHold(gs, scope, m);
    }
    hide True, S.Holds;
    if S.Sat(scope, FixEach(gs)) {
      var m: Model :| S.Satisfies(m, scope, FixEach(gs));
      assert True(gs, m);
    }
    if CanBeTrue(scope, gs) {
      var m: Model :| M.ModelFits(m, scope) && True(gs, m);
      assert S.Satisfies(m, scope, FixEach(gs));
    }
  }

  // ----- Soft constraints -----

  /** Newest first: a soft constraint is kept when it can be true together with all that is kept before. */
  ghost function KeepWritten(scope: M.Scope, base: set<Node>, softs: seq<Node>): (mask: seq<bool>)
    ensures |mask| == |softs|
  {
    if softs == [] then []
    else
      var init, last := softs[..|softs| - 1], softs[|softs| - 1];
      var mask := KeepWritten(scope, base, init);
      mask + [CanBeTrue(scope, base + Kept(init, mask) + {last})]
  }

  lemma FixKept(softs: seq<Node>, mask: seq<bool>)
    requires |softs| == |mask|
    ensures Kept(FixAll(softs), mask) == FixEach(Kept(softs, mask))
  {
    hide Fix;
    forall f
      ensures f in Kept(FixAll(softs), mask) <==> f in FixEach(Kept(softs, mask))
    {
      if f in Kept(FixAll(softs), mask) {
        var i :| 0 <= i < |softs| && mask[i] && FixAll(softs)[i] == f;
        assert softs[i] in Kept(softs, mask);
      }
      if f in FixEach(Kept(softs, mask)) {
        var g :| g in Kept(softs, mask) && Fix(g) == f;
        var i :| 0 <= i < |softs| && mask[i] && softs[i] == g;
        assert FixAll(softs)[i] == f;
      }
    }
  }

  /** The pass over the formulas keeps what the pass over the written constraints keeps. */
  lemma {:induction false} GreedyAsWritten(scope: M.Scope, base: set<Node>, softs: seq<Node>)
    requires AreConstraints(base, scope) && forall g | g in softs :: IsConstraint(g, scope)
    ensures Greedy(scope, FixEach(base), FixAll(softs)) == KeepWritten(scope, base, softs)
  {
    hide Fix, IsConstraint, CanBeTrue, FixEach, S.Sat;
    if softs != [] {
      var k := |softs| - 1;
      var init, last := softs[..k], softs[k];
      GreedyAsWritten(scope, base, init);
      OneMoreSat(scope, base, init, KeepWritten(scope, base, init), last);
      GreedyPush(scope, FixEach(base), FixAll(init), Fix(last));
      assert FixAll(softs) == FixAll(init) + [Fix(last)];
    }
  }

  lemma OneMoreSat(scope: M.Scope, base: set<Node>, softs: seq<Node>, mask: seq<bool>, g: Node)
    requires AreConstraints(base, scope) && IsConstraint(g, scope) && forall g | g in softs :: IsConstraint(g, scope)
    requires |mask| == |softs|
    ensures S.Sat(scope, FixEach(base) + Kept(FixAll(softs), mask) + {Fix(g)})
      == CanBeTrue(scope, base + Kept(softs, mask) + {g})
  {
    hide Fix, IsConstraint, CanBeTrue, FixEach, S.Sat;
    FixKept(softs, mask);
    FixUnion(base, Kept(softs, mask), g);
    FixedSat(base + Kept(softs, mask) + {g}, scope);
  }

  lemma FixUnion(a: set<Node>, b: set<Node>, g: Node)
    ensures FixEach(a + b + {g}) == FixEach(a) + FixEach(b) + {Fix(g)}
  {
    hide Fix;
    forall f
      ensures f in FixEach(a + b + {g}) <==> f in FixEach(a) + FixEach(b) + {Fix(g)}
    {
      if f in FixEach(a) {
        var x :| x in a && Fix(x) == f;
        assert x in a + b + {g};
      }
      if f in FixEach(b) {
        var x :| x in b && Fix(x) == f;
        assert x in a + b + {g};
      }
      if f == Fix(g) {
        assert g in a + b + {g};
      }
    }
  }

  function Sources(cs: seq<Constraint>, src: Source): (gs: seq<Node>)
    ensures |gs| == |cs| && forall i | 0 <= i < |cs| :: gs[i] == src(cs[i].id)
  {
    seq(|cs|, i requires 0 <= i < |cs| => src(cs[i].id))
  }

  function HardSources(cs: seq<Constraint>, src: Source): set<Node> { set c | c in cs && c.IsHard() :: src(c.id) }

  lemma HardsAreFixed(cs: seq<Constraint>, src: Source, scope: M.Scope)
    requires FromSource(cs, src, scope)
    ensures S.Hards(cs) == FixEach(HardSources(cs, src)) && AreConstraints(HardSources(cs, src), scope)
  {
    hide Fix, IsConstraint;
    forall f
      ensures f in S.Hards(cs) <==> f in FixEach(HardSources(cs, src))
    {
      if f in S.Hards(cs) {
        var c :| c in cs && c.IsHard() && c.expr == f;
        assert src(c.id) in HardSources(cs, src);
      }
      if f in FixEach(HardSources(cs, src)) {
        var g :| g in HardSources(cs, src) && Fix(g) == f;
        var c :| c in cs && c.IsHard() && src(c.id) == g;
        assert c.expr in S.Hards(cs);
      }
    }
  }

  /** The soft constraints that are kept by a pass over the written constraints. */
  ghost function WrittenSurvivors(scope: M.Scope, cs: seq<Constraint>, src: Source): seq<Constraint> {
    Pick(SoftsOf(cs), KeepWritten(scope, HardSources(cs, src), Sources(SoftsOf(cs), src)), true)
  }

  lemma SurvivorsAsWritten(scope: M.Scope, cs: seq<Constraint>, src: Source)
    requires FromSource(cs, src, scope)
    ensures Survivors(scope, cs) == WrittenSurvivors(scope, cs, src)
  {
    HardsAreFixed(cs, src, scope);
    var softs := SoftsOf(cs);
    forall c | c in softs
      ensures c in cs
    {
      SoftsOfMember(cs, c);
    }
    hide Fix, IsConstraint;
    assert Exprs(softs) == FixAll(Sources(softs, src));
    GreedyAsWritten(scope, HardSources(cs, src), Sources(softs, src));
  }

  // ----- The generator -----

  /** m meets the hard constraints and the kept soft ones as they were written, and the read references. */
  ghost predicate MeetsWritten(m: Model, scope: M.Scope, cs: seq<Constraint>, src: Source, refs: seq<nat>,
      exprs: RefExprs) {
    && M.ModelFits(m, scope)
    && (forall c | c in cs && c.IsHard() :: Meaning(src(c.id), m) == BoolVal(true))
    && (forall c | c in WrittenSurvivors(scope, InsertAll(cs), src) :: Meaning(src(c.id), m) == BoolVal(true))
    && S.Holds(RefFormulas(Contained(refs, UnionSupport(Members(cs))), exprs), m)
  }

  lemma SurvivorIsMember(scope: M.Scope, cs: seq<Constraint>, c: Constraint)
    requires c in Survivors(scope, cs)
    ensures c in cs
  {
    PickMember(SoftsOf(cs), Mask(scope, cs), true, c);
    SoftsOfMember(cs, c);
  }

  lemma ConstraintHolds(c: Constraint, src: Source, scope: M.Scope, m: Model)
    requires c.expr == Fix(src(c.id)) && IsConstraint(src(c.id), scope) && M.ModelFits(m, scope)
    ensures Denote(c.expr, m) == BoolVal(true) <==> Meaning(src(c.id), m) == BoolVal(true)
  {
    FixedIsTrue(src(c.id), scope, m);
  }

  lemma DemandsHold(cs: seq<Constraint>, scope: M.Scope, m: Model)
    ensures S.Holds(Demands(scope, cs), m) <==> (
      && (forall c | c in cs && c.IsHard() :: Denote(c.expr, m) == BoolVal(true))
      && (forall c | c in Survivors(scope, cs) :: Denote(c.expr, m) == BoolVal(true)))
  {
    hide Denote, Survivors;
    if S.Holds(Demands(scope, cs), m) {
      forall c | c in cs && c.IsHard()
        ensures Denote(c.expr, m) == BoolVal(true)
      {
        assert c.expr in S.Hards(cs);
      }
      forall c | c in Survivors(scope, cs)
        ensures Denote(c.expr, m) == BoolVal(true)
      {
        assert c.expr in Demands(scope, cs);
      }
    }
  }

  /** What the partitions are asked for together means the constraints as they were written. */
  lemma AskedMeans(scope: M.Scope, cs: seq<Constraint>, src: Source, refs: seq<nat>, exprs: RefExprs, m: Model)
    requires FromSource(cs, src, scope)
    ensures S.Satisfies(m, scope, AskedOfAll(scope, cs, refs, exprs)) <==> MeetsWritten(m, scope, cs, src, refs, exprs)
  {
    SortedHards(cs);
    var all := InsertAll(cs);
    hide Fix, IsConstraint, Denote, Meaning, Demands, RefFormulas, InsertAll;
    SurvivorsAsWritten(scope, all, src);
    DemandsHold(all, scope, m);
    if M.ModelFits(m, scope) {
      forall c | c in cs
        ensures Denote(c.expr, m) == BoolVal(true) <==> Meaning(src(c.id), m) == BoolVal(true)
      {
        ConstraintHolds(c, src, scope, m);
      }
      forall c | c in Survivors(scope, all)
        ensures c in cs
      {
        SurvivorIsMember(scope, all, c);
      }
    }
  }

  /** None of the formulas that come from constraints can stop the back end. */
  lemma DemandsCanBeAsserted(scope: M.Scope, cs: seq<Constraint>, src: Source, n: Node)
    requires FromSource(cs, src, scope) && n in Demands(scope, InsertAll(cs))
    ensures KindOf(false, n) == Some(BoolKind) && M.Scoped(n, scope)
  {
    SortedHards(cs);
    var all := InsertAll(cs);
    hide Fix, IsConstraint, InsertAll, Survivors, KindOf;
    if n in S.Hards(all) {
      var c :| c in all && c.IsHard() && c.expr == n;
      FixedCanBeAsserted(src(c.id), scope);
    } else {
      var c :| c in Survivors(scope, all) && c.expr == n;
      SurvivorIsMember(scope, all, c);
      FixedCanBeAsserted(src(c.id), scope);
    }
  }

  /**
   The answer and the values of the generator, said of the constraints as they were written:
   it succeeds exactly when some model meets the hard ones, the soft ones that a pass newest
   first keeps, and the read references; and it delivers the values of such a model.
   */
  lemma NextAsWritten(g: Generator, cs: seq<Constraint>, scope: M.Scope, src: Source, exprs: RefExprs)
    requires g.Built(cs, scope) && FromSource(Enabled(cs, false), src, scope)
    ensures var refs := g.varGen.vcon.readRefs;
      S.Sat(scope, AskedOfAll(scope, Enabled(cs, false), refs, exprs)) <==>
        (exists m: Model :: MeetsWritten(m, scope, Enabled(cs, false), src, refs, exprs))
    ensures var refs := g.varGen.vcon.readRefs;
      g.Delivered(cs, scope, exprs) <==> exists m: Model ::
        && MeetsWritten(m, scope, Enabled(cs, false), src, refs, exprs)
        && forall i | 0 <= i < |g.varGen.solvers| :: g.varGen.solvers[i].Holds(m)
  {
    var refs := g.varGen.vcon.readRefs;
    forall m: Model
      ensures S.Satisfies(m, scope, AskedOfAll(scope, Enabled(cs, false), refs, exprs))
        <==> MeetsWritten(m, scope, Enabled(cs, false), src, refs, exprs)
    {
      AskedMeans(scope, Enabled(cs, false), src, refs, exprs, m);
    }
  }
}
