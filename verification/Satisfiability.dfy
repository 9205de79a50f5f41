/**
 Joint satisfiability of formulas, and gluing the models of groups that share no variables.
 */
module Satisfiability {
  import opened Ast
  import opened Partitions
  import M = MetaSMT

  type Formulas = set<Node>

  ghost predicate Holds(fs: Formulas, m: Model) {
    forall n | n in fs :: Denote(n, m) == BoolVal(true)
  }

  ghost predicate Satisfies(m: Model, scope: M.Scope, fs: Formulas) {
    M.ModelFits(m, scope) && Holds(fs, m)
  }

  /** Some model of the declared variables makes all the formulas true. */
  ghost predicate Sat(scope: M.Scope, fs: Formulas) {
    exists m :: Satisfies(m, scope, fs)
  }

  lemma SatFewer(scope: M.Scope, fs: Formulas, gs: Formulas)
    requires gs <= fs
    ensures Sat(scope, fs) ==> Sat(scope, gs)
  {
    if m :| Satisfies(m, scope, fs) {
      assert Satisfies(m, scope, gs);
    }
  }

  /** What the gate level decides is what the formula level asks. */
  lemma GatesDecideSat(v: M.MetaSMTVisitor, scope: M.Scope)
    requires v.Valid(scope) && v.Asserted() && M.KindsOk(scope)
    ensures (exists env :: M.AllTrue(v.bb.gates, v.bb.assertions, env)) <==> Sat(scope, set n | n in v.asserted)
  {
    v.AssertionsPreserveSatisfiability(scope);
    var fs := set n | n in v.asserted;
    forall m | M.ModelFits(m, scope)
      ensures M.AllHold(v.asserted, m) <==> Satisfies(m, scope, fs)
    {
      if M.AllHold(v.asserted, m) {
        forall n | n in fs
          ensures Denote(n, m) == BoolVal(true)
        {
          var j :| 0 <= j < |v.asserted| && v.asserted[j] == n;
        }
      } else {
        var j :| 0 <= j < |v.asserted| && Denote(v.asserted[j], m) != BoolVal(true);
        assert v.asserted[j] in fs;
      }
    }
  }

  /** Every model of fs makes gs true too. */
  ghost predicate Entails(scope: M.Scope, fs: Formulas, gs: Formulas) {
    forall m: Model :: Satisfies(m, scope, fs) ==> Holds(gs, m)
  }

  function DefaultModel(scope: M.Scope): Model {
    (id: nat) => if id in scope then M.DefaultVal(scope[id]) else Stuck
  }

  lemma NothingIsSat(scope: M.Scope)
    requires M.KindsOk(scope)
    ensures Satisfies(DefaultModel(scope), scope, {})
  {
  }

  // ----- Gluing -----

  ghost predicate Over(fs: Formulas, vars: set<nat>) {
    forall n | n in fs :: Support(n) <= vars
  }

  ghost predicate Avoids(fs: Formulas, vars: set<nat>) {
    forall n | n in fs :: Support(n) !! vars
  }

  /** The values of vars are taken from m, all others from m'. */
  function Glue(vars: set<nat>, m: Model, m': Model): Model {
    (id: nat) => if id in vars then m(id) else m'(id)
  }

  lemma GlueSatisfies(vars: set<nat>, m: Model, m': Model, scope: M.Scope, fs: Formulas, gs: Formulas)
    requires Satisfies(m, scope, fs) && Over(fs, vars)
    requires Satisfies(m', scope, gs) && Avoids(gs, vars)
    ensures Satisfies(Glue(vars, m, m'), scope, fs + gs)
  {
    var g := Glue(vars, m, m');
    forall n | n in fs + gs
      ensures Denote(n, g) == BoolVal(true)
    {
      SupportDecides(false, n, g, if n in fs then m else m');
    }
  }

  /** A group over its own variables is satisfiable together with the rest when each is by itself. */
  lemma SatApart(vars: set<nat>, scope: M.Scope, fs: Formulas, gs: Formulas)
    requires Over(fs, vars) && Avoids(gs, vars)
    ensures Sat(scope, fs + gs) <==> Sat(scope, fs) && Sat(scope, gs)
  {
    if Sat(scope, fs) && Sat(scope, gs) {
      var m :| Satisfies(m, scope, fs);
      var m' :| Satisfies(m', scope, gs);
      GlueSatisfies(vars, m, m', scope, fs, gs);
    }
    SatFewer(scope, fs + gs, fs);
    SatFewer(scope, fs + gs, gs);
  }

  // ----- The constraints of a group -----

  function Hards(cs: seq<Constraint>): Formulas { set c | c in cs && c.IsHard() :: c.expr }

  /**
   As the constraint manager makes them: the support is that of the expression, no
   constraint is both soft and cover.
   */
  ghost predicate WellMade(cs: seq<Constraint>) {
    forall c | c in cs :: c.support == Support(c.expr) && !(c.soft && c.cover)
  }

  lemma InAllMembers(ps: seq<Partition>, c: Constraint)
    ensures c in AllMembers(ps) <==> exists i :: 0 <= i < |ps| && c in ps[i].constraints
  {
    if ps != [] {
      var init := ps[..|ps| - 1];
      InAllMembers(init, c);
      MultisetMember(ps[|ps| - 1].constraints, c);
      if i :| 0 <= i < |ps| && c in ps[i].constraints {
        assert i == |ps| - 1 || c in init[i].constraints;
      }
      if i :| 0 <= i < |init| && c in init[i].constraints {
        assert c in ps[i].constraints;
      }
    }
  }

  ghost predicate Splits(ps: seq<Partition>, cs: seq<Constraint>) {
    AllOk(ps) && Separated(ps) && AllMembers(ps) == multiset(cs)
  }

  lemma MemberSomewhere(ps: seq<Partition>, cs: seq<Constraint>, c: Constraint)
    requires Splits(ps, cs)
    ensures c in cs <==> exists i :: 0 <= i < |ps| && c in ps[i].constraints
  {
    InAllMembers(ps, c);
    MultisetMember(cs, c);
  }

  lemma MemberSupport(p: Partition, c: Constraint)
    requires PartitionOk(p) && c in p.constraints
    ensures c.support <= p.support
  {
  }

  /** A constraint over a variable of a partition belongs to that partition and to no other. */
  lemma MemberOfOne(ps: seq<Partition>, cs: seq<Constraint>, i: nat, c: Constraint)
    requires Splits(ps, cs) && i < |ps| && c in cs && c !in ps[i].constraints
    ensures c.support !! ps[i].support
  {
    MemberSomewhere(ps, cs, c);
    var j :| 0 <= j < |ps| && c in ps[j].constraints;
    MemberSupport(ps[j], c);
    assert ps[j].support !! ps[i].support by {
      if i < j {
        assert ps[i].support !! ps[j].support;
      } else {
        assert ps[j].support !! ps[i].support;
      }
    }
  }

  /** The value of a variable comes from the model of the last partition over it. */
  function Glued(ps: seq<Partition>, models: seq<Model>, base: Model): Model
    requires |ps| == |models|
  {
    if ps == [] then base
    else Glue(ps[|ps| - 1].support, models[|ps| - 1], Glued(ps[..|ps| - 1], models[..|ps| - 1], base))
  }

  function Union(fss: seq<Formulas>): Formulas {
    if fss == [] then {} else Union(fss[..|fss| - 1]) + fss[|fss| - 1]
  }

  lemma InUnion(fss: seq<Formulas>, n: Node)
    ensures n in Union(fss) <==> exists i :: 0 <= i < |fss| && n in fss[i]
  {
  }

  /** Formulas fss[i] of partition i speak of its variables only. */
  ghost predicate OverAll(fss: seq<Formulas>, ps: seq<Partition>) {
    |fss| == |ps| && forall i | 0 <= i < |ps| :: Over(fss[i], ps[i].support)
  }

  /**
   One model per partition, put together by the partitions' variables, satisfies everything
   at once.
   */
  lemma {:induction false} GluedSatisfies(ps: seq<Partition>, models: seq<Model>, base: Model, scope: M.Scope,
      fss: seq<Formulas>)
    requires Separated(ps) && OverAll(fss, ps) && |models| == |ps| && M.ModelFits(base, scope)
    requires forall i | 0 <= i < |ps| :: Satisfies(models[i], scope, fss[i])
    ensures Satisfies(Glued(ps, models, base), scope, Union(fss))
  {
    if ps != [] {
      var k := |ps| - 1;
      var init := fss[..k];
      assert forall i | 0 <= i < k :: init[i] == fss[i] && ps[..k][i] == ps[i] && models[..k][i] == models[i];
      GluedSatisfies(ps[..k], models[..k], base, scope, init);
      forall n | n in Union(init)
        ensures Support(n) !! ps[k].support
      {
        InUnion(init, n);
        var i :| 0 <= i < |init| && n in init[i];
        assert Over(fss[i], ps[i].support) && ps[i].support !! ps[k].support;
      }
      GlueSatisfies(ps[k].support, models[k], Glued(ps[..k], models[..k], base), scope, fss[k], Union(init));
      assert fss[k] + Union(init) == Union(fss);
    }
  }

  /** Satisfiable together exactly when satisfiable one by one. */
  lemma {:induction false} UnionSat(ps: seq<Partition>, scope: M.Scope, fss: seq<Formulas>)
    requires Separated(ps) && OverAll(fss, ps) && M.KindsOk(scope)
    ensures Sat(scope, Union(fss)) <==> forall i | 0 <= i < |ps| :: Sat(scope, fss[i])
  {
    if forall i | 0 <= i < |ps| :: Sat(scope, fss[i]) {
      var models := ModelOfEach(scope, fss);
      NothingIsSat(scope);
      GluedSatisfies(ps, models, DefaultModel(scope), scope, fss);
    }
    if Sat(scope, Union(fss)) {
      forall i | 0 <= i < |ps|
        ensures Sat(scope, fss[i])
      {
        forall n | n in fss[i]
          ensures n in Union(fss)
        {
          InUnion(fss, n);
        }
        SatFewer(scope, Union(fss), fss[i]);
      }
    }
  }

  lemma {:induction false} ModelOfEach(scope: M.Scope, fss: seq<Formulas>) returns (models: seq<Model>)
    requires forall i | 0 <= i < |fss| :: Sat(scope, fss[i])
    ensures |models| == |fss| && forall i | 0 <= i < |fss| :: Satisfies(models[i], scope, fss[i])
  {
    models := [];
    if fss != [] {
      var k := |fss| - 1;
      assert forall i | 0 <= i < k :: fss[..k][i] == fss[i];
      models := ModelOfEach(scope, fss[..k]);
      assert Sat(scope, fss[k]);
      var m :| Satisfies(m, scope, fss[k]);
      models := models + [m];
    }
  }

  function HardsOfEach(ps: seq<Partition>): (r: seq<Formulas>)
    ensures |r| == |ps| && forall i | 0 <= i < |ps| :: r[i] == Hards(ps[i].constraints)
  {
    seq(|ps|, i requires 0 <= i < |ps| => Hards(ps[i].constraints))
  }

  lemma SplitsWellMade(ps: seq<Partition>, cs: seq<Constraint>, i: nat)
    requires Splits(ps, cs) && WellMade(cs) && i < |ps|
    ensures WellMade(ps[i].constraints)
    ensures forall c | c in ps[i].constraints :: Support(c.expr) <= ps[i].support
  {
    forall c | c in ps[i].constraints
      ensures c in cs && c.support <= ps[i].support
    {
      MemberSomewhere(ps, cs, c);
      MemberSupport(ps[i], c);
    }
  }

  lemma HardsAreUnion(ps: seq<Partition>, cs: seq<Constraint>)
    requires Splits(ps, cs) && WellMade(cs)
    ensures Union(HardsOfEach(ps)) == Hards(cs) && OverAll(HardsOfEach(ps), ps)
  {
    var fss := HardsOfEach(ps);
    forall i | 0 <= i < |ps|
      ensures Over(fss[i], ps[i].support)
    {
      SplitsWellMade(ps, cs, i);
    }
    forall n
      ensures n in Union(fss) <==> n in Hards(cs)
    {
      InUnion(fss, n);
      if i :| 0 <= i < |fss| && n in fss[i] {
        var c :| c in ps[i].constraints && c.IsHard() && c.expr == n;
        MemberSomewhere(ps, cs, c);
      }
      if n in Hards(cs) {
        var c :| c in cs && c.IsHard() && c.expr == n;
        MemberSomewhere(ps, cs, c);
        var i :| 0 <= i < |ps| && c in ps[i].constraints;
        assert n in fss[i];
      }
    }
  }

  /** All hard constraints are jointly satisfiable exactly when those of every partition are. */
  lemma HardsIffPartitions(ps: seq<Partition>, cs: seq<Constraint>, scope: M.Scope)
    requires Splits(ps, cs) && WellMade(cs) && M.KindsOk(scope)
    ensures Sat(scope, Hards(cs)) <==> forall i | 0 <= i < |ps| :: Sat(scope, Hards(ps[i].constraints))
  {
    HardsAreUnion(ps, cs);
    UnionSat(ps, scope, HardsOfEach(ps));
  }
}
