/**
 Settling the soft constraints partition by partition keeps the same ones as a single pass
 over all constraints together.
 */
module SoftsPerPartition {
  import opened Ast
  import opened Partitions
  import opened Satisfiability
  import opened Softs
  import M = MetaSMT

  // ----- One list of everything, newest first -----

  /** All constraints in the order of a partition that would hold them all. */
  function InsertAll(cs: seq<Constraint>): seq<Constraint> {
    if cs == [] then [] else Insert(InsertAll(cs[..|cs| - 1]), cs[|cs| - 1])
  }

  lemma {:induction false} InsertAllSorts(cs: seq<Constraint>)
    ensures Descending(InsertAll(cs)) && multiset(InsertAll(cs)) == multiset(cs)
  {
    if cs != [] {
      var init, last := cs[..|cs| - 1], cs[|cs| - 1];
      InsertAllSorts(init);
      hide Insert, Descending;
      InsertDescending(InsertAll(init), last);
      InsertMultiset(InsertAll(init), last);
      assert cs == init + [last];
    }
  }

  /** Ids are given out by a counter. */
  ghost predicate DistinctIds(cs: seq<Constraint>) {
    forall i, j | 0 <= i < j < |cs| :: cs[i].id != cs[j].id
  }

  ghost predicate Ordered(cs: seq<Constraint>) {
    forall i, j | 0 <= i < j < |cs| :: cs[i].id > cs[j].id
  }

  lemma {:induction false} DistinctCount(cs: seq<Constraint>, c: Constraint)
    requires DistinctIds(cs)
    ensures multiset(cs)[c] <= 1
  {
    if cs != [] {
      var init, last := cs[..|cs| - 1], cs[|cs| - 1];
      DistinctCount(init, c);
      assert cs == init + [last];
      if last == c {
        assert c !in init;
        MultisetMember(init, c);
      }
    }
  }

  lemma CountTwice(cs: seq<Constraint>, i: nat, j: nat)
    requires i < j < |cs| && cs[i] == cs[j]
    ensures multiset(cs)[cs[i]] >= 2
  {
    assert cs == cs[..i] + [cs[i]] + cs[i + 1..j] + [cs[j]] + cs[j + 1..];
  }

  lemma OrderedByIds(a: seq<Constraint>, cs: seq<Constraint>)
    requires Descending(a) && multiset(a) <= multiset(cs) && DistinctIds(cs)
    ensures Ordered(a)
  {
    forall i, j | 0 <= i < j < |a|
      ensures a[i].id > a[j].id
    {
      DistinctCount(cs, a[i]);
      if a[i] == a[j] {
        CountTwice(a, i, j);
      }
      MultisetMember(a, a[i]);
      MultisetMember(a, a[j]);
      assert a[i] in cs && a[j] in cs;
    }
  }

  /** An ordered list is determined by its members. */
  lemma {:induction false} OrderedUnique(a: seq<Constraint>, b: seq<Constraint>)
    requires Ordered(a) && Ordered(b) && forall c :: c in a <==> c in b
    ensures a == b
  {
    if a == [] {
      assert forall i | 0 <= i < |b| :: b[i] in a;
    } else {
      assert a[0] in b && b[0] in a;
      assert a[0] == b[0];
      forall c
        ensures c in a[1..] <==> c in b[1..]
      {
        assert c in a[1..] <==> c in a && c != a[0];
        assert c in b[1..] <==> c in b && c != b[0];
      }
      OrderedUnique(a[1..], b[1..]);
      assert a == [a[0]] + a[1..] && b == [b[0]] + b[1..];
    }
  }

  // ----- The members of one partition -----

  /** The elements of part, in their order. */
  function Within(cs: seq<Constraint>, part: set<Constraint>): seq<Constraint> {
    if cs == [] then []
    else PushIf(Within(cs[..|cs| - 1], part), cs[|cs| - 1], cs[|cs| - 1] in part)
  }

  lemma WithinPush(cs: seq<Constraint>, c: Constraint, part: set<Constraint>)
    ensures Within(cs + [c], part) == PushIf(Within(cs, part), c, c in part)
  {
  }

  lemma PushIfIn(cs: seq<Constraint>, c: Constraint, b: bool)
    ensures PushIf(cs, c, b) == if b then cs + [c] else cs
  {
  }

  lemma PushIfWithin(cs: seq<Constraint>, c: Constraint, b: bool, part: set<Constraint>)
    ensures Within(PushIf(cs, c, b), part) == if b && c in part then PushIf(Within(cs, part), c, b)
      else Within(cs, part)
  {
  }

  lemma {:induction false} WithinMember(cs: seq<Constraint>, part: set<Constraint>, c: Constraint)
    ensures c in Within(cs, part) <==> c in cs && c in part
  {
    if cs != [] {
      WithinMember(cs[..|cs| - 1], part, c);
      assert cs == cs[..|cs| - 1] + [cs[|cs| - 1]];
    }
  }

  lemma {:induction false} WithinOrdered(cs: seq<Constraint>, part: set<Constraint>)
    requires Ordered(cs)
    ensures Ordered(Within(cs, part))
  {
    if cs != [] {
      var init, last := cs[..|cs| - 1], cs[|cs| - 1];
      WithinOrdered(init, part);
      var w := Within(init, part);
      forall i | 0 <= i < |w|
        ensures w[i].id > last.id
      {
        WithinMember(init, part, w[i]);
        assert w[i] in init;
      }
    }
  }

  lemma {:induction false} SoftsOfWithin(cs: seq<Constraint>, part: set<Constraint>)
    ensures SoftsOf(Within(cs, part)) == Within(SoftsOf(cs), part)
  {
    if cs != [] {
      var init, c := cs[..|cs| - 1], cs[|cs| - 1];
      SoftsOfWithin(init, part);
      assert cs == init + [c];
      var soft := c.soft && !c.cover;
      WithinPush(init, c, part);
      SoftsOfPush(init, c);
      SoftsOfPush(Within(init, part), c);
      PushIfWithin(SoftsOf(init), c, soft, part);
    }
  }

  lemma SoftsOfPush(cs: seq<Constraint>, c: Constraint)
    ensures SoftsOf(cs + [c]) == PushIf(SoftsOf(cs), c, c.soft && !c.cover)
  {
  }

  lemma {:induction false} SoftsOfMember(cs: seq<Constraint>, c: Constraint)
    ensures c in SoftsOf(cs) <==> c in cs && c.soft && !c.cover
  {
    if cs != [] {
      SoftsOfMember(cs[..|cs| - 1], c);
      assert cs == cs[..|cs| - 1] + [cs[|cs| - 1]];
    }
  }

  lemma {:induction false} MembersCounted(ps: seq<Partition>, i: nat)
    requires i < |ps|
    ensures multiset(ps[i].constraints) <= AllMembers(ps)
  {
    if i < |ps| - 1 {
      MembersCounted(ps[..|ps| - 1], i);
    }
  }

  /** A partition holds its members in the order of the list of everything. */
  lemma PartitionIsWithin(ps: seq<Partition>, cs: seq<Constraint>, i: nat)
    requires Splits(ps, cs) && DistinctIds(cs) && i < |ps|
    ensures ps[i].constraints == Within(InsertAll(cs), Members(ps[i].constraints))
  {
    var own, all := ps[i].constraints, InsertAll(cs);
    var part := Members(own);
    InsertAllSorts(cs);
    OrderedByIds(all, cs);
    MembersCounted(ps, i);
    OrderedByIds(own, cs);
    WithinOrdered(all, part);
    forall c
      ensures c in own <==> c in Within(all, part)
    {
      WithinMember(all, part, c);
      MemberSomewhere(ps, cs, c);
      MultisetMember(all, c);
      MultisetMember(cs, c);
    }
    OrderedUnique(own, Within(all, part));
  }

  // ----- The survivors by their ids -----

  lemma {:induction false} PickAt(cs: seq<Constraint>, mask: seq<bool>, c: Constraint)
    requires |cs| == |mask|
    ensures c in Pick(cs, mask, true) <==> exists i :: 0 <= i < |cs| && mask[i] && cs[i] == c
  {
    if cs != [] {
      var n := |cs| - 1;
      PickAt(cs[..n], mask[..n], c);
      if i :| 0 <= i < n && mask[i] && cs[i] == c {
        assert mask[..n][i] && cs[..n][i] == c;
      }
    }
  }

  lemma {:induction false} SoftsOrdered(cs: seq<Constraint>)
    requires Ordered(cs)
    ensures Ordered(SoftsOf(cs))
  {
    if cs != [] {
      var n := |cs| - 1;
      SoftsOrdered(cs[..n]);
      forall c | c in SoftsOf(cs[..n])
        ensures c.id > cs[n].id
      {
        SoftsOfMember(cs[..n], c);
      }
    }
  }

  ghost predicate IsSoftOf(cs: seq<Constraint>, c: Constraint) { c in cs && c.soft && !c.cover }

  function ExprsOf(cs: set<Constraint>): Formulas { set c | c in cs :: c.expr }

  lemma ChoiceIsKept(softs: seq<Constraint>, chosen: set<Constraint>, mask: seq<bool>)
    requires |mask| == |softs| && (forall c | c in chosen :: c in softs)
    requires forall i | 0 <= i < |softs| :: mask[i] == (softs[i] in chosen)
    ensures Kept(Exprs(softs), mask) == ExprsOf(chosen)
  {
    forall n
      ensures n in Kept(Exprs(softs), mask) <==> n in ExprsOf(chosen)
    {
      if n in ExprsOf(chosen) {
        var c :| c in chosen && c.expr == n;
        var i :| 0 <= i < |softs| && softs[i] == c;
        assert mask[i] && Exprs(softs)[i] == n;
      }
    }
  }

  /**
   Of all soft constraints that can hold together with the hard ones, the survivors are the
   best choice by age: any other choice lacks the newest constraint in which the two differ.
   */
  lemma SurvivorsByIds(scope: M.Scope, cs: seq<Constraint>, chosen: set<Constraint>)
    requires DistinctIds(cs) && (forall c | c in chosen :: IsSoftOf(cs, c))
    requires Sat(scope, Hards(cs) + ExprsOf(chosen))
    ensures var kept := Survivors(scope, InsertAll(cs));
      || (forall c :: c in kept <==> c in chosen)
      || exists c :: c in kept && c !in chosen && forall d | IsSoftOf(cs, d) && d.id > c.id ::
        d in kept <==> d in chosen
  {
    hide SoftsOf, InsertAll, Greedy, Hards, Sat, Kept, ExprsOf;
    var all := InsertAll(cs);
    InsertAllSorts(cs);
    OrderedByIds(all, cs);
    SortedHards(cs);
    var softs, best := SoftsOf(all), Mask(scope, all);
    SoftsOrdered(all);
    forall c
      ensures c in softs <==> IsSoftOf(cs, c)
    {
      SoftsOfMember(all, c);
    }
    var mask := seq(|softs|, i requires 0 <= i < |softs| => softs[i] in chosen);
    ChoiceIsKept(softs, chosen, mask);
    GreedyIsBest(scope, Hards(all), Exprs(softs), mask);
    hide Mask, DistinctIds, Descending;
    BestByIds(softs, best, mask, chosen);
  }

  lemma BestByIds(softs: seq<Constraint>, best: seq<bool>, mask: seq<bool>, chosen: set<Constraint>)
    requires Ordered(softs) && |best| == |mask| == |softs| && (best == mask || Better(best, mask))
    requires (forall c | c in chosen :: c in softs) && forall i | 0 <= i < |softs| :: mask[i] == (softs[i] in chosen)
    ensures var kept := Pick(softs, best, true);
      || (forall c :: c in kept <==> c in chosen)
      || exists c :: c in kept && c !in chosen && forall d | d in softs && d.id > c.id :: d in kept <==> d in chosen
  {
    var kept := Pick(softs, best, true);
    forall i | 0 <= i < |softs|
      ensures softs[i] in kept <==> best[i]
    {
      PickAt(softs, best, softs[i]);
    }
    forall c
      ensures c in kept ==> c in softs
    {
      PickMember(softs, best, true, c);
    }
    if best != mask {
      var k :| 0 <= k < |best| && best[..k] == mask[..k] && best[k] && !mask[k];
      var c := softs[k];
      forall d | d in softs && d.id > c.id
        ensures d in kept <==> d in chosen
      {
        var j :| 0 <= j < |softs| && softs[j] == d;
        assert j < k;
        assert best[..k][j] == mask[..k][j];
      }
      assert c in kept && c !in chosen;
    }
  }

  // ----- The pass inside a partition and the pass over everything -----

  /** The constraints that the pass over softs keeps on top of the base. */
  ghost function Survive(scope: M.Scope, base: Formulas, softs: seq<Constraint>): seq<Constraint> {
    Pick(softs, Greedy(scope, base, Exprs(softs)), true)
  }

  function ExprSet(cs: seq<Constraint>): Formulas { set c | c in cs :: c.expr }

  function ExprsOutside(cs: seq<Constraint>, part: set<Constraint>): Formulas {
    set c | c in cs && c !in part :: c.expr
  }

  lemma SurvivePush(scope: M.Scope, base: Formulas, softs: seq<Constraint>, c: Constraint)
    ensures var kept := Survive(scope, base, softs);
      Survive(scope, base, softs + [c]) == PushIf(kept, c, Sat(scope, base + ExprSet(kept) + {c.expr}))
  {
    var mask := Greedy(scope, base, Exprs(softs));
    PickedAreKept(softs, mask);
    GreedyPush(scope, base, Exprs(softs), c.expr);
    assert Exprs(softs + [c]) == Exprs(softs) + [c.expr];
    var mask' := Greedy(scope, base, Exprs(softs + [c]));
    assert (softs + [c])[..|softs|] == softs && mask'[..|softs|] == mask;
  }

  lemma SurviveIsSat(scope: M.Scope, base: Formulas, softs: seq<Constraint>)
    requires Sat(scope, base)
    ensures Sat(scope, base + ExprSet(Survive(scope, base, softs)))
  {
    GreedyIsSat(scope, base, Exprs(softs));
    PickedAreKept(softs, Greedy(scope, base, Exprs(softs)));
  }

  lemma SplitExprs(cs: seq<Constraint>, part: set<Constraint>)
    ensures ExprSet(cs) == ExprSet(Within(cs, part)) + ExprsOutside(cs, part)
  {
    forall n
      ensures n in ExprSet(cs) <==> n in ExprSet(Within(cs, part)) + ExprsOutside(cs, part)
    {
      forall c
        ensures c in Within(cs, part) <==> c in cs && c in part
      {
        WithinMember(cs, part, c);
      }
    }
  }

  /** Constraints of the part speak of vars only, all others do not speak of them. */
  ghost predicate Divides(cs: seq<Constraint>, part: set<Constraint>, vars: set<nat>) {
    forall c | c in cs :: if c in part then Support(c.expr) <= vars else Support(c.expr) !! vars
  }

  lemma {:induction false} PickMember(cs: seq<Constraint>, mask: seq<bool>, b: bool, c: Constraint)
    requires |cs| == |mask|
    ensures c in Pick(cs, mask, b) ==> c in cs
  {
    if cs != [] {
      PickMember(cs[..|cs| - 1], mask[..|cs| - 1], b, c);
    }
  }

  /** Whether a further constraint of the part fits in depends on the part only. */
  lemma FitsAlike(scope: M.Scope, vars: set<nat>, part: set<Constraint>, own: Formulas, rest: Formulas,
      kept: seq<Constraint>, c: Constraint)
    requires Over(own, vars) && Avoids(rest, vars) && Divides(kept, part, vars) && Support(c.expr) <= vars
    requires Sat(scope, own + rest + ExprSet(kept))
    ensures Sat(scope, own + rest + ExprSet(kept) + {c.expr}) <==>
      Sat(scope, own + ExprSet(Within(kept, part)) + {c.expr})
  {
    var a, b := own + ExprSet(Within(kept, part)) + {c.expr}, rest + ExprsOutside(kept, part);
    SplitExprs(kept, part);
    assert own + rest + ExprSet(kept) + {c.expr} == a + b;
    forall n | n in a
      ensures Support(n) <= vars
    {
      if n in ExprSet(Within(kept, part)) {
        var d :| d in Within(kept, part) && d.expr == n;
        WithinMember(kept, part, d);
      }
    }
    SatApart(vars, scope, a, b);
    SatFewer(scope, own + rest + ExprSet(kept), b);
  }

  lemma DividesInit(cs: seq<Constraint>, c: Constraint, part: set<Constraint>, vars: set<nat>)
    requires Divides(cs + [c], part, vars)
    ensures Divides(cs, part, vars) && if c in part then Support(c.expr) <= vars else Support(c.expr) !! vars
  {
  }

  lemma SurvivorsDivide(scope: M.Scope, base: Formulas, softs: seq<Constraint>, part: set<Constraint>, vars: set<nat>)
    requires Divides(softs, part, vars)
    ensures Divides(Survive(scope, base, softs), part, vars)
  {
    forall c | c in Survive(scope, base, softs)
      ensures c in softs
    {
      PickMember(softs, Greedy(scope, base, Exprs(softs)), true, c);
    }
  }

  lemma {:induction false} SurviveWithin(scope: M.Scope, vars: set<nat>, part: set<Constraint>, own: Formulas,
      rest: Formulas, softs: seq<Constraint>)
    requires Over(own, vars) && Avoids(rest, vars) && Divides(softs, part, vars) && Sat(scope, own + rest)
    ensures Survive(scope, own, Within(softs, part)) == Within(Survive(scope, own + rest, softs), part)
  {
    if softs != [] {
      var init, c := softs[..|softs| - 1], softs[|softs| - 1];
      assert softs == init + [c];
      DividesInit(init, c, part, vars);
      SurviveWithin(scope, vars, part, own, rest, init);
      hide *;
      var kept := Survive(scope, own + rest, init);
      SurvivePush(scope, own + rest, init, c);
      WithinPush(init, c, part);
      PushIfWithin(kept, c, Sat(scope, own + rest + ExprSet(kept) + {c.expr}), part);
      if c in part {
        SurvivePush(scope, own, Within(init, part), c);
        SurviveIsSat(scope, own + rest, init);
        SurvivorsDivide(scope, own + rest, init, part, vars);
        FitsAlike(scope, vars, part, own, rest, kept, c);
      }
      PushIfIn(Within(init, part), c, c in part);
    }
  }

  /** The hard constraints outside the part. */
  function OtherHards(cs: seq<Constraint>, part: set<Constraint>): Formulas {
    set c | c in cs && c !in part && c.IsHard() :: c.expr
  }

  lemma PartitionDivides(ps: seq<Partition>, cs: seq<Constraint>, i: nat)
    requires Splits(ps, cs) && WellMade(cs) && i < |ps|
    ensures Divides(cs, Members(ps[i].constraints), ps[i].support)
    ensures Hards(cs) == Hards(ps[i].constraints) + OtherHards(cs, Members(ps[i].constraints))
    ensures Over(Hards(ps[i].constraints), ps[i].support)
    ensures Avoids(OtherHards(cs, Members(ps[i].constraints)), ps[i].support)
  {
    var part := Members(ps[i].constraints);
    SplitsWellMade(ps, cs, i);
    forall c
      ensures c in part ==> c in cs
      ensures c in cs && c !in part ==> Support(c.expr) !! ps[i].support
    {
      MemberSomewhere(ps, cs, c);
      if c in cs && c !in part {
        MemberOfOne(ps, cs, i, c);
      }
    }
  }

  lemma SortedHards(cs: seq<Constraint>)
    ensures Hards(InsertAll(cs)) == Hards(cs)
    ensures forall c :: c in InsertAll(cs) <==> c in cs
  {
    InsertAllSorts(cs);
    forall c
      ensures c in InsertAll(cs) <==> c in cs
    {
      MultisetMember(InsertAll(cs), c);
      MultisetMember(cs, c);
    }
  }

  /**
   When the hard constraints can hold, a partition keeps exactly those of its soft
   constraints that one pass over all constraints together keeps, in the same order.
   */
  lemma PartitioningKeepsSurvivors(scope: M.Scope, ps: seq<Partition>, cs: seq<Constraint>, i: nat)
    requires Splits(ps, cs) && WellMade(cs) && DistinctIds(cs) && i < |ps| && Sat(scope, Hards(cs))
    ensures Survivors(scope, ps[i].constraints) == Within(Survivors(scope, InsertAll(cs)), Members(ps[i].constraints))
  {
    var own, all := ps[i].constraints, InsertAll(cs);
    var part := Members(own);
    PartitionIsWithin(ps, cs, i);
    SoftsOfWithin(all, part);
    PartitionDivides(ps, cs, i);
    SortedHards(cs);
    forall c | c in SoftsOf(all)
      ensures c in cs
    {
      SoftsOfMember(all, c);
    }
    SurviveWithin(scope, ps[i].support, part, Hards(own), OtherHards(cs, part), SoftsOf(all));
  }

  lemma {:induction false} PickNone(cs: seq<Constraint>, mask: seq<bool>)
    requires |cs| == |mask| && forall i | 0 <= i < |mask| :: !mask[i]
    ensures Pick(cs, mask, true) == []
  {
    if cs != [] {
      PickNone(cs[..|cs| - 1], mask[..|cs| - 1]);
    }
  }

  /** One pass over contradictory hard constraints keeps nothing. */
  lemma ContradictionKeepsNothing(scope: M.Scope, cs: seq<Constraint>)
    requires !Sat(scope, Hards(cs))
    ensures Survivors(scope, cs) == []
  {
    GreedyOfUnsat(scope, Hards(cs), Exprs(SoftsOf(cs)));
    PickNone(SoftsOf(cs), Mask(scope, cs));
  }

  /** No soft constraint can hold together with the hard constraints of its own list. */
  ghost predicate Hopeless(scope: M.Scope, cs: seq<Constraint>) {
    forall c | c in cs && c.soft && !c.cover :: !Sat(scope, Hards(cs) + {c.expr})
  }

  /** The pass keeps nothing exactly when every single soft constraint is too much. */
  lemma {:induction false} SurviveNothing(scope: M.Scope, base: Formulas, softs: seq<Constraint>)
    ensures Survive(scope, base, softs) == [] <==> forall c | c in softs :: !Sat(scope, base + {c.expr})
  {
    if softs != [] {
      hide Sat, Survive;
      var init, last := softs[..|softs| - 1], softs[|softs| - 1];
      assert softs == init + [last];
      SurviveNothing(scope, base, init);
      SurvivePush(scope, base, init, last);
      assert base + ExprSet([]) + {last.expr} == base + {last.expr};
      assert forall c :: c in softs <==> c in init || c == last;
    }
  }

  lemma NothingSurvivesIfHopeless(scope: M.Scope, cs: seq<Constraint>)
    ensures Survivors(scope, cs) == [] <==> Hopeless(scope, cs)
  {
    SurviveNothing(scope, Hards(cs), SoftsOf(cs));
    forall c
      ensures c in SoftsOf(cs) <==> c in cs && c.soft && !c.cover
    {
      SoftsOfMember(cs, c);
    }
  }

  /**
   Partitioning keeps exactly the soft constraints of a single pass if and only if all hard
   constraints can hold together, or no soft constraint can hold together with the hard
   constraints of its own partition.
   */
  lemma SurvivorsAgreeExactly(scope: M.Scope, ps: seq<Partition>, cs: seq<Constraint>)
    requires Splits(ps, cs) && WellMade(cs) && DistinctIds(cs)
    ensures (forall i | 0 <= i < |ps| ::
        Survivors(scope, ps[i].constraints) == Within(Survivors(scope, InsertAll(cs)), Members(ps[i].constraints)))
      <==> Sat(scope, Hards(cs)) || forall i | 0 <= i < |ps| :: Hopeless(scope, ps[i].constraints)
  {
    forall i | 0 <= i < |ps|
      ensures Survivors(scope, ps[i].constraints) == [] <==> Hopeless(scope, ps[i].constraints)
    {
      NothingSurvivesIfHopeless(scope, ps[i].constraints);
    }
    if Sat(scope, Hards(cs)) {
      forall i | 0 <= i < |ps|
        ensures Survivors(scope, ps[i].constraints)
          == Within(Survivors(scope, InsertAll(cs)), Members(ps[i].constraints))
      {
        PartitioningKeepsSurvivors(scope, ps, cs, i);
      }
    } else {
      SortedHards(cs);
      ContradictionKeepsNothing(scope, InsertAll(cs));
    }
  }

  // ----- A disagreeing input -----

  /** One truth value, and the constraint that it contradicts itself. */
  function Flag(id: nat): Node { VariableExpr(id, 1, true) }

  function Contradiction(id: nat): Node { Binary(LogicalAnd, Flag(id), Unary(Not, Flag(id))) }

  const BROKEN := Constraint(1, Contradiction(0), "broken", {0}, false, false, true, false, 1)
  const WISH := Constraint(2, Flag(1), "wish", {1}, true, false, true, false, 1)

  function TwoPartitions(): seq<Partition> {
    [Partition([BROKEN], {0}, map[0 := [BROKEN]]), Partition([WISH], {1}, map[])]
  }

  lemma ContradictionIsFalse(id: nat, m: Model)
    requires HasKind(m(id), BoolKind)
    ensures Denote(Contradiction(id), m) == BoolVal(false)
  {
    assert Denote(Flag(id), m) == m(id);
    EvalOfAnd(Flag(id), Unary(Not, Flag(id)), Scalar(m));
  }

  lemma EvalOfAnd(l: Node, r: Node, leaf: Leaves)
    ensures Eval(false, Binary(LogicalAnd, l, r), leaf)
      == ApplyBinary(LogicalAnd, Sign(l), Sign(r), Eval(false, l, leaf), Eval(false, r, leaf))
  {
  }

  lemma TwoMembers(p: Partition, q: Partition)
    ensures AllMembers([p, q]) == multiset(p.constraints) + multiset(q.constraints)
  {
    assert [p, q][..1] == [p] && [p][..0] == [];
    assert AllMembers([p]) == AllMembers([]) + multiset(p.constraints);
  }

  lemma TwoPartitionsSplit()
    ensures Splits(TwoPartitions(), [BROKEN, WISH])
  {
    FirstIsOk(BROKEN, map[0 := [BROKEN]]);
    FirstIsOk(WISH, map[]);
    hide PartitionOk, AllMembers;
    TwoMembers(TwoPartitions()[0], TwoPartitions()[1]);
    assert [BROKEN, WISH] == [BROKEN] + [WISH];
  }

  const TWO_FLAGS: M.Scope := map[0 := BoolKind, 1 := BoolKind]

  lemma BrokenContradicts(cs: seq<Constraint>)
    requires BROKEN in cs
    ensures !Sat(TWO_FLAGS, Hards(cs))
  {
    forall m: Model
      ensures !Satisfies(m, TWO_FLAGS, Hards(cs))
    {
      if M.ModelFits(m, TWO_FLAGS) {
        assert HasKind(m(0), TWO_FLAGS[0]);
        ContradictionIsFalse(0, m);
        assert BROKEN.expr in Hards(cs);
      }
    }
  }

  lemma WishCanHold()
    ensures Sat(TWO_FLAGS, {WISH.expr})
  {
    var all: Model := (id: nat) => BoolVal(true);
    assert Satisfies(all, TWO_FLAGS, {WISH.expr});
  }

  /** A list of one soft constraint that can hold keeps it. */
  lemma SingleSurvives(scope: M.Scope, c: Constraint)
    requires c.soft && !c.cover && Sat(scope, {c.expr})
    ensures Survivors(scope, [c]) == [c]
  {
    var nothing: seq<Constraint> := [];
    assert nothing + [c] == [c] && Hards([c]) == {};
    SoftsOfPush(nothing, c);
    SurvivePush(scope, {}, nothing, c);
    assert {} + ExprSet(nothing) + {c.expr} == {c.expr};
  }

  /** A contradictory partition beside one with a wish: the single pass gives the wish up, its partition keeps it. */
  lemma PartitioningMayKeepMore()
    ensures Splits(TwoPartitions(), [BROKEN, WISH])
    ensures Survivors(TWO_FLAGS, TwoPartitions()[1].constraints) == [WISH]
    ensures Survivors(TWO_FLAGS, InsertAll([BROKEN, WISH])) == []
  {
    var cs := [BROKEN, WISH];
    TwoPartitionsSplit();
    BrokenContradicts(cs);
    SortedHards(cs);
    WishCanHold();
    hide Splits, Sat, Survivors, InsertAll, Hards;
    ContradictionKeepsNothing(TWO_FLAGS, InsertAll(cs));
    SingleSurvives(TWO_FLAGS, WISH);
  }

  /**
   The models of the partitions, put together, satisfy what one pass over all constraints
   together demands: every hard constraint and every survivor.
   */
  lemma GluedMeetsDemands(scope: M.Scope, ps: seq<Partition>, cs: seq<Constraint>, models: seq<Model>, base: Model)
    requires Splits(ps, cs) && WellMade(cs) && DistinctIds(cs) && Sat(scope, Hards(cs))
    requires |models| == |ps| && M.ModelFits(base, scope)
    requires forall i | 0 <= i < |ps| :: Satisfies(models[i], scope, Demands(scope, ps[i].constraints))
    ensures Satisfies(Glued(ps, models, base), scope, Demands(scope, InsertAll(cs)))
  {
    var fss := seq(|ps|, i requires 0 <= i < |ps| => Demands(scope, ps[i].constraints));
    forall i | 0 <= i < |ps|
      ensures Over(fss[i], ps[i].support)
    {
      DemandsOver(scope, ps, cs, i);
    }
    GluedSatisfies(ps, models, base, scope, fss);
    forall n | n in Demands(scope, InsertAll(cs))
      ensures n in Union(fss)
    {
      InUnion(fss, n);
      DemandSomewhere(scope, ps, cs, n);
      var i :| 0 <= i < |ps| && n in Demands(scope, ps[i].constraints);
      assert n in fss[i];
    }
  }

  lemma DemandsOver(scope: M.Scope, ps: seq<Partition>, cs: seq<Constraint>, i: nat)
    requires Splits(ps, cs) && WellMade(cs) && i < |ps|
    ensures Over(Demands(scope, ps[i].constraints), ps[i].support)
  {
    SplitsWellMade(ps, cs, i);
    var own := ps[i].constraints;
    forall c | c in Survivors(scope, own)
      ensures c in own
    {
      PickMember(SoftsOf(own), Mask(scope, own), true, c);
      SoftsOfMember(own, c);
    }
  }

  lemma DemandSomewhere(scope: M.Scope, ps: seq<Partition>, cs: seq<Constraint>, n: Node)
    requires Splits(ps, cs) && WellMade(cs) && DistinctIds(cs) && Sat(scope, Hards(cs))
    requires n in Demands(scope, InsertAll(cs))
    ensures exists i :: 0 <= i < |ps| && n in Demands(scope, ps[i].constraints)
  {
    var all := InsertAll(cs);
    SortedHards(cs);
    if n in Hards(all) {
      var c :| c in all && c.IsHard() && c.expr == n;
      MemberSomewhere(ps, cs, c);
      var i :| 0 <= i < |ps| && c in ps[i].constraints;
      assert n in Demands(scope, ps[i].constraints);
    } else {
      var c :| c in Survivors(scope, all) && c.expr == n;
      PickMember(SoftsOf(all), Mask(scope, all), true, c);
      SoftsOfMember(all, c);
      MemberSomewhere(ps, cs, c);
      var i :| 0 <= i < |ps| && c in ps[i].constraints;
      PartitioningKeepsSurvivors(scope, ps, cs, i);
      WithinMember(Survivors(scope, all), Members(ps[i].constraints), c);
      assert n in Demands(scope, ps[i].constraints);
    }
  }
}
