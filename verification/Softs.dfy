/**
 Soft constraints: newest first, each is kept when it can hold together with the hard
 constraints and all the soft ones kept before it.
 */
module Softs {
  import opened Ast
  import opened Partitions
  import opened Satisfiability
  import M = MetaSMT

  // ----- The greedy pass -----

  /** The formulas that the mask keeps. */
  function Kept(softs: seq<Node>, mask: seq<bool>): Formulas
    requires |softs| == |mask|
  {
    set i | 0 <= i < |softs| && mask[i] :: softs[i]
  }

  ghost function Greedy(scope: M.Scope, base: Formulas, softs: seq<Node>): (mask: seq<bool>)
    ensures |mask| == |softs|
  {
    if softs == [] then []
    else
      var init, last := softs[..|softs| - 1], softs[|softs| - 1];
      var mask := Greedy(scope, base, init);
      mask + [Sat(scope, base + Kept(init, mask) + {last})]
  }

  lemma KeptPush(softs: seq<Node>, mask: seq<bool>, n: Node, b: bool)
    requires |softs| == |mask|
    ensures Kept(softs + [n], mask + [b]) == if b then Kept(softs, mask) + {n} else Kept(softs, mask)
  {
    var all, mask' := softs + [n], mask + [b];
    forall x
      ensures x in Kept(all, mask') <==> x in Kept(softs, mask) || (b && x == n)
    {
      if x in Kept(softs, mask) {
        var i :| 0 <= i < |softs| && mask[i] && softs[i] == x;
        assert mask'[i] && all[i] == x;
      }
      if b && x == n {
        assert mask'[|softs|] && all[|softs|] == x;
      }
      if x in Kept(all, mask') {
        var i :| 0 <= i < |all| && mask'[i] && all[i] == x;
        assert i == |softs| || (mask[i] && softs[i] == x);
      }
    }
  }

  lemma GreedyPush(scope: M.Scope, base: Formulas, softs: seq<Node>, n: Node)
    ensures var mask := Greedy(scope, base, softs);
      Greedy(scope, base, softs + [n]) == mask + [Sat(scope, base + Kept(softs, mask) + {n})]
  {
  }

  /** What is kept can hold, as long as the base can. */
  lemma {:induction false} GreedyIsSat(scope: M.Scope, base: Formulas, softs: seq<Node>)
    requires Sat(scope, base)
    ensures Sat(scope, base + Kept(softs, Greedy(scope, base, softs)))
  {
    if softs == [] {
      assert base + Kept([], []) == base;
    } else {
      var init, last := softs[..|softs| - 1], softs[|softs| - 1];
      var mask := Greedy(scope, base, init);
      GreedyIsSat(scope, base, init);
      assert softs == init + [last];
      GreedyPush(scope, base, init, last);
      KeptPush(init, mask, last, Sat(scope, base + Kept(init, mask) + {last}));
      assert base + Kept(init, mask) + {last} == base + (Kept(init, mask) + {last});
    }
  }

  /** With an unsatisfiable base nothing is kept. */
  lemma {:induction false} GreedyOfUnsat(scope: M.Scope, base: Formulas, softs: seq<Node>)
    requires !Sat(scope, base)
    ensures forall i | 0 <= i < |softs| :: !Greedy(scope, base, softs)[i]
  {
    if softs != [] {
      var init, last := softs[..|softs| - 1], softs[|softs| - 1];
      GreedyOfUnsat(scope, base, init);
      SatFewer(scope, base + Kept(init, Greedy(scope, base, init)) + {last}, base);
    }
  }

  /** a comes before b when it has a newer formula at the first place where they differ. */
  ghost predicate Better(a: seq<bool>, b: seq<bool>) {
    |a| == |b| && exists k :: 0 <= k < |a| && a[..k] == b[..k] && a[k] && !b[k]
  }

  lemma KeptPrefix(softs: seq<Node>, mask: seq<bool>, k: nat)
    requires |softs| == |mask| && k <= |softs|
    ensures Kept(softs[..k], mask[..k]) <= Kept(softs, mask)
  {
  }

  lemma BetterPush(a: seq<bool>, b: seq<bool>, x: bool, y: bool)
    requires Better(a, b)
    ensures Better(a + [x], b + [y])
  {
    var k :| 0 <= k < |a| && a[..k] == b[..k] && a[k] && !b[k];
    var a', b' := a + [x], b + [y];
    assert a'[..k] == a[..k] && b'[..k] == b[..k] && a'[k] && !b'[k];
  }

  /** One more formula: taken when possible, so the choice stays the best. */
  lemma BestPush(scope: M.Scope, base: Formulas, init: seq<Node>, last: Node, best: seq<bool>, rest: seq<bool>, b: bool)
    requires |rest| == |best| == |init| && (rest == best || Better(best, rest))
    requires Sat(scope, base + Kept(init + [last], rest + [b]))
    ensures var taken := Sat(scope, base + Kept(init, best) + {last});
      rest + [b] == best + [taken] || Better(best + [taken], rest + [b])
  {
    var taken := Sat(scope, base + Kept(init, best) + {last});
    if rest != best {
      BetterPush(best, rest, taken, b);
    } else {
      KeptPush(init, rest, last, b);
      assert b ==> base + Kept(init + [last], rest + [b]) == base + Kept(init, best) + {last};
      var k := |best|;
      assert (best + [taken])[..k] == (rest + [b])[..k];
    }
  }

  /**
   The pass is optimal for the order newest first: every other choice that can hold is
   worse at the first place where it differs.
   */
  lemma {:induction false} GreedyIsBest(scope: M.Scope, base: Formulas, softs: seq<Node>, mask: seq<bool>)
    requires |mask| == |softs| && Sat(scope, base + Kept(softs, mask))
    ensures mask == Greedy(scope, base, softs) || Better(Greedy(scope, base, softs), mask)
  {
    if softs != [] {
      var k := |softs| - 1;
      var init, last, rest := softs[..k], softs[k], mask[..k];
      KeptPrefix(softs, mask, k);
      SatFewer(scope, base + Kept(softs, mask), base + Kept(init, rest));
      GreedyIsBest(scope, base, init, rest);
      GreedyPush(scope, base, init, last);
      assert softs == init + [last] && mask == rest + [mask[k]];
      BestPush(scope, base, init, last, Greedy(scope, base, init), rest, mask[k]);
    }
  }

  // ----- The survivors among constraints -----

  function PushIf(cs: seq<Constraint>, c: Constraint, b: bool): seq<Constraint> { if b then cs + [c] else cs }

  function SoftsOf(cs: seq<Constraint>): seq<Constraint> {
    if cs == [] then []
    else var c := cs[|cs| - 1]; PushIf(SoftsOf(cs[..|cs| - 1]), c, c.soft && !c.cover)
  }

  function Exprs(cs: seq<Constraint>): (r: seq<Node>)
    ensures |r| == |cs| && forall i | 0 <= i < |cs| :: r[i] == cs[i].expr
  {
    seq(|cs|, i requires 0 <= i < |cs| => cs[i].expr)
  }

  /** The elements where the mask is b, in their order. */
  function Pick(cs: seq<Constraint>, mask: seq<bool>, b: bool): seq<Constraint>
    requires |cs| == |mask|
  {
    if cs == [] then []
    else PushIf(Pick(cs[..|cs| - 1], mask[..|cs| - 1], b), cs[|cs| - 1], mask[|cs| - 1] == b)
  }

  ghost function Mask(scope: M.Scope, cs: seq<Constraint>): (mask: seq<bool>)
    ensures |mask| == |SoftsOf(cs)|
  {
    Greedy(scope, Hards(cs), Exprs(SoftsOf(cs)))
  }

  /** The soft constraints that the pass keeps, and those that it gives up. */
  ghost function Survivors(scope: M.Scope, cs: seq<Constraint>): seq<Constraint> {
    Pick(SoftsOf(cs), Mask(scope, cs), true)
  }

  ghost function Rejected(scope: M.Scope, cs: seq<Constraint>): seq<Constraint> {
    Pick(SoftsOf(cs), Mask(scope, cs), false)
  }

  /** The hard constraints and the surviving soft ones. */
  ghost function Demands(scope: M.Scope, cs: seq<Constraint>): Formulas {
    Hards(cs) + set c | c in Survivors(scope, cs) :: c.expr
  }

  lemma {:induction false} PickedAreKept(cs: seq<Constraint>, mask: seq<bool>)
    requires |cs| == |mask|
    ensures (set c | c in Pick(cs, mask, true) :: c.expr) == Kept(Exprs(cs), mask)
  {
    if cs != [] {
      var k := |cs| - 1;
      var init, last := Pick(cs[..k], mask[..k], true), cs[k];
      PickedAreKept(cs[..k], mask[..k]);
      KeptPush(Exprs(cs[..k]), mask[..k], last.expr, mask[k]);
      assert Exprs(cs) == Exprs(cs[..k]) + [last.expr] && mask == mask[..k] + [mask[k]];
      assert (set c | c in init + [last] :: c.expr) == (set c | c in init :: c.expr) + {last.expr};
    }
  }

  /** In a partition with satisfiable hard constraints the survivors can be demanded too. */
  lemma DemandsAreSat(scope: M.Scope, cs: seq<Constraint>)
    ensures Sat(scope, Demands(scope, cs)) <==> Sat(scope, Hards(cs))
  {
    PickedAreKept(SoftsOf(cs), Mask(scope, cs));
    assert Demands(scope, cs) == Hards(cs) + Kept(Exprs(SoftsOf(cs)), Mask(scope, cs));
    if Sat(scope, Hards(cs)) {
      GreedyIsSat(scope, Hards(cs), Exprs(SoftsOf(cs)));
    }
    SatFewer(scope, Demands(scope, cs), Hards(cs));
  }
}
