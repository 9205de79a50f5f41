/**
 The solver behind the visitor: lasting assertions, assumptions for one call, soft
 constraints and suggestions. It works on formulas; Satisfiability.GatesDecideSat ties
 them to gates.
 */
module Solving {
  import opened Ast
  import opened Satisfiability
  import opened Softs
  import M = MetaSMT

  /** The answer of back end number inst in its k-th call on these formulas. */
  type BackEnd = (nat, nat, Formulas) -> Option<Model>

  ghost predicate Answers(scope: M.Scope, fs: Formulas, answer: Option<Model>) {
    if answer.Some? then Satisfies(answer.value, scope, fs) else !Sat(scope, fs)
  }

  /** A back end finds a model whenever there is one; which one it finds may change from call to call. */
  ghost predicate Exact(decide: BackEnd, scope: M.Scope) {
    forall inst: nat, k: nat, fs: Formulas :: Answers(scope, fs, decide(inst, k, fs))
  }

  ghost function SomeModel(scope: M.Scope, fs: Formulas): Option<Model> {
    if Sat(scope, fs) then
      var m :| Satisfies(m, scope, fs);
      Some(m)
    else None
  }

  lemma ExactBackEndExists(scope: M.Scope)
    ensures exists decide :: Exact(decide, scope)
  {
    ghost var decide: BackEnd := (inst, k, fs) => SomeModel(scope, fs);
    assert Exact(decide, scope);
  }

  /** Whatever exact back end is used, the model that it finds for fs makes gs true. */
  ghost predicate AlwaysMet(scope: M.Scope, fs: Formulas, gs: Formulas) {
    forall decide: BackEnd, inst: nat, k: nat ::
      Exact(decide, scope) && decide(inst, k, fs).Some? ==> Holds(gs, decide(inst, k, fs).value)
  }

  /** Formulas that the back end is not told are met in every case exactly when the others entail them. */
  lemma IgnoredAreMetIfEntailed(scope: M.Scope, fs: Formulas, gs: Formulas)
    ensures AlwaysMet(scope, fs, gs) <==> Entails(scope, fs, gs)
  {
    if Entails(scope, fs, gs) {
      forall decide: BackEnd, inst: nat, k: nat | Exact(decide, scope) && decide(inst, k, fs).Some?
        ensures Holds(gs, decide(inst, k, fs).value)
      {
        assert Answers(scope, fs, decide(inst, k, fs));
      }
    } else {
      var m: Model :| Satisfies(m, scope, fs) && !Holds(gs, m);
      var decide: BackEnd := (inst, k, hs) => if hs == fs then Some(m) else SomeModel(scope, hs);
      forall inst: nat, k: nat, hs: Formulas
        ensures Answers(scope, hs, decide(inst, k, hs))
      {
      }
      assert Exact(decide, scope) && decide(0, 0, fs) == Some(m);
    }
  }

  function ToSet(s: seq<Node>): Formulas { set n | n in s }

  lemma ToSetPush(s: seq<Node>, n: Node)
    ensures ToSet(s + [n]) == ToSet(s) + {n}
  {
  }

  lemma ToSetOfMultiset(s: seq<Node>, t: seq<Node>)
    requires multiset(s) <= multiset(t)
    ensures ToSet(s) <= ToSet(t)
  {
    forall n | n in s
      ensures n in t
    {
      assert n in multiset(s);
      assert n in multiset(t);
    }
  }

  /** Some order of the same elements: every position is swapped with one not after it. */
  method Shuffle<T>(s: seq<T>) returns (r: seq<T>)
    ensures multiset(r) == multiset(s)
  {
    r := s;
    var i := 1;
    while i < |s|
      invariant i >= 1 && |r| == |s| && multiset(r) == multiset(s)
    {
      var j: nat :| j <= i;
      r := r[i := r[j]][j := r[i]];
      i := i + 1;
    }
  }

  /** The places of the soft constraints that were given up, in order. */
  function RejectedAt(mask: seq<bool>): seq<nat> {
    if mask == [] then []
    else RejectedAt(mask[..|mask| - 1]) + if mask[|mask| - 1] then [] else [|mask| - 1]
  }

  class Solver {
    const scope: M.Scope
    const decide: BackEnd
    const inst: nat

    var asserted: Formulas
    var assumed: Formulas
    var terminals: set<nat>
    var softs: seq<Node>
    var assumptions: seq<Node>
    var suggestions: seq<Node>
    var calls: nat
    var model: Option<Model>

    constructor (scope: M.Scope, decide: BackEnd, inst: nat)
      ensures this.scope == scope && this.decide == decide && this.inst == inst
      ensures asserted == {} && assumed == {} && terminals == {}
      ensures softs == [] && assumptions == [] && suggestions == []
    {
      this.scope, this.decide, this.inst := scope, decide, inst;
      asserted, assumed, terminals := {}, {}, {};
      softs, assumptions, suggestions := [], [], [];
      calls, model := 0, None;
    }

    ghost predicate Valid()
      reads this
    {
      Exact(decide, scope) && assumed == {}
    }

    method MakeAssertion(n: Node)
      modifies this`asserted, this`terminals
      ensures asserted == old(asserted) + {n} && terminals == old(terminals) + Support(n)
    {
      asserted := asserted + {n};
      terminals := terminals + Support(n);
    }

    method MakeSoftAssertion(n: Node)
      modifies this`softs, this`terminals
      ensures softs == old(softs) + [n] && terminals == old(terminals) + Support(n)
    {
      softs := softs + [n];
      terminals := terminals + Support(n);
    }

    method MakeSuggestion(n: Node)
      modifies this`suggestions, this`terminals
      ensures suggestions == old(suggestions) + [n] && terminals == old(terminals) + Support(n)
    {
      suggestions := suggestions + [n];
      terminals := terminals + Support(n);
    }

    method MakeAssumption(n: Node)
      modifies this`assumptions, this`terminals
      ensures assumptions == old(assumptions) + [n] && terminals == old(terminals) + Support(n)
    {
      assumptions := assumptions + [n];
      terminals := terminals + Support(n);
    }

    /** A call of the back end; it forgets the assumptions. */
    method Decide() returns (ok: bool)
      requires Exact(decide, scope)
      modifies this`assumed, this`calls, this`model
      ensures Valid() && calls == old(calls) + 1
      ensures ok == Sat(scope, asserted + old(assumed)) == model.Some?
      ensures ok ==> Satisfies(model.value, scope, asserted + old(assumed))
    {
      var answer := decide(inst, calls, asserted + assumed);
      assert Answers(scope, asserted + assumed, answer);
      model := answer;
      calls := calls + 1;
      assumed := {};
      ok := answer.Some?;
    }

    /** Settle the soft constraints in their order; the kept ones become assertions. */
    method AnalyseSofts() returns (rejected: seq<nat>)
      requires Valid()
      modifies this`asserted, this`assumed, this`softs, this`calls, this`model
      ensures Valid() && softs == [] && calls == old(calls) + |old(softs)|
      ensures var mask := Greedy(scope, old(asserted), old(softs));
        asserted == old(asserted) + Kept(old(softs), mask) && rejected == RejectedAt(mask)
    {
      rejected := [];
      for i := 0 to |softs|
        invariant softs == old(softs) && Valid() && calls == old(calls) + i
        invariant Settled(scope, old(asserted), softs[..i], asserted, rejected)
      {
        assumed := assumed + {softs[i]};
        var sat := Decide();
        SettleNext(scope, old(asserted), softs[..i], softs[i], asserted, rejected);
        assert {} + {softs[i]} == {softs[i]} && softs[..i + 1] == softs[..i] + [softs[i]];
        if sat {
          asserted := asserted + {softs[i]};
        } else {
          rejected := rejected + [i];
        }
      }
      assert softs[..|softs|] == softs;
      softs := [];
    }

    /** What a model must meet whatever happens to the suggestions. */
    ghost function Must(ignoreSofts: bool, assumptions: seq<Node>): Formulas
      reads this`asserted, this`softs
    {
      asserted + ToSet(assumptions) + if ignoreSofts then {} else ToSet(softs)
    }

    method ShuffleAll(ghost ignoreSofts: bool)
      modifies this`assumptions, this`suggestions
      ensures Must(ignoreSofts, assumptions) == Must(ignoreSofts, old(assumptions))
      ensures multiset(suggestions) == multiset(old(suggestions)) && |suggestions| == |old(suggestions)|
    {
      assumptions := Shuffle(assumptions);
      suggestions := Shuffle(suggestions);
      SameMembers(assumptions, old(assumptions));
      SameSize(suggestions, old(suggestions));
    }

    /** A suggestion drawn at random is swapped to the end and dropped. */
    method DropSuggestion()
      requires suggestions != []
      modifies this`suggestions
      ensures |suggestions| == |old(suggestions)| - 1 && multiset(suggestions) <= multiset(old(suggestions))
    {
      var select: nat :| select < |suggestions|;
      var last := |suggestions| - 1;
      DropOne(suggestions, select);
      suggestions := suggestions[select := suggestions[last]][last := suggestions[select]];
      suggestions := suggestions[..last];
    }

    /** One call of the back end with the suggestions that are left. */
    method Attempt(ignoreSofts: bool) returns (ok: bool)
      requires Valid()
      modifies this`assumed, this`calls, this`model
      ensures Valid() && calls == old(calls) + 1
      ensures ok == Sat(scope, Must(ignoreSofts, assumptions) + ToSet(suggestions)) == model.Some?
      ensures ok ==> Satisfies(model.value, scope, Must(ignoreSofts, assumptions) + ToSet(suggestions))
    {
      assumed := assumed + ToSet(assumptions);
      assumed := assumed + ToSet(suggestions);
      if !ignoreSofts {
        assumed := assumed + ToSet(softs);
      }
      assert asserted + assumed == Must(ignoreSofts, assumptions) + ToSet(suggestions);
      ok := Decide();
    }

    /**
     Look for a model of the assertions, the assumptions and (unless they are ignored) the
     soft constraints. The suggestions are dropped one by one, at random, until there is one.
     kept are the suggestions that the model found meets.
     */
    method Solve(ignoreSofts: bool) returns (ok: bool, ghost kept: seq<Node>)
      requires Valid()
      modifies this`assumed, this`assumptions, this`suggestions, this`calls, this`model
      ensures Valid() && assumptions == [] && suggestions == []
      ensures ok == Sat(scope, Must(ignoreSofts, old(assumptions))) == model.Some?
      ensures ok ==> Satisfies(model.value, scope, Must(ignoreSofts, old(assumptions)) + ToSet(kept))
      ensures multiset(kept) <= multiset(old(suggestions))
      ensures Sat(scope, Must(ignoreSofts, old(assumptions)) + ToSet(old(suggestions))) ==>
        ok && multiset(kept) == multiset(old(suggestions)) && calls == old(calls) + 1
      ensures ok ==> calls == old(calls) + 1 + |old(suggestions)| - |kept|
      ensures old(calls) < calls <= old(calls) + |old(suggestions)| + 1
    {
      ghost var must := Must(ignoreSofts, assumptions);
      ghost var all := suggestions;
      ShuffleAll(ignoreSofts);
      assert Tried(scope, must, all, suggestions);
      hide Sat, Satisfies, ToSet, Exact, Drop, Must;
      ok := false;
      while true
        invariant Valid() && !ok && Must(ignoreSofts, assumptions) == must
        invariant Tried(scope, must, all, suggestions)
        invariant calls == old(calls) + |all| - |suggestions|
        decreases |suggestions|
      {
        kept := suggestions;
        ok := Attempt(ignoreSofts);
        TriedNow(scope, must, all, kept, ok);
        if ok {
          break;
        }
        if suggestions == [] {
          break;
        }
        DropSuggestion();
        TriedDrop(scope, must, all, kept, suggestions);
      }
      assumptions := [];
      suggestions := [];
    }

    /** The value of a variable in the last model; none for a variable that no formula mentioned. */
    method Read(id: nat) returns (v: Option<Val>)
      requires model.Some?
      ensures v == if id in terminals then Some(model.value(id)) else None
    {
      v := if id in terminals then Some(model.value(id)) else None;
    }
  }

  ghost predicate Settled(scope: M.Scope, base: Formulas, softs: seq<Node>, asserted: Formulas, rejected: seq<nat>) {
    var mask := Greedy(scope, base, softs);
    asserted == base + Kept(softs, mask) && rejected == RejectedAt(mask)
  }

  lemma SettleNext(scope: M.Scope, base: Formulas, softs: seq<Node>, n: Node, asserted: Formulas, rejected: seq<nat>)
    requires Settled(scope, base, softs, asserted, rejected)
    ensures if Sat(scope, asserted + {n}) then Settled(scope, base, softs + [n], asserted + {n}, rejected)
      else Settled(scope, base, softs + [n], asserted, rejected + [|softs|])
  {
    var mask := Greedy(scope, base, softs);
    var b := Sat(scope, asserted + {n});
    GreedyPush(scope, base, softs, n);
    KeptPush(softs, mask, n, b);
    assert (mask + [b])[..|mask|] == mask;
  }

  lemma SameSize(s: seq<Node>, t: seq<Node>)
    requires multiset(s) == multiset(t)
    ensures |s| == |t|
  {
    assert |multiset(s)| == |s| && |multiset(t)| == |t|;
  }

  lemma SameMembers(s: seq<Node>, t: seq<Node>)
    requires multiset(s) == multiset(t)
    ensures ToSet(s) == ToSet(t)
  {
    ToSetOfMultiset(s, t);
    ToSetOfMultiset(t, s);
  }

  function Drop(s: seq<Node>, select: nat): seq<Node>
    requires select < |s|
  {
    s[select := s[|s| - 1]][|s| - 1 := s[select]][..|s| - 1]
  }

  lemma DropOne(s: seq<Node>, select: nat)
    requires select < |s|
    ensures multiset(Drop(s, select)) <= multiset(s)
  {
    var swapped := s[select := s[|s| - 1]][|s| - 1 := s[select]];
    assert multiset(swapped) == multiset(s);
    assert swapped == Drop(s, select) + [s[select]];
  }

  /** now is left of all suggestions; if some were dropped then all together were too many. */
  ghost predicate Tried(scope: M.Scope, must: Formulas, all: seq<Node>, now: seq<Node>) {
    && multiset(now) <= multiset(all) && |now| <= |all|
    && (|now| < |all| ==> !Sat(scope, must + ToSet(all)))
    && (|now| == |all| ==> multiset(now) == multiset(all))
  }

  lemma TriedNow(scope: M.Scope, must: Formulas, all: seq<Node>, now: seq<Node>, ok: bool)
    requires Tried(scope, must, all, now) && ok == Sat(scope, must + ToSet(now))
    ensures ok || now == [] ==> ok == Sat(scope, must)
    ensures !ok ==> !Sat(scope, must + ToSet(all))
    ensures Sat(scope, must + ToSet(all)) ==> ok && |now| == |all|
  {
    SatFewer(scope, must + ToSet(now), must);
    if now == [] {
      assert must + ToSet(now) == must;
    }
    ToSetOfMultiset(now, all);
    SatFewer(scope, must + ToSet(all), must + ToSet(now));
  }

  lemma TriedDrop(scope: M.Scope, must: Formulas, all: seq<Node>, now: seq<Node>, fewer: seq<Node>)
    requires Tried(scope, must, all, now) && !Sat(scope, must + ToSet(all))
    requires multiset(fewer) <= multiset(now) && |fewer| < |now|
    ensures Tried(scope, must, all, fewer)
  {
  }
}
