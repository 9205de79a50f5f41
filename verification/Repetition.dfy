/**
 What the repetition statements mean in plain words, and where a [=] repetition
 followed by a repeated statement departs from its usual reading.
 */
module Repetition {
  import opened Regex
  import opened Coverage

  /** A consecutive repetition [*N:M] is N to M samples in a row in which the expression is true. */
  lemma ConsecutiveWords(chain: Chain, k: nat, w: Trace)
    requires k < |chain| && chain[k].kind == Consec && !AfterNonConsec(chain, k)
    ensures Statement(chain, k, w) <==> chain[k].minHit <= |w| <= Most(chain[k]) && All(Is(chain[k].expr), w)
  {
    forall n: nat
      ensures Times(Unit(chain, k), n, w) <==> |w| == n && All(Is(chain[k].expr), w)
    {
      TimesAtom(Is(chain[k].expr), n, w);
    }
    var n := |w|;
    assert Times(Unit(chain, k), n, w) <==> All(Is(chain[k].expr), w);
  }

  function Count(e: nat, w: Trace): nat {
    if w == [] then 0 else Count(e, w[..|w| - 1]) + if e in w[|w| - 1] then 1 else 0
  }

  lemma {:induction false} CountZero(e: nat, w: Trace)
    ensures Count(e, w) == 0 <==> All(IsNot(e), w)
  {
    if w != [] {
      var v := w[..|w| - 1];
      CountZero(e, v);
      if All(IsNot(e), w) {
        assert forall i | 0 <= i < |v| :: Passes(IsNot(e), v[i]) by {
          assert forall i | 0 <= i < |v| :: v[i] == w[i];
        }
        assert Passes(IsNot(e), w[|w| - 1]);
      }
    }
  }

  /** Every sample is a hit or may stand between hits. */
  ghost predicate GapsPass(chain: Chain, k: nat, w: Trace)
    requires k < |chain|
  {
    forall i | 0 <= i < |w| :: chain[k].expr in w[i] || Passes(Gap(chain, k), w[i])
  }

  lemma GapsPush(chain: Chain, k: nat, v: Trace, x: Sample)
    requires k < |chain|
    ensures GapsPass(chain, k, v + [x]) <==> GapsPass(chain, k, v) && (chain[k].expr in x || Passes(Gap(chain, k), x))
  {
    var w := v + [x];
    assert w[|v|] == x && forall i | 0 <= i < |v| :: w[i] == v[i];
  }

  /** A gap never holds a hit. */
  lemma {:induction false} HitsTimes(chain: Chain, k: nat, c: nat, w: Trace)
    requires k < |chain| && (chain[k].kind != Consec || AfterNonConsec(chain, k))
    ensures Times(Unit(chain, k), c, w) <==>
      (Count(chain[k].expr, w) == c && GapsPass(chain, k, w) && if w == [] then c == 0 else chain[k].expr in w[|w| - 1])
    ensures Waiting(chain, k, c, w) <==> Count(chain[k].expr, w) == c && GapsPass(chain, k, w)
    decreases |w|
  {
    var e := chain[k].expr;
    if w == [] {
      TimesEmpty(chain, k, c);
      if Waiting(chain, k, c, w) {
        var j :| 0 <= j <= |w| && Times(Unit(chain, k), c, w[..j]) && All(Gap(chain, k), w[j..]);
        assert w[..j] == w;
      }
      if c == 0 {
        assert Times(Unit(chain, k), 0, w[..0]) && All(Gap(chain, k), w[0..]);
      }
    } else {
      var v, x := w[..|w| - 1], w[|w| - 1];
      assert w == v + [x];
      TimesPush(chain, k, c, v, x);
      WaitingPush(chain, k, c, v, x);
      GapsPush(chain, k, v, x);
      HitsTimes(chain, k, c, v);
      if c > 0 {
        HitsTimes(chain, k, c - 1, v);
      }
    }
  }

  /** A statement whose hits may be apart: the last sample is a hit, and the number of hits is in range. */
  lemma SpacedWords(chain: Chain, k: nat, w: Trace)
    requires k < |chain| && (chain[k].kind != Consec || AfterNonConsec(chain, k)) && chain[k].minHit > 0
    ensures Statement(chain, k, w) <==> (
      && w != [] && chain[k].expr in w[|w| - 1] && GapsPass(chain, k, w)
      && chain[k].minHit <= Count(chain[k].expr, w) <= Most(chain[k]))
  {
    forall n: nat
      ensures Times(Unit(chain, k), n, w) <==>
        (Count(chain[k].expr, w) == n && GapsPass(chain, k, w)
          && if w == [] then n == 0 else chain[k].expr in w[|w| - 1])
    {
      HitsTimes(chain, k, n, w);
    }
    var n := Count(chain[k].expr, w);
    assert Times(Unit(chain, k), n, w) <==>
      (GapsPass(chain, k, w) && if w == [] then n == 0 else chain[k].expr in w[|w| - 1]);
  }

  /** A goto repetition [->N:M] ends with a hit and holds N to M hits, with any samples between them. */
  lemma GotoWords(chain: Chain, k: nat, w: Trace)
    requires k < |chain| && chain[k].kind == Goto && chain[k].minHit > 0
    ensures Statement(chain, k, w) <==>
      w != [] && chain[k].expr in w[|w| - 1] && chain[k].minHit <= Count(chain[k].expr, w) <= Most(chain[k])
  {
    SpacedWords(chain, k, w);
  }

  /**
   A nonconsecutive repetition [=N:M] too ends with a hit and holds N to M hits with any
   samples between them; what it allows behind the last hit is up to the statement that follows.
   */
  lemma NonConsecWords(chain: Chain, k: nat, w: Trace)
    requires k < |chain| && chain[k].kind == NonConsec && chain[k].minHit > 0
    ensures Statement(chain, k, w) <==>
      w != [] && chain[k].expr in w[|w| - 1] && chain[k].minHit <= Count(chain[k].expr, w) <= Most(chain[k])
  {
    SpacedWords(chain, k, w);
  }

  /**
   A consecutive repetition behind e[=..]: the last sample is a hit, the number of hits is in
   range, and e is not seen again, except in a hit.
   */
  lemma AfterNonConsecWords(chain: Chain, k: nat, w: Trace)
    requires k < |chain| && chain[k].kind == Consec && AfterNonConsec(chain, k) && chain[k].minHit > 0
    ensures var e, f := chain[k - 1].expr, chain[k].expr;
      Statement(chain, k, w) <==> (
        && w != [] && f in w[|w| - 1] && chain[k].minHit <= Count(f, w) <= Most(chain[k])
        && forall i | 0 <= i < |w| && f !in w[i] :: e !in w[i])
  {
    SpacedWords(chain, k, w);
  }

  // ----- e[=N:M] followed by a single f -----

  /** w[..i] ends with the last hit of e, then come samples with neither e nor f, then one f. */
  ghost predicate SeenThenSingle(e: nat, lo: nat, hi: nat, f: nat, w: Trace, i: nat) {
    && 0 < i < |w| && e in w[i - 1] && lo <= Count(e, w[..i]) <= hi
    && (forall j | i <= j < |w| - 1 :: e !in w[j] && f !in w[j])
    && f in w[|w| - 1]
  }

  lemma {:induction false} CountOne(f: nat, w: Trace)
    requires w != [] && f in w[|w| - 1]
    ensures Count(f, w) == 1 <==> forall j | 0 <= j < |w| - 1 :: f !in w[j]
  {
    var v := w[..|w| - 1];
    CountZero(f, v);
    if All(IsNot(f), v) {
      forall j | 0 <= j < |w| - 1
        ensures f !in w[j]
      {
        assert Passes(IsNot(f), v[j]) && v[j] == w[j];
      }
    }
    if forall j | 0 <= j < |w| - 1 :: f !in w[j] {
      assert forall j | 0 <= j < |v| :: Passes(IsNot(f), v[j]);
    }
  }

  lemma SingleAt(chain: Chain, w: Trace, i: nat)
    requires |chain| >= 2 && chain[0].kind == NonConsec && chain[1].kind == Consec && i <= |w|
    requires chain[0].minHit > 0 && chain[1].minHit == 1 && chain[1].maxHit <= 1
    ensures var e, f := chain[0].expr, chain[1].expr;
      (Statement(chain, 0, w[..i]) && Statement(chain, 1, w[i..])) <==>
        SeenThenSingle(e, chain[0].minHit, Most(chain[0]), f, w, i)
  {
    var e, f := chain[0].expr, chain[1].expr;
    var u, v := w[..i], w[i..];
    NonConsecWords(chain, 0, u);
    AfterNonConsecWords(chain, 1, v);
    assert forall j | i <= j < |w| :: w[j] == v[j - i];
    assert forall j | 0 <= j < |v| :: v[j] == w[i + j];
    if v != [] && f in v[|v| - 1] {
      CountOne(f, v);
    }
  }

  /**
   The chain e[=N:M] => f: N to M hits of e with anything between them, then any number of
   samples with neither e nor f, then one sample with f.
   */
  lemma NonConsecThenSingle(chain: Chain, w: Trace)
    requires |chain| >= 2 && chain[0].kind == NonConsec && chain[1].kind == Consec
    requires chain[0].minHit > 0 && chain[1].minHit == 1 && chain[1].maxHit <= 1
    ensures Matches(chain, 2, w) <==>
      exists i: nat :: SeenThenSingle(chain[0].expr, chain[0].minHit, Most(chain[0]), chain[1].expr, w, i)
  {
    forall i | 0 <= i <= |w|
      ensures Matches(chain, 1, w[..i]) <==> Statement(chain, 0, w[..i])
    {
      FirstStatement(chain, w[..i]);
      SingleAt(chain, w, i);
    }
    if Matches(chain, 2, w) {
      var i :| 0 <= i <= |w| && Matches(chain, 1, w[..i]) && Statement(chain, 1, w[i..]);
      SingleAt(chain, w, i);
    }
    if i: nat :| SeenThenSingle(chain[0].expr, chain[0].minHit, Most(chain[0]), chain[1].expr, w, i) {
      SingleAt(chain, w, i);
      assert Matches(chain, 1, w[..i]) && Statement(chain, 1, w[i..]);
    }
  }

  lemma FirstStatement(chain: Chain, w: Trace)
    requires chain != []
    ensures Matches(chain, 1, w) <==> Statement(chain, 0, w)
  {
    if Matches(chain, 1, w) {
      var i :| 0 <= i <= |w| && Matches(chain, 0, w[..i]) && Statement(chain, 0, w[i..]);
      assert w[i..] == w;
    }
    if Statement(chain, 0, w) {
      assert w[..0] == [] && w[0..] == w;
      assert Matches(chain, 0, w[..0]) && Statement(chain, 0, w[0..]);
    }
  }

  /** e[=2] => f ends with the last sample of {e}, {}, {e}, {f}. */
  lemma NonConsecTrace(chain: Chain, e: nat, f: nat)
    requires e != f && chain == [State(NonConsec, e, 2, 2), State(Consec, f, 1, 1)]
    ensures HitAt(chain, [{e}, {}, {e}, {f}])
  {
    var w: Trace := [{e}, {}, {e}, {f}];
    var u: Trace := [{e}, {}, {e}];
    assert u[..2] == [{e}, {}] && u[..2][..1] == [{e}] && u[..2][..1][..0] == [];
    assert Count(e, u[..2][..1]) == 1 && Count(e, u[..2]) == 1 && Count(e, u) == 2;
    assert w[..3] == u;
    assert SeenThenSingle(chain[0].expr, chain[0].minHit, Most(chain[0]), chain[1].expr, w, 3);
    NonConsecThenSingle(chain, w);
    assert |chain| == 2 && w[0..] == w;
    assert Matches(chain, 2, w);
  }

  // ----- Single samples in a row -----

  /** Every statement of the chain is a single sample. */
  predicate AllSingle(chain: Chain) {
    forall k | 0 <= k < |chain| :: chain[k].kind == Consec && chain[k].minHit == 1 && chain[k].maxHit <= 1
  }

  /** The samples of w satisfy the first expressions of the chain, one after the other. */
  ghost predicate InOrder(chain: Chain, w: Trace)
    requires |w| <= |chain|
  {
    forall i | 0 <= i < |w| :: chain[i].expr in w[i]
  }

  lemma {:induction false} SinglesMatch(chain: Chain, k: nat, w: Trace)
    requires AllSingle(chain) && k <= |chain|
    ensures Matches(chain, k, w) <==> |w| == k && InOrder(chain, w)
  {
    if k > 0 {
      forall i | 0 <= i <= |w|
        ensures Matches(chain, k - 1, w[..i]) && Statement(chain, k - 1, w[i..]) ==> i == k - 1 && |w| == k
      {
        SinglesMatch(chain, k - 1, w[..i]);
        ConsecutiveWords(chain, k - 1, w[i..]);
      }
      if |w| == k {
        var v, last := w[..k - 1], w[k - 1..];
        SinglesMatch(chain, k - 1, v);
        ConsecutiveWords(chain, k - 1, last);
        assert All(Is(chain[k - 1].expr), last) <==> Passes(Is(chain[k - 1].expr), w[k - 1]);
        assert InOrder(chain, w) <==> InOrder(chain, v) && chain[k - 1].expr in w[k - 1];
      }
    }
  }

  /** A chain of single samples ends exactly where the last samples satisfy its expressions in order. */
  lemma SinglesInOrder(chain: Chain, trace: Trace)
    requires AllSingle(chain)
    ensures HitAt(chain, trace) <==> |trace| >= |chain| && InOrder(chain, trace[|trace| - |chain|..])
  {
    forall s | 0 <= s <= |trace|
      ensures Matches(chain, |chain|, trace[s..]) <==>
        s == |trace| - |chain| && InOrder(chain, trace[|trace| - |chain|..])
    {
      SinglesMatch(chain, |chain|, trace[s..]);
    }
  }

  // ----- A repeated statement after [=] -----

  /** The usual reading of e[=..] => f[*N:M]: samples with neither e nor f, then N to M times f in a row. */
  ghost predicate WaitThenRepeat(chain: Chain, k: nat, w: Trace)
    requires k < |chain| && AfterNonConsec(chain, k)
  {
    exists i | 0 <= i <= |w| ::
      && All(Neither(chain[k - 1].expr, chain[k].expr), w[..i])
      && chain[k].minHit <= |w| - i <= Most(chain[k]) && All(Is(chain[k].expr), w[i..])
  }

  /** A single repetition after [=] is recognised as usual. */
  lemma SingleAfterNonConsec(chain: Chain, k: nat, w: Trace)
    requires k < |chain| && chain[k].kind == Consec && AfterNonConsec(chain, k)
    requires chain[k].minHit > 0 && Most(chain[k]) == 1
    ensures Statement(chain, k, w) <==> WaitThenRepeat(chain, k, w)
  {
    var e, f := chain[k - 1].expr, chain[k].expr;
    var u := Unit(chain, k);
    assert Times(u, 1, w) <==> Match(u, w) by {
      if Times(u, 1, w) {
        var i :| 0 <= i <= |w| && Times(u, 0, w[..i]) && Match(u, w[i..]);
        assert w[i..] == w;
      }
      assert w[..0] == [] && w[0..] == w;
      if Match(u, w) {
        assert Times(u, 0, w[..0]) && Match(u, w[0..]);
      }
    }
    UnitMatch(chain, k, w);
    if WaitThenRepeat(chain, k, w) {
      var i :| 0 <= i <= |w| && All(Neither(e, f), w[..i]) && 1 <= |w| - i <= 1 && All(Is(f), w[i..]);
      assert w[i..][0] == w[i];
    }
    if w != [] && Hit(chain, k, w[|w| - 1]) && All(Gap(chain, k), w[..|w| - 1]) {
      var i := |w| - 1;
      assert w[i..] == [w[i]];
      assert All(Is(f), w[i..]);
    }
  }

  /** f, a sample without e and f, and then n times f again. */
  function Interrupted(f: nat, n: nat): Trace {
    if n == 0 then [{f}, {}] else Interrupted(f, n - 1) + [{f}]
  }

  lemma {:induction false} InterruptedTimes(chain: Chain, k: nat, n: nat)
    requires k < |chain| && chain[k].kind == Consec && AfterNonConsec(chain, k)
    ensures n > 0 ==> Times(Unit(chain, k), n + 1, Interrupted(chain[k].expr, n))
    ensures Waiting(chain, k, n + 1, Interrupted(chain[k].expr, n))
  {
    var f := chain[k].expr;
    if n == 0 {
      var none: Trace := [];
      assert Times(Unit(chain, k), 0, none[..0]) && All(Gap(chain, k), none[0..]);
      assert Waiting(chain, k, 0, none);
      WaitingPush(chain, k, 1, none, {f});
      assert none + [{f}] == [{f}];
      WaitingPush(chain, k, 1, [{f}], {});
      assert [{f}] + [{}] == Interrupted(f, 0);
    } else {
      InterruptedTimes(chain, k, n - 1);
      TimesPush(chain, k, n + 1, Interrupted(f, n - 1), {f});
      WaitingPush(chain, k, n + 1, Interrupted(f, n - 1), {f});
    }
  }

  lemma {:induction false} InterruptedShape(f: nat, n: nat)
    ensures |Interrupted(f, n)| == n + 2 && Interrupted(f, n)[0] == {f} && Interrupted(f, n)[1] == {}
  {
    if n > 0 {
      InterruptedShape(f, n - 1);
    }
  }

  /** A statement repeated twice or more after [=] may be interrupted: the count is carried through the gap. */
  lemma RepeatedAfterNonConsec(chain: Chain, k: nat)
    requires k < |chain| && chain[k].kind == Consec && AfterNonConsec(chain, k) && chain[k].minHit > 0
    requires Most(chain[k]) >= 2
    ensures var w := Interrupted(chain[k].expr, Most(chain[k]) - 1);
      Statement(chain, k, w) && !WaitThenRepeat(chain, k, w)
  {
    var f, n := chain[k].expr, Most(chain[k]) - 1;
    var w := Interrupted(f, n);
    InterruptedTimes(chain, k, n);
    InterruptedShape(f, n);
    forall i | 0 <= i <= |w|
      ensures !All(Neither(chain[k - 1].expr, f), w[..i]) || !All(Is(f), w[i..])
    {
      if i > 0 {
        assert !Passes(Neither(chain[k - 1].expr, f), w[..i][0]);
      } else {
        assert !Passes(Is(f), w[i..][1]);
      }
    }
  }

  /** The usual reading holds for all words exactly when the statement is not repeated. */
  lemma AfterNonConsecExactly(chain: Chain, k: nat)
    requires k < |chain| && chain[k].kind == Consec && AfterNonConsec(chain, k) && chain[k].minHit > 0
    ensures (forall w :: Statement(chain, k, w) <==> WaitThenRepeat(chain, k, w)) <==> Most(chain[k]) == 1
  {
    if Most(chain[k]) == 1 {
      forall w
        ensures Statement(chain, k, w) <==> WaitThenRepeat(chain, k, w)
      {
        SingleAfterNonConsec(chain, k, w);
      }
    } else {
      RepeatedAfterNonConsec(chain, k);
    }
  }

  // ----- A maximum below the minimum -----

  /** The statement with its bounds as they are declared. */
  ghost predicate Declared(chain: Chain, k: nat, w: Trace)
    requires k < |chain|
  {
    Between(Unit(chain, k), chain[k].minHit, chain[k].maxHit, w)
  }

  ghost predicate DeclaredMatches(chain: Chain, k: nat, w: Trace)
    requires k <= |chain|
  {
    if k == 0 then w == []
    else exists i | 0 <= i <= |w| :: DeclaredMatches(chain, k - 1, w[..i]) && Declared(chain, k - 1, w[i..])
  }

  /** Samples that make every statement of the chain complete. */
  function SomeWord(chain: Chain, k: nat): Trace
    requires k <= |chain|
  {
    if k == 0 then [] else SomeWord(chain, k - 1) + seq(chain[k - 1].minHit, _ => {chain[k - 1].expr})
  }

  lemma {:induction false} HitsRepeat(chain: Chain, k: nat, n: nat)
    requires k < |chain|
    ensures Times(Unit(chain, k), n, seq(n, _ => {chain[k].expr}))
  {
    if n > 0 {
      var w: Trace := seq(n, _ => {chain[k].expr});
      HitsRepeat(chain, k, n - 1);
      assert w[..n - 1] == seq(n - 1, _ => {chain[k].expr});
      UnitMatch(chain, k, w[n - 1..]);
    }
  }

  lemma {:induction false} SomeWordMatches(chain: Chain, k: nat)
    requires k <= |chain|
    ensures Matches(chain, k, SomeWord(chain, k))
  {
    if k > 0 {
      var w, i := SomeWord(chain, k), |SomeWord(chain, k - 1)|;
      SomeWordMatches(chain, k - 1);
      HitsRepeat(chain, k - 1, chain[k - 1].minHit);
      assert w[..i] == SomeWord(chain, k - 1);
      assert w[i..] == seq(chain[k - 1].minHit, _ => {chain[k - 1].expr});
      assert Statement(chain, k - 1, w[i..]);
    }
  }

  /** Behind a statement without repetitions as declared, nothing matches. */
  lemma {:induction false} NothingDeclared(chain: Chain, j: nat, k: nat, w: Trace)
    requires j < k <= |chain| && chain[j].maxHit < chain[j].minHit
    ensures !DeclaredMatches(chain, k, w)
  {
    if DeclaredMatches(chain, k, w) && j < k - 1 {
      var i :| 0 <= i <= |w| && DeclaredMatches(chain, k - 1, w[..i]) && Declared(chain, k - 1, w[i..]);
      NothingDeclared(chain, j, k - 1, w[..i]);
    }
  }

  lemma {:induction false} SameWords(chain: Chain, k: nat, w: Trace)
    requires k <= |chain| && forall j | 0 <= j < |chain| :: chain[j].minHit <= chain[j].maxHit
    ensures Matches(chain, k, w) <==> DeclaredMatches(chain, k, w)
  {
    if k > 0 {
      forall i | 0 <= i <= |w|
        ensures Matches(chain, k - 1, w[..i]) <==> DeclaredMatches(chain, k - 1, w[..i])
        ensures Statement(chain, k - 1, w[i..]) <==> Declared(chain, k - 1, w[i..])
      {
        SameWords(chain, k - 1, w[..i]);
      }
    }
  }

  /**
   The code recognises the language that is declared exactly when no maximum is below its
   minimum; such a statement as declared would never match.
   */
  lemma MaximumExactly(chain: Chain)
    ensures (forall w :: Matches(chain, |chain|, w) <==> DeclaredMatches(chain, |chain|, w))
      <==> forall k | 0 <= k < |chain| :: chain[k].minHit <= chain[k].maxHit
  {
    if k :| 0 <= k < |chain| && chain[k].maxHit < chain[k].minHit {
      SomeWordMatches(chain, |chain|);
      NothingDeclared(chain, k, |chain|, SomeWord(chain, |chain|));
    } else {
      forall w
        ensures Matches(chain, |chain|, w) <==> DeclaredMatches(chain, |chain|, w)
      {
        SameWords(chain, |chain|, w);
      }
    }
  }
}
