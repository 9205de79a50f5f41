/**
 Transition bins: a chain of repetition statements that is followed by a set of runs,
 and the language that the bin recognises.
 */
module Coverage {
  import opened Regex

  datatype NodeType = Goto | Consec | NonConsec

  datatype State = State(kind: NodeType, expr: nat, minHit: nat, maxHit: nat)

  /** The states from the root along the successor links. */
  type Chain = seq<State>

  /** A statement that is repeated zero times adds no state. */
  function AddState(chain: Chain, kind: NodeType, expr: nat, n: nat, m: nat): (r: Chain)
    requires IsChain(chain)
    ensures IsChain(r)
    ensures n == 0 ==> r == chain
    ensures n > 0 ==> |r| == |chain| + 1 && r[..|chain|] == chain && r[|chain|] == State(kind, expr, n, m)
  {
    if n == 0 then chain else chain + [State(kind, expr, n, m)]
  }

  predicate IsChain(chain: Chain) {
    forall k | 0 <= k < |chain| :: chain[k].minHit > 0
  }

  // ----- The language of a chain -----

  /** The state follows a [=] repetition, whose end may be followed by other samples. */
  predicate AfterNonConsec(chain: Chain, k: nat)
    requires k < |chain|
  {
    k > 0 && chain[k - 1].kind == NonConsec
  }

  /** The samples that may stand between two hits of state k. */
  function Gap(chain: Chain, k: nat): Test
    requires k < |chain|
  {
    if chain[k].kind != Consec then IsNot(chain[k].expr)
    else if AfterNonConsec(chain, k) then Neither(chain[k - 1].expr, chain[k].expr)
    else Never
  }

  /** One repetition of state k. */
  function Unit(chain: Chain, k: nat): Regex
    requires k < |chain|
  {
    var hit := Atom(Is(chain[k].expr));
    if chain[k].kind == Consec && !AfterNonConsec(chain, k) then hit else Cat(Star(Atom(Gap(chain, k))), hit)
  }

  /** A maximum below the minimum counts as the minimum. */
  function Most(s: State): nat { if s.maxHit < s.minHit then s.minHit else s.maxHit }

  /** The repetitions that a statement asks for. */
  ghost predicate Statement(chain: Chain, k: nat, w: Trace)
    requires k < |chain|
  {
    Between(Unit(chain, k), chain[k].minHit, Most(chain[k]), w)
  }

  /** The first k statements one after the other. */
  ghost predicate Matches(chain: Chain, k: nat, w: Trace)
    requires k <= |chain|
  {
    if k == 0 then w == []
    else exists i | 0 <= i <= |w| :: Matches(chain, k - 1, w[..i]) && Statement(chain, k - 1, w[i..])
  }

  /** The transition ends with the last sample of the trace. */
  ghost predicate HitAt(chain: Chain, trace: Trace) {
    exists s | 0 <= s <= |trace| :: Matches(chain, |chain|, trace[s..])
  }

  /** The number of samples at which a transition ends. */
  ghost function Hits(chain: Chain, trace: Trace): nat {
    if trace == [] then 0 else Hits(chain, trace[..|trace| - 1]) + if HitAt(chain, trace) then 1 else 0
  }

  /** The samples, counted from one, at which a transition ends. */
  ghost function HitTimes(chain: Chain, trace: Trace): set<nat> {
    set t: nat | 0 < t <= |trace| && HitAt(chain, trace[..t])
  }

  /** The count is the number of these samples. */
  lemma {:induction false} HitsAreCounted(chain: Chain, trace: Trace)
    ensures Hits(chain, trace) == |HitTimes(chain, trace)|
  {
    if trace != [] {
      hide HitAt;
      var n := |trace| - 1;
      var init := trace[..n];
      HitsAreCounted(chain, init);
      assert forall t | 0 < t <= n :: init[..t] == trace[..t];
      assert trace[..|trace|] == trace;
      assert HitTimes(chain, trace) == HitTimes(chain, init) + if HitAt(chain, trace) then {|trace|} else {};
    } else {
      assert HitTimes(chain, trace) == {};
    }
  }

  // ----- Words in progress -----

  ghost predicate Hit(chain: Chain, k: nat, x: Sample)
    requires k < |chain|
  {
    Passes(Is(chain[k].expr), x)
  }

  lemma NeverIsEmpty(w: Trace)
    ensures All(Never, w) <==> w == []
  {
    if w != [] {
      assert !Passes(Never, w[0]);
    }
  }

  lemma UnitMatch(chain: Chain, k: nat, w: Trace)
    requires k < |chain|
    ensures Match(Unit(chain, k), w) <==> w != [] && Hit(chain, k, w[|w| - 1]) && All(Gap(chain, k), w[..|w| - 1])
  {
    if chain[k].kind == Consec && !AfterNonConsec(chain, k) {
      if w != [] {
        NeverIsEmpty(w[..|w| - 1]);
      }
    } else {
      GapThenAtom(Gap(chain, k), Is(chain[k].expr), w);
    }
  }

  /** c hits of state k, the samples between them, and samples that wait for the next hit. */
  ghost predicate Waiting(chain: Chain, k: nat, c: nat, w: Trace)
    requires k < |chain|
  {
    exists j | 0 <= j <= |w| :: Times(Unit(chain, k), c, w[..j]) && All(Gap(chain, k), w[j..])
  }

  /** The first k statements are complete and c hits of state k are counted. */
  ghost predicate Progress(chain: Chain, k: nat, c: nat, w: Trace)
    requires k < |chain|
  {
    exists i | 0 <= i <= |w| :: Matches(chain, k, w[..i]) && Waiting(chain, k, c, w[i..])
  }

  lemma TimesEmpty(chain: Chain, k: nat, c: nat)
    requires k < |chain|
    ensures Times(Unit(chain, k), c, []) <==> c == 0
  {
    var w: Trace := [];
    if c > 0 && Times(Unit(chain, k), c, w) {
      var i :| 0 <= i <= |w| && Times(Unit(chain, k), c - 1, w[..i]) && Match(Unit(chain, k), w[i..]);
      UnitMatch(chain, k, w[i..]);
    }
  }

  /** The last sample of c repetitions is the c-th hit. */
  lemma TimesPush(chain: Chain, k: nat, c: nat, w: Trace, x: Sample)
    requires k < |chain|
    ensures Times(Unit(chain, k), c, w + [x]) <==> c > 0 && Hit(chain, k, x) && Waiting(chain, k, c - 1, w)
  {
    var v := w + [x];
    if c > 0 && Times(Unit(chain, k), c, v) {
      var i :| 0 <= i <= |v| && Times(Unit(chain, k), c - 1, v[..i]) && Match(Unit(chain, k), v[i..]);
      UnitMatch(chain, k, v[i..]);
      assert v[..i] == w[..i] && v[i..] == w[i..] + [x];
      assert v[i..][..|v| - i - 1] == w[i..];
    }
    if c > 0 && Hit(chain, k, x) && Waiting(chain, k, c - 1, w) {
      var j :| 0 <= j <= |w| && Times(Unit(chain, k), c - 1, w[..j]) && All(Gap(chain, k), w[j..]);
      assert v[..j] == w[..j] && v[j..] == w[j..] + [x];
      assert v[j..][..|v| - j - 1] == w[j..];
      UnitMatch(chain, k, v[j..]);
    }
  }

  lemma WaitingPush(chain: Chain, k: nat, c: nat, w: Trace, x: Sample)
    requires k < |chain|
    ensures Waiting(chain, k, c, w + [x]) <==>
      (Passes(Gap(chain, k), x) && Waiting(chain, k, c, w))
        || (c > 0 && Hit(chain, k, x) && Waiting(chain, k, c - 1, w))
  {
    var v := w + [x];
    if Waiting(chain, k, c, v) {
      var j :| 0 <= j <= |v| && Times(Unit(chain, k), c, v[..j]) && All(Gap(chain, k), v[j..]);
      if j == |v| {
        assert v[..j] == v;
        TimesPush(chain, k, c, w, x);
      } else {
        assert v[..j] == w[..j] && v[j..] == w[j..] + [x];
        assert forall i | 0 <= i < |w[j..]| :: w[j..][i] == v[j..][i];
        assert v[j..][|w| - j] == x;
      }
    }
    if Passes(Gap(chain, k), x) && Waiting(chain, k, c, w) {
      var j :| 0 <= j <= |w| && Times(Unit(chain, k), c, w[..j]) && All(Gap(chain, k), w[j..]);
      assert v[..j] == w[..j] && v[j..] == w[j..] + [x];
    }
    if c > 0 && Hit(chain, k, x) && Waiting(chain, k, c - 1, w) {
      TimesPush(chain, k, c, w, x);
      assert v[..|v|] == v && v[|v|..] == [];
    }
  }

  lemma ProgressFromPush(chain: Chain, k: nat, c: nat, w: Trace, x: Sample)
    requires k < |chain| && Progress(chain, k, c, w + [x])
    ensures
      || (Passes(Gap(chain, k), x) && Progress(chain, k, c, w))
      || (c > 0 && Hit(chain, k, x) && Progress(chain, k, c - 1, w))
      || (c == 0 && Matches(chain, k, w + [x]))
  {
    var v := w + [x];
    var i :| 0 <= i <= |v| && Matches(chain, k, v[..i]) && Waiting(chain, k, c, v[i..]);
    if i == |v| {
      var e: Trace := [];
      assert v[..i] == v && v[i..] == e;
      var j :| 0 <= j <= |e| && Times(Unit(chain, k), c, e[..j]) && All(Gap(chain, k), e[j..]);
      assert e[..j] == e;
      TimesEmpty(chain, k, c);
    } else {
      assert v[..i] == w[..i] && v[i..] == w[i..] + [x];
      WaitingPush(chain, k, c, w[i..], x);
    }
  }

  lemma ProgressExtends(chain: Chain, k: nat, c: nat, c': nat, w: Trace, x: Sample)
    requires k < |chain| && Progress(chain, k, c, w)
    requires (c' == c && Passes(Gap(chain, k), x)) || (c' == c + 1 && Hit(chain, k, x))
    ensures Progress(chain, k, c', w + [x])
  {
    var v := w + [x];
    var i :| 0 <= i <= |w| && Matches(chain, k, w[..i]) && Waiting(chain, k, c, w[i..]);
    assert v[..i] == w[..i] && v[i..] == w[i..] + [x];
    WaitingPush(chain, k, c', w[i..], x);
  }

  lemma ProgressStarts(chain: Chain, k: nat, v: Trace)
    requires k < |chain| && Matches(chain, k, v)
    ensures Progress(chain, k, 0, v)
  {
    var e := v[|v|..];
    assert v[..|v|] == v;
    assert Times(Unit(chain, k), 0, e[..0]) && All(Gap(chain, k), e[0..]);
    assert Waiting(chain, k, 0, e);
  }

  /** One more sample: it is waited through, or it is the next hit, or it completes the statements before. */
  lemma ProgressPush(chain: Chain, k: nat, c: nat, w: Trace, x: Sample)
    requires k < |chain|
    ensures Progress(chain, k, c, w + [x]) <==>
      || (Passes(Gap(chain, k), x) && Progress(chain, k, c, w))
      || (c > 0 && Hit(chain, k, x) && Progress(chain, k, c - 1, w))
      || (c == 0 && Matches(chain, k, w + [x]))
  {
    hide Progress, Matches;
    if Progress(chain, k, c, w + [x]) {
      ProgressFromPush(chain, k, c, w, x);
    }
    if Passes(Gap(chain, k), x) && Progress(chain, k, c, w) {
      ProgressExtends(chain, k, c, c, w, x);
    }
    if c > 0 && Hit(chain, k, x) && Progress(chain, k, c - 1, w) {
      ProgressExtends(chain, k, c - 1, c, w, x);
    }
    if c == 0 && Matches(chain, k, w + [x]) {
      ProgressStarts(chain, k, w + [x]);
    }
  }

  lemma StatementPush(chain: Chain, k: nat, w: Trace, x: Sample)
    requires k < |chain| && chain[k].minHit > 0
    ensures Statement(chain, k, w + [x]) <==>
      Hit(chain, k, x) && exists c: nat :: chain[k].minHit <= c + 1 <= Most(chain[k]) && Waiting(chain, k, c, w)
  {
    if Statement(chain, k, w + [x]) {
      var n: nat :| chain[k].minHit <= n <= Most(chain[k]) && Times(Unit(chain, k), n, w + [x]);
      TimesPush(chain, k, n, w, x);
      assert chain[k].minHit <= (n - 1) + 1;
    }
    if Hit(chain, k, x) {
      if c: nat :| chain[k].minHit <= c + 1 <= Most(chain[k]) && Waiting(chain, k, c, w) {
        TimesPush(chain, k, c + 1, w, x);
      }
    }
  }

  lemma StatementNotEmpty(chain: Chain, k: nat)
    requires k < |chain| && chain[k].minHit > 0
    ensures !Statement(chain, k, [])
  {
    forall n: nat
      ensures Times(Unit(chain, k), n, []) <==> n == 0
    {
      TimesEmpty(chain, k, n);
    }
  }

  /** The first k + 1 statements end with a hit of state k that makes the count sufficient. */
  lemma LanguagePush(chain: Chain, k: nat, w: Trace, x: Sample)
    requires k < |chain| && chain[k].minHit > 0
    ensures Matches(chain, k + 1, w + [x]) <==>
      Hit(chain, k, x) && exists c: nat :: chain[k].minHit <= c + 1 <= Most(chain[k]) && Progress(chain, k, c, w)
  {
    hide Statement, Waiting;
    var v := w + [x];
    if Matches(chain, k + 1, v) {
      var i :| 0 <= i <= |v| && Matches(chain, k, v[..i]) && Statement(chain, k, v[i..]);
      if i == |v| {
        assert v[i..] == [];
        StatementNotEmpty(chain, k);
      } else {
        assert v[..i] == w[..i] && v[i..] == w[i..] + [x];
        StatementPush(chain, k, w[i..], x);
        var c: nat :| chain[k].minHit <= c + 1 <= Most(chain[k]) && Waiting(chain, k, c, w[i..]);
        assert Progress(chain, k, c, w);
      }
    }
    if Hit(chain, k, x) {
      if c: nat :| chain[k].minHit <= c + 1 <= Most(chain[k]) && Progress(chain, k, c, w) {
        var i :| 0 <= i <= |w| && Matches(chain, k, w[..i]) && Waiting(chain, k, c, w[i..]);
        assert v[..i] == w[..i] && v[i..] == w[i..] + [x];
        StatementPush(chain, k, w[i..], x);
      }
    }
  }

  // ----- Words that start anywhere in the trace -----

  /** A run in state k with c counted hits belongs to the trace. */
  ghost predicate Live(chain: Chain, trace: Trace, k: nat, c: nat)
    requires k < |chain|
  {
    exists s | 0 <= s <= |trace| :: Progress(chain, k, c, trace[s..])
  }

  ghost predicate Reached(chain: Chain, trace: Trace, k: nat)
    requires k <= |chain|
  {
    exists s | 0 <= s <= |trace| :: Matches(chain, k, trace[s..])
  }

  lemma LiveAtOnce(chain: Chain, trace: Trace)
    requires chain != []
    ensures Live(chain, trace, 0, 0)
  {
    var e := trace[|trace|..];
    assert Times(Unit(chain, 0), 0, e[..0]) && All(Gap(chain, 0), e[0..]);
    assert Matches(chain, 0, e[..0]) && Waiting(chain, 0, 0, e[0..]);
  }

  lemma {:induction false} LanguageNotEmpty(chain: Chain, k: nat)
    requires IsChain(chain) && k <= |chain|
    ensures Matches(chain, k, []) <==> k == 0
  {
    var w: Trace := [];
    if k > 0 && Matches(chain, k, w) {
      var i :| 0 <= i <= |w| && Matches(chain, k - 1, w[..i]) && Statement(chain, k - 1, w[i..]);
      assert w[i..] == w;
      StatementNotEmpty(chain, k - 1);
    }
  }

  lemma ProgressEmpty(chain: Chain, k: nat, c: nat)
    requires IsChain(chain) && k < |chain| && Progress(chain, k, c, [])
    ensures k == 0 && c == 0
  {
    var w: Trace := [];
    var i :| 0 <= i <= |w| && Matches(chain, k, w[..i]) && Waiting(chain, k, c, w[i..]);
    assert w[..i] == w && w[i..] == w;
    LanguageNotEmpty(chain, k);
    var j :| 0 <= j <= |w| && Times(Unit(chain, k), c, w[..j]) && All(Gap(chain, k), w[j..]);
    assert w[..j] == w;
    TimesEmpty(chain, k, c);
  }

  lemma SuffixPush(trace: Trace, x: Sample, s: nat)
    requires s <= |trace|
    ensures (trace + [x])[s..] == trace[s..] + [x]
  {
  }

  /** One more sample, for runs that started anywhere. */
  lemma LivePush(chain: Chain, trace: Trace, k: nat, c: nat, x: Sample)
    requires IsChain(chain) && k < |chain| && (k, c) != (0, 0)
    ensures Live(chain, trace + [x], k, c) <==>
      || (Passes(Gap(chain, k), x) && Live(chain, trace, k, c))
      || (c > 0 && Hit(chain, k, x) && Live(chain, trace, k, c - 1))
      || (c == 0 && Reached(chain, trace + [x], k))
  {
    var v := trace + [x];
    if Live(chain, v, k, c) {
      var s :| 0 <= s <= |v| && Progress(chain, k, c, v[s..]);
      if s == |v| {
        assert v[s..] == [];
        ProgressEmpty(chain, k, c);
      } else {
        SuffixPush(trace, x, s);
        ProgressPush(chain, k, c, trace[s..], x);
      }
    }
    if Passes(Gap(chain, k), x) && Live(chain, trace, k, c) {
      var s :| 0 <= s <= |trace| && Progress(chain, k, c, trace[s..]);
      SuffixPush(trace, x, s);
      ProgressPush(chain, k, c, trace[s..], x);
    }
    if c > 0 && Hit(chain, k, x) && Live(chain, trace, k, c - 1) {
      var s :| 0 <= s <= |trace| && Progress(chain, k, c - 1, trace[s..]);
      SuffixPush(trace, x, s);
      ProgressPush(chain, k, c, trace[s..], x);
    }
    if c == 0 && Reached(chain, v, k) {
      var s :| 0 <= s <= |v| && Matches(chain, k, v[s..]);
      if s == |v| {
        assert v[s..] == [];
        LanguageNotEmpty(chain, k);
      } else {
        SuffixPush(trace, x, s);
        ProgressPush(chain, k, c, trace[s..], x);
      }
    }
  }

  /** The statement before state k is completed by a hit. */
  lemma ReachedPush(chain: Chain, trace: Trace, k: nat, x: Sample)
    requires IsChain(chain) && k < |chain|
    ensures Reached(chain, trace + [x], k + 1) <==>
      Hit(chain, k, x) && exists c: nat :: chain[k].minHit <= c + 1 <= Most(chain[k]) && Live(chain, trace, k, c)
  {
    var v := trace + [x];
    if Reached(chain, v, k + 1) {
      var s :| 0 <= s <= |v| && Matches(chain, k + 1, v[s..]);
      if s == |v| {
        assert v[s..] == [];
        LanguageNotEmpty(chain, k + 1);
      } else {
        SuffixPush(trace, x, s);
        LanguagePush(chain, k, trace[s..], x);
        var c: nat :| chain[k].minHit <= c + 1 <= Most(chain[k]) && Progress(chain, k, c, trace[s..]);
        assert Live(chain, trace, k, c);
      }
    }
    if Hit(chain, k, x) {
      if c: nat :| chain[k].minHit <= c + 1 <= Most(chain[k]) && Live(chain, trace, k, c) {
        var s :| 0 <= s <= |trace| && Progress(chain, k, c, trace[s..]);
        SuffixPush(trace, x, s);
        LanguagePush(chain, k, trace[s..], x);
        assert Matches(chain, k + 1, v[s..]);
      }
    }
  }

  // ----- The bin -----

  datatype Run = Run(state: nat, count: nat)

  /** The runs that one run leads to. */
  function Next(chain: Chain, run: Run, x: Sample): seq<Run>
    requires run.state < |chain|
  {
    var k, s := run.state, chain[run.state];
    if s.expr in x then
      var c := run.count + 1;
      var follow := if k + 1 < |chain| then [Run(k + 1, 0)] else [];
      if c < s.minHit then [Run(k, c)]
      else if c < s.maxHit then [Run(k, c)] + follow
      else follow
    else if s.kind == Consec then
      if k > 0 && chain[k - 1].kind == NonConsec && chain[k - 1].expr !in x then [run] else []
    else [run]
  }

  /** The run completes the chain. */
  predicate Completes(chain: Chain, run: Run, x: Sample)
    requires run.state < |chain|
  {
    chain[run.state].expr in x && run.count + 1 >= chain[run.state].minHit && run.state + 1 == |chain|
  }

  predicate InRange(chain: Chain, run: Run) {
    run.state < |chain| && run.count < Most(chain[run.state])
  }

  /** The runs that are carried: those that belong to the trace, without the one that has not begun. */
  ghost predicate Carried(chain: Chain, trace: Trace, run: Run) {
    InRange(chain, run) && (run.state, run.count) != (0, 0) && Live(chain, trace, run.state, run.count)
  }

  ghost predicate Exact(chain: Chain, trace: Trace, runs: seq<Run>) {
    forall run :: run in runs <==> Carried(chain, trace, run)
  }

  /** Every run of the trace, the one that has not begun included. */
  ghost predicate Active(chain: Chain, trace: Trace, run: Run) {
    InRange(chain, run) && Live(chain, trace, run.state, run.count)
  }

  /** What a run leads to belongs to the longer trace. The run that has not begun needs a hit. */
  lemma NextIsCarried(chain: Chain, trace: Trace, run: Run, x: Sample, r: Run)
    requires IsChain(chain) && Active(chain, trace, run) && r in Next(chain, run, x)
    requires run == Run(0, 0) ==> Hit(chain, 0, x)
    ensures Carried(chain, trace + [x], r)
  {
    hide Live;
    LivePush(chain, trace, r.state, r.count, x);
    if r.state == run.state + 1 {
      ReachedPush(chain, trace, run.state, x);
    }
  }

  /** What belongs to the longer trace comes from a run of the trace. */
  lemma CarriedComesFrom(chain: Chain, trace: Trace, x: Sample, r: Run) returns (run: Run)
    requires IsChain(chain) && Carried(chain, trace + [x], r)
    ensures Active(chain, trace, run) && r in Next(chain, run, x)
    ensures run == Run(0, 0) ==> Hit(chain, 0, x)
  {
    hide Live;
    var k, c := r.state, r.count;
    LivePush(chain, trace, k, c, x);
    if Passes(Gap(chain, k), x) && Live(chain, trace, k, c) {
      run := r;
    } else if c > 0 && Hit(chain, k, x) && Live(chain, trace, k, c - 1) {
      run := Run(k, c - 1);
    } else {
      ReachedPush(chain, trace, k - 1, x);
      var c': nat :| chain[k - 1].minHit <= c' + 1 <= Most(chain[k - 1]) && Live(chain, trace, k - 1, c');
      run := Run(k - 1, c');
    }
  }

  lemma CompletesIsHit(chain: Chain, trace: Trace, run: Run, x: Sample)
    requires IsChain(chain) && Active(chain, trace, run) && Completes(chain, run, x)
    ensures HitAt(chain, trace + [x])
  {
    ReachedPush(chain, trace, run.state, x);
    assert Reached(chain, trace + [x], |chain|);
  }

  lemma HitComesFrom(chain: Chain, trace: Trace, x: Sample) returns (run: Run)
    requires IsChain(chain) && chain != [] && HitAt(chain, trace + [x])
    ensures Active(chain, trace, run) && Completes(chain, run, x)
  {
    var k := |chain| - 1;
    assert Reached(chain, trace + [x], k + 1);
    ReachedPush(chain, trace, k, x);
    var c: nat :| chain[k].minHit <= c + 1 <= Most(chain[k]) && Live(chain, trace, k, c);
    run := Run(k, c);
  }

  /** The runs that are kept for the next sample, and the hit of this one. */
  ghost predicate Stepped(chain: Chain, runs: seq<Run>, x: Sample, r: Run)
    requires chain != [] && forall j | 0 <= j < |runs| :: runs[j].state < |chain|
  {
    || (exists j | 0 <= j < |runs| :: r in Next(chain, runs[j], x))
    || (Hit(chain, 0, x) && r in Next(chain, Run(0, 0), x))
  }

  lemma ActiveIsRun(chain: Chain, trace: Trace, runs: seq<Run>, run: Run)
    requires Exact(chain, trace, runs) && Active(chain, trace, run) && run != Run(0, 0)
    ensures run in runs
  {
  }

  lemma StatesInChain(chain: Chain, trace: Trace, runs: seq<Run>)
    requires Exact(chain, trace, runs)
    ensures forall j | 0 <= j < |runs| :: runs[j].state < |chain|
  {
    forall j | 0 <= j < |runs|
      ensures Carried(chain, trace, runs[j])
    {
      assert runs[j] in runs;
    }
  }

  /** One sample: the runs stay exact, and there is a hit exactly when a transition ends here. */
  lemma StepIsExact(chain: Chain, trace: Trace, runs: seq<Run>, x: Sample, resultRuns: seq<Run>, hit: bool)
    requires IsChain(chain) && chain != [] && Exact(chain, trace, runs)
    requires forall j | 0 <= j < |runs| :: runs[j].state < |chain|
    requires forall r :: r in resultRuns <==> Stepped(chain, runs, x, r)
    requires hit <==>
      (exists j | 0 <= j < |runs| :: Completes(chain, runs[j], x))
        || (Hit(chain, 0, x) && Completes(chain, Run(0, 0), x))
    ensures Exact(chain, trace + [x], resultRuns)
    ensures hit <==> HitAt(chain, trace + [x])
  {
    LiveAtOnce(chain, trace);
    forall j | 0 <= j < |runs|
      ensures Carried(chain, trace, runs[j])
    {
      assert runs[j] in runs;
    }
    forall r
      ensures r in resultRuns <==> Carried(chain, trace + [x], r)
    {
      StepIsExactFor(chain, trace, runs, x, r);
    }
    if j :| 0 <= j < |runs| && Completes(chain, runs[j], x) {
      CompletesIsHit(chain, trace, runs[j], x);
    } else if Hit(chain, 0, x) && Completes(chain, Run(0, 0), x) {
      CompletesIsHit(chain, trace, Run(0, 0), x);
    }
    if HitAt(chain, trace + [x]) {
      var run := HitComesFrom(chain, trace, x);
      if run != Run(0, 0) {
        ActiveIsRun(chain, trace, runs, run);
      }
    }
  }

  lemma StepIsExactFor(chain: Chain, trace: Trace, runs: seq<Run>, x: Sample, r: Run)
    requires IsChain(chain) && chain != [] && Exact(chain, trace, runs)
    requires forall j | 0 <= j < |runs| :: runs[j].state < |chain|
    ensures Stepped(chain, runs, x, r) <==> Carried(chain, trace + [x], r)
  {
    LiveAtOnce(chain, trace);
    if j :| 0 <= j < |runs| && r in Next(chain, runs[j], x) {
      assert runs[j] in runs;
      NextIsCarried(chain, trace, runs[j], x, r);
    } else if Hit(chain, 0, x) && r in Next(chain, Run(0, 0), x) {
      NextIsCarried(chain, trace, Run(0, 0), x, r);
    }
    if Carried(chain, trace + [x], r) {
      var run := CarriedComesFrom(chain, trace, x, r);
      if run != Run(0, 0) {
        ActiveIsRun(chain, trace, runs, run);
      }
    }
  }

  class TransitionBin {
    const chain: Chain
    var runs: seq<Run>
    var hitCount: nat
    /** The samples so far. */
    ghost var trace: Trace

    constructor (chain: Chain)
      requires IsChain(chain) && chain != []
      ensures Valid() && trace == [] && this.chain == chain
    {
      this.chain := chain;
      runs, hitCount, trace := [], 0, [];
      new;
      forall run
        ensures !Carried(chain, [], run)
      {
        if Carried(chain, [], run) {
          var w: Trace := [];
          var s :| 0 <= s <= |w| && Progress(chain, run.state, run.count, w[s..]);
          assert w[s..] == w;
          ProgressEmpty(chain, run.state, run.count);
        }
      }
    }

    /** The runs are exactly those that the trace allows, and the counter is the number of hits. */
    ghost predicate Valid()
      reads this
    {
      IsChain(chain) && chain != [] && Exact(chain, trace, runs) && hitCount == Hits(chain, trace)
    }

    /** One run sees the sample: it counts, waits, moves on or ends. */
    method CheckRun(current: Run, x: Sample, resultRuns: seq<Run>, hit: bool)
        returns (resultRuns': seq<Run>, hit': bool)
      requires IsChain(chain) && current.state < |chain|
      ensures resultRuns' == resultRuns + Next(chain, current, x)
      ensures hit' == (hit || Completes(chain, current, x))
    {
      resultRuns', hit' := resultRuns, hit;
      var k, s := current.state, chain[current.state];
      if s.expr in x {
        var count := current.count + 1;
        if count < s.minHit {
          resultRuns' := resultRuns' + [Run(k, count)];
        } else if count < s.maxHit {
          resultRuns' := resultRuns' + [Run(k, count)];
          if k + 1 == |chain| {
            hit' := true;
          } else {
            resultRuns' := resultRuns' + [Run(k + 1, 0)];
          }
        } else {
          if k + 1 == |chain| {
            hit' := true;
          } else {
            resultRuns' := resultRuns' + [Run(k + 1, 0)];
          }
        }
      } else if s.kind == Consec {
        if k > 0 && chain[k - 1].kind == NonConsec {
          var hitAgain := chain[k - 1].expr in x;
          if !hitAgain {
            resultRuns' := resultRuns' + [current];
          }
        }
      } else {
        resultRuns' := resultRuns' + [current];
      }
    }

    /** Every pending run sees the sample; a new one starts when the root's expression is true. */
    method CheckRuns(x: Sample) returns (resultRuns: seq<Run>, hit: bool)
      requires Valid()
      ensures Exact(chain, trace + [x], resultRuns) && (hit <==> HitAt(chain, trace + [x]))
    {
      hit := false;
      resultRuns := [];
      StatesInChain(chain, trace, runs);
      hide Next, Completes, Exact, Carried, HitAt;
      for i := 0 to |runs|
        invariant forall r :: r in resultRuns <==> exists j | 0 <= j < i :: r in Next(chain, runs[j], x)
        invariant hit <==> exists j | 0 <= j < i :: Completes(chain, runs[j], x)
      {
        resultRuns, hit := CheckRun(runs[i], x, resultRuns, hit);
      }
      if chain[0].expr in x {
        resultRuns, hit := CheckRun(Run(0, 0), x, resultRuns, hit);
      }
      StepIsExact(chain, trace, runs, x, resultRuns, hit);
    }

    /** At most one hit is counted for a sample. */
    method CalcHit(x: Sample)
      requires Valid()
      modifies this
      ensures Valid() && trace == old(trace) + [x]
      ensures hitCount == old(hitCount) + if HitAt(chain, trace) then 1 else 0
    {
      var resultRuns, hit := CheckRuns(x);
      assert (trace + [x])[..|trace|] == trace;
      trace := trace + [x];
      if hit {
        hitCount := hitCount + 1;
      }
      runs := resultRuns;
    }
  }
}
