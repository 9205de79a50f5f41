/**
 The multithreaded generator: one thread per partition, all sharing one flag. A state
 machine over the atomic steps of the main thread and of the solving threads.
 */
module Threads {
  import opened DefaultSolver
  import opened Generators

  datatype Thread =
    | Unborn
    | Started            // about to read the flag
    | Running            // inside the solver
    | Failing            // the solver failed; about to clear the flag
    | Finished

  datatype Main =
    | Checking(i: nat)   // about to read the flag before thread i
    | Spawning(i: nat)
    | Joining(j: nat, n: nat)
    | Returned(answer: bool)

  /** solved is the record of the threads whose solver has succeeded. */
  datatype State = State(flag: bool, main: Main, threads: seq<Thread>, solved: set<nat>)

  function Init(n: nat): State {
    State(true, Checking(0), seq(n, i => Unborn), {})
  }

  /** The main thread waits only for the thread that it joins. */
  predicate MainEnabled(s: State) {
    match s.main
    case Checking(_) => true
    case Spawning(i) => i < |s.threads|
    case Joining(j, n) => j < n ==> j < |s.threads| && s.threads[j].Finished?
    case Returned(_) => false
  }

  function MainNext(s: State): State
    requires MainEnabled(s)
  {
    match s.main
    case Checking(i) => s.(main := if i < |s.threads| && s.flag then Spawning(i) else Joining(0, i))
    case Spawning(i) => s.(main := Checking(i + 1), threads := s.threads[i := Started])
    case Joining(j, n) => s.(main := if j < n then Joining(j + 1, n) else Returned(s.flag))
    case Returned(_) => s
  }

  predicate ThreadEnabled(s: State, i: nat) {
    i < |s.threads| && s.threads[i] in {Started, Running, Failing}
  }

  /** outcome is what the solver of partition i answers, if this is the step that asks it. */
  function ThreadNext(s: State, i: nat, outcome: bool): State
    requires ThreadEnabled(s, i)
  {
    match s.threads[i]
    case Started => s.(threads := s.threads[i := if s.flag then Running else Finished])
    case Running =>
      var solved := if outcome then s.solved + {i} else s.solved;
      s.(threads := s.threads[i := if outcome then Finished else Failing], solved := solved)
    case Failing => s.(flag := false, threads := s.threads[i := Finished])
    case _ => s
  }

  ghost predicate MainStep(s: State, s': State) { MainEnabled(s) && s' == MainNext(s) }

  /** outcomes[i] is what the solver of partition i answers. */
  ghost predicate ThreadStep(outcomes: seq<bool>, s: State, s': State, i: nat)
    requires |outcomes| == |s.threads|
  {
    ThreadEnabled(s, i) && s' == ThreadNext(s, i, outcomes[i])
  }

  ghost predicate Step(outcomes: seq<bool>, s: State, s': State) {
    |outcomes| == |s.threads| && (MainStep(s, s') || exists i: nat :: ThreadStep(outcomes, s, s', i))
  }

  /** Any interleaving of the steps. */
  ghost predicate IsRun(outcomes: seq<bool>, run: seq<State>) {
    && run != [] && run[0] == Init(|outcomes|)
    && forall k | 0 <= k < |run| - 1 :: Step(outcomes, run[k], run[k + 1])
  }

  predicate All(outcomes: seq<bool>) {
    forall i | 0 <= i < |outcomes| :: outcomes[i]
  }

  /**
   The flag is cleared only for a failed solver, and as long as it is set no failed solver
   has gone unnoticed; the main thread stops early only when it is cleared.
   */
  ghost predicate Inv(outcomes: seq<bool>, s: State) {
    && |s.threads| == |outcomes|
    && (!s.flag ==> !All(outcomes))
    && (forall i | 0 <= i < |outcomes| && s.threads[i].Finished? && s.flag :: i in s.solved)
    && (forall i | i in s.solved :: i < |outcomes| && outcomes[i] && s.threads[i].Finished?)
    && (forall i | 0 <= i < |outcomes| && s.threads[i].Failing? :: !outcomes[i])
    && match s.main
       case Checking(i) => i <= |outcomes| && Born(s, i)
       case Spawning(i) => i < |outcomes| && Born(s, i)
       case Joining(j, n) =>
         && j <= n <= |outcomes| && Born(s, n) && (n < |outcomes| ==> !s.flag)
         && forall i | 0 <= i < j :: s.threads[i].Finished?
       case Returned(b) =>
         && b == All(outcomes) && (b ==> forall i | 0 <= i < |outcomes| :: i in s.solved)
         && forall i | 0 <= i < |outcomes| :: s.threads[i].Finished? || s.threads[i].Unborn?
  }

  /** Exactly the first n threads have been started. */
  ghost predicate Born(s: State, n: nat) {
    n <= |s.threads| && forall i | 0 <= i < |s.threads| :: s.threads[i].Unborn? <==> i >= n
  }

  lemma InitInv(outcomes: seq<bool>)
    ensures Inv(outcomes, Init(|outcomes|))
  {
  }

  lemma MainKeeps(outcomes: seq<bool>, s: State, s': State)
    requires Inv(outcomes, s) && MainStep(s, s')
    ensures Inv(outcomes, s')
  {
  }

  lemma ThreadKeeps(outcomes: seq<bool>, s: State, s': State, i: nat)
    requires Inv(outcomes, s) && ThreadStep(outcomes, s, s', i)
    ensures Inv(outcomes, s')
  {
  }

  lemma StepKeeps(outcomes: seq<bool>, s: State, s': State)
    requires Inv(outcomes, s) && Step(outcomes, s, s')
    ensures Inv(outcomes, s') && (!s.flag ==> !s'.flag)
  {
    if MainStep(s, s') {
      MainKeeps(outcomes, s, s');
    } else {
      var i: nat :| ThreadStep(outcomes, s, s', i);
      ThreadKeeps(outcomes, s, s', i);
    }
  }

  lemma {:induction false} RunKeeps(outcomes: seq<bool>, run: seq<State>, k: nat)
    requires IsRun(outcomes, run) && k < |run|
    ensures Inv(outcomes, run[k])
  {
    if k == 0 {
      InitInv(outcomes);
    } else {
      RunKeeps(outcomes, run, k - 1);
      assert Step(outcomes, run[k - 1], run[k - 1 + 1]);
      StepKeeps(outcomes, run[k - 1], run[k]);
    }
  }

  /**
   In every interleaving the call answers whether every partition can be solved, and then
   every solver has been asked and has succeeded.
   */
  lemma AnswerIsAll(outcomes: seq<bool>, run: seq<State>, k: nat)
    requires IsRun(outcomes, run) && k < |run| && run[k].main.Returned?
    ensures run[k].main.answer == All(outcomes)
    ensures run[k].main.answer ==> forall i | 0 <= i < |outcomes| :: i in run[k].solved
  {
    RunKeeps(outcomes, run, k);
  }

  /** Once cleared, the flag stays cleared. */
  lemma {:induction false} FlagStaysCleared(outcomes: seq<bool>, run: seq<State>, k: nat, l: nat)
    requires IsRun(outcomes, run) && k <= l < |run| && !run[k].flag
    ensures !run[l].flag
  {
    if k < l {
      FlagStaysCleared(outcomes, run, k, l - 1);
      RunKeeps(outcomes, run, l - 1);
      assert Step(outcomes, run[l - 1], run[l - 1 + 1]);
      StepKeeps(outcomes, run[l - 1], run[l]);
    }
  }

  /**
   Once the flag is cleared no thread enters its solver any more, and no thread is started but
   the one that the main thread is about to start.
   */
  lemma {:induction false} NoLateStarts(outcomes: seq<bool>, run: seq<State>, k: nat, l: nat)
    requires IsRun(outcomes, run) && k <= l < |run| && !run[k].flag
    ensures !run[l].flag && |run[l].threads| == |run[k].threads|
    ensures run[l].main.Spawning? ==> run[k].main == run[l].main
    ensures forall i | 0 <= i < |run[k].threads| && run[l].threads[i].Running? :: run[k].threads[i].Running?
    ensures forall i | 0 <= i < |run[k].threads| && run[k].threads[i].Unborn? && run[k].main != Spawning(i) ::
      run[l].threads[i].Unborn?
  {
    if k < l {
      NoLateStarts(outcomes, run, k, l - 1);
      RunKeeps(outcomes, run, l - 1);
      assert Step(outcomes, run[l - 1], run[l - 1 + 1]);
      ClearedStep(outcomes, run[l - 1], run[l]);
    }
  }

  lemma ClearedStep(outcomes: seq<bool>, s: State, s': State)
    requires Inv(outcomes, s) && Step(outcomes, s, s') && !s.flag
    ensures !s'.flag && |s'.threads| == |s.threads| && (s'.main.Spawning? ==> s.main == s'.main)
    ensures forall i | 0 <= i < |s.threads| && s'.threads[i].Running? :: s.threads[i].Running?
    ensures forall i | 0 <= i < |s.threads| && s.threads[i].Unborn? && s.main != Spawning(i) :: s'.threads[i].Unborn?
  {
    if MainStep(s, s') {
      assert forall i | 0 <= i < |s.threads| && s.main != Spawning(i) :: s'.threads[i] == s.threads[i];
    } else {
      var i: nat :| ThreadStep(outcomes, s, s', i);
      assert forall j | 0 <= j < |s.threads| && j != i :: s'.threads[j] == s.threads[j];
    }
  }

  // ----- No interleaving gets stuck or goes on forever -----

  function ThreadWork(t: Thread): nat {
    match t
    case Unborn => 4
    case Started => 3
    case Running => 2
    case Failing => 1
    case Finished => 0
  }

  function Work(ts: seq<Thread>): nat {
    if ts == [] then 0 else Work(ts[..|ts| - 1]) + ThreadWork(ts[|ts| - 1])
  }

  lemma {:induction false} WorkUpdate(ts: seq<Thread>, i: nat, t: Thread)
    requires i < |ts|
    ensures Work(ts[i := t]) == Work(ts) - ThreadWork(ts[i]) + ThreadWork(t)
  {
    var k := |ts| - 1;
    if i == k {
      assert ts[i := t][..k] == ts[..k];
    } else {
      WorkUpdate(ts[..k], i, t);
      assert ts[i := t][..k] == ts[..k][i := t];
    }
  }

  function MainWork(m: Main, n: nat): int {
    match m
    case Checking(i) => 3 * (n - i) + n + 3
    case Spawning(i) => 3 * (n - i) + n + 2
    case Joining(j, k) => k - j + 1
    case Returned(_) => 0
  }

  /** Steps that are left at most. */
  function Measure(s: State): int { Work(s.threads) + MainWork(s.main, |s.threads|) }

  lemma MainShrinks(outcomes: seq<bool>, s: State, s': State)
    requires Inv(outcomes, s) && MainStep(s, s')
    ensures Measure(s') < Measure(s)
  {
    if s.main.Spawning? {
      WorkUpdate(s.threads, s.main.i, Started);
    }
  }

  lemma ThreadShrinks(outcomes: seq<bool>, s: State, s': State, i: nat)
    requires Inv(outcomes, s) && ThreadStep(outcomes, s, s', i)
    ensures Measure(s') < Measure(s)
  {
    WorkUpdate(s.threads, i, s'.threads[i]);
  }

  lemma MeasureNat(outcomes: seq<bool>, s: State)
    requires Inv(outcomes, s)
    ensures Measure(s) >= 0
  {
  }

  lemma StepShrinks(outcomes: seq<bool>, s: State, s': State)
    requires Inv(outcomes, s) && Step(outcomes, s, s')
    ensures 0 <= Measure(s') < Measure(s)
  {
    hide Inv, MainStep, ThreadStep, Measure;
    StepKeeps(outcomes, s, s');
    MeasureNat(outcomes, s');
    if MainStep(s, s') {
      MainShrinks(outcomes, s, s');
    } else {
      var i: nat :| ThreadStep(outcomes, s, s', i);
      ThreadShrinks(outcomes, s, s', i);
    }
  }

  lemma {:induction false} RunShrinks(outcomes: seq<bool>, run: seq<State>, k: nat)
    requires IsRun(outcomes, run) && k < |run|
    ensures 0 <= Measure(run[k]) <= Measure(run[0]) - k
  {
    InitInv(outcomes);
    if k > 0 {
      RunShrinks(outcomes, run, k - 1);
      RunKeeps(outcomes, run, k - 1);
      assert Step(outcomes, run[k - 1], run[k - 1 + 1]);
      StepShrinks(outcomes, run[k - 1], run[k]);
    }
  }

  lemma {:induction false} InitialWork(n: nat)
    ensures Work(Init(n).threads) == 4 * n
  {
    if n > 0 {
      InitialWork(n - 1);
      assert Init(n).threads[..n - 1] == Init(n - 1).threads;
    }
  }

  /** A run has at most as many steps as the partitions allow. */
  lemma RunsAreShort(outcomes: seq<bool>, run: seq<State>)
    requires IsRun(outcomes, run)
    ensures |run| <= 8 * |outcomes| + 4
  {
    RunShrinks(outcomes, run, |run| - 1);
    InitialWork(|outcomes|);
  }

  lemma ThreadSteps(outcomes: seq<bool>, s: State, i: nat)
    requires |outcomes| == |s.threads| && ThreadEnabled(s, i)
    ensures Step(outcomes, s, ThreadNext(s, i, outcomes[i]))
  {
    assert ThreadStep(outcomes, s, ThreadNext(s, i, outcomes[i]), i);
  }

  /** The thread that can make a step: a solving thread, or the main thread with the number of the threads. */
  predicate Enabled(s: State, i: nat) {
    if i == |s.threads| then MainEnabled(s) else ThreadEnabled(s, i)
  }

  /** Until the call has returned some thread can make a step. */
  lemma NeverStuck(outcomes: seq<bool>, s: State) returns (i: nat)
    requires Inv(outcomes, s) && !s.main.Returned?
    ensures i <= |s.threads| && Enabled(s, i)
  {
    if s.main.Joining? && s.main.j < s.main.n && !s.threads[s.main.j].Finished? {
      i := s.main.j;
    } else {
      i := |s.threads|;
    }
  }

  lemma LastKeeps(outcomes: seq<bool>, run: seq<State>, s: State)
    requires IsRun(outcomes, run) && run[|run| - 1] == s
    ensures Inv(outcomes, s)
  {
    RunKeeps(outcomes, run, |run| - 1);
  }

  lemma RunLonger(outcomes: seq<bool>, run: seq<State>, s: State, s': State)
    requires IsRun(outcomes, run) && run[|run| - 1] == s && Inv(outcomes, s) && Step(outcomes, s, s')
    ensures IsRun(outcomes, run + [s']) && (run + [s'])[|run + [s']| - 1] == s' && |s'.threads| == |s.threads|
    ensures Inv(outcomes, s') && 0 <= Measure(s') < Measure(s)
  {
    hide Inv, Measure, MainNext, ThreadNext;
    StepKeeps(outcomes, s, s');
    StepShrinks(outcomes, s, s');
    SameThreads(outcomes, s);
    SameThreads(outcomes, s');
  }

  lemma SameThreads(outcomes: seq<bool>, s: State)
    requires Inv(outcomes, s)
    ensures |s.threads| == |outcomes|
  {
  }

  // ----- The generator -----

  /** The generator whose solvers run in threads. */
  class VariableGeneratorMT {
    const generator: VariableGenerator

    constructor (generator: VariableGenerator)
      ensures this.generator == generator
    {
      this.generator := generator;
    }

    /** What the first n solvers answer. */
    ghost function OutcomesUpTo(n: nat, exprs: RefExprs): (r: seq<bool>)
      reads generator, generator.repr
      requires generator.Valid() && n <= |generator.solvers|
      ensures |r| == n && forall i | 0 <= i < n :: r[i] == generator.solvers[i].Solvable(exprs)
    {
      if n == 0 then [] else OutcomesUpTo(n - 1, exprs) + [generator.solvers[n - 1].Solvable(exprs)]
    }

    /** The run so far: what it records as solved has been delivered. */
    ghost predicate Reached(outcomes: seq<bool>, run: seq<State>, s: State, exprs: RefExprs)
      reads generator, generator.repr
      requires generator.Valid()
    {
      && |outcomes| == |generator.solvers| == |s.threads| && IsRun(outcomes, run) && run[|run| - 1] == s
      && (forall i | 0 <= i < |outcomes| :: outcomes[i] == generator.solvers[i].Solvable(exprs))
      && forall i | i in s.solved :: i < |generator.solvers| && generator.solvers[i].Delivered(exprs)
    }

    /** One step of thread i; the solver is asked when it is running. */
    method Advance(s: State, i: nat, ghost outcomes: seq<bool>, exprs: RefExprs, values: RefValues) returns (s': State)
      requires generator.Valid() && Inv(outcomes, s) && |outcomes| == |generator.solvers| && ThreadEnabled(s, i)
      requires outcomes[i] == generator.solvers[i].Solvable(exprs)
      requires forall j | j in s.solved :: j < |generator.solvers| && generator.solvers[j].Delivered(exprs)
      modifies generator.solvers[i].repr
      ensures generator.Valid() && generator.solvers == old(generator.solvers) && generator.repr == old(generator.repr)
      ensures s' == ThreadNext(s, i, outcomes[i])
      ensures forall j | 0 <= j < |generator.solvers| ::
        generator.solvers[j].Solvable(exprs) == old(generator.solvers[j].Solvable(exprs))
      ensures forall j | j in s'.solved :: j < |generator.solvers| && generator.solvers[j].Delivered(exprs)
      ensures forall j | 0 <= j < |generator.solvers| ::
        generator.solvers[j].Analysis() == old(generator.solvers[j].Analysis())
    {
      if s.threads[i].Running? {
        SolvedIsFinished(outcomes, s, i);
        hide Inv;
        var ok := generator.SolveOne(i, exprs, values);
        s' := ThreadNext(s, i, ok);
        assert s'.solved <= s.solved + {i} && (i in s'.solved ==> ok) by { NextSolved(s, i, ok); }
      } else {
        s' := ThreadNext(s, i, false);
      }
    }

    /** Any thread that can make a step. */
    method Pick(s: State, ghost outcomes: seq<bool>) returns (i: nat)
      requires Inv(outcomes, s) && !s.main.Returned?
      ensures i <= |s.threads| && Enabled(s, i)
    {
      ghost var some := NeverStuck(outcomes, s);
      i :| i <= |s.threads| && Enabled(s, i);
    }

    /** A thread that can make a step makes it. */
    method Turn(s: State, ghost outcomes: seq<bool>, ghost run: seq<State>, exprs: RefExprs, values: RefValues)
        returns (s': State, ghost run': seq<State>)
      requires generator.Valid() && Reached(outcomes, run, s, exprs) && !s.main.Returned?
      modifies generator.repr
      ensures generator.Valid() && generator.solvers == old(generator.solvers) && generator.repr == old(generator.repr)
      ensures Reached(outcomes, run', s', exprs) && Inv(outcomes, s') && 0 <= Measure(s') < Measure(s)
      ensures forall i | 0 <= i < |generator.solvers| ::
        generator.solvers[i].Analysis() == old(generator.solvers[i].Analysis())
    {
      hide Inv, IsRun, Measure, Step, All, MainEnabled, ThreadEnabled, MainNext, ThreadNext;
      LastKeeps(outcomes, run, s);
      var i := Pick(s, outcomes);
      if i == |s.threads| {
        s' := MainNext(s);
        MainSteps(outcomes, s);
      } else {
        s' := Advance(s, i, outcomes, exprs, values);
        ThreadSteps(outcomes, s, i);
      }
      RunLonger(outcomes, run, s, s');
      run' := run + [s'];
    }

    /**
     Threads are started as long as the flag is set, and take their steps in any order. The
     execution is a run of the state machine, so the answer is that of the sequential
     generator, and on success every solver has delivered.
     */
    method Solve(exprs: RefExprs, values: RefValues) returns (ok: bool, ghost run: seq<State>)
      requires generator.Valid()
      modifies generator.repr
      ensures generator.Valid() && generator.solvers == old(generator.solvers) && generator.repr == old(generator.repr)
      ensures IsRun(old(OutcomesUpTo(|generator.solvers|, exprs)), run) && run[|run| - 1].main == Returned(ok)
      ensures ok <==> forall i | 0 <= i < |generator.solvers| :: old(generator.solvers[i].Solvable(exprs))
      ensures ok ==> forall i | 0 <= i < |generator.solvers| :: generator.solvers[i].Delivered(exprs)
      ensures forall i | 0 <= i < |generator.solvers| ::
        generator.solvers[i].Analysis() == old(generator.solvers[i].Analysis())
    {
      hide Inv, IsRun, Measure, All, DefaultSolver.VariableDefaultSolver.Solvable;
      hide DefaultSolver.VariableDefaultSolver.Delivered;
      ghost var outcomes := OutcomesUpTo(|generator.solvers|, exprs);
      var s := Init(|generator.solvers|);
      run := [s];
      InitInv(outcomes);
      FirstState(outcomes);
      while !s.main.Returned?
        invariant generator.Valid() && generator.solvers == old(generator.solvers)
        invariant generator.repr == old(generator.repr)
        invariant Reached(outcomes, run, s, exprs) && Inv(outcomes, s)
        invariant forall i | 0 <= i < |generator.solvers| ::
          generator.solvers[i].Analysis() == old(generator.solvers[i].Analysis())
        decreases Measure(s)
      {
        s, run := Turn(s, outcomes, run, exprs, values);
      }
      ok := s.main.answer;
      LastAnswer(outcomes, run, s);
    }
  }

  lemma LastAnswer(outcomes: seq<bool>, run: seq<State>, s: State)
    requires IsRun(outcomes, run) && run[|run| - 1] == s && s.main.Returned?
    ensures s.main.answer <==> forall i | 0 <= i < |outcomes| :: outcomes[i]
    ensures s.main.answer ==> forall i | 0 <= i < |outcomes| :: i in s.solved
  {
    AnswerIsAll(outcomes, run, |run| - 1);
  }

  lemma MainSteps(outcomes: seq<bool>, s: State)
    requires |outcomes| == |s.threads| && MainEnabled(s)
    ensures Step(outcomes, s, MainNext(s)) && MainNext(s).solved == s.solved
  {
  }

  lemma SolvedIsFinished(outcomes: seq<bool>, s: State, i: nat)
    requires Inv(outcomes, s) && ThreadEnabled(s, i)
    ensures i !in s.solved
  {
  }

  lemma NextSolved(s: State, i: nat, ok: bool)
    requires ThreadEnabled(s, i) && i !in s.solved
    ensures var s' := ThreadNext(s, i, ok); s'.solved <= s.solved + {i} && (i in s'.solved ==> ok)
  {
  }

  lemma FirstState(outcomes: seq<bool>)
    ensures IsRun(outcomes, [Init(|outcomes|)])
  {
  }
}
