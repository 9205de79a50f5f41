/**
 Regular languages over samples, defined by what they contain.
 */
module Regex {
  /** A sample is the set of the expressions that are true in it. */
  type Sample = set<nat>
  type Trace = seq<Sample>

  datatype Test = Is(e: nat) | IsNot(e: nat) | Neither(e: nat, f: nat) | Never

  predicate Passes(t: Test, x: Sample) {
    match t
    case Is(e) => e in x
    case IsNot(e) => e !in x
    case Neither(e, f) => e !in x && f !in x
    case Never => false
  }

  datatype Regex = Atom(t: Test) | Cat(a: Regex, b: Regex) | Star(a: Regex)

  ghost predicate Match(r: Regex, w: Trace)
    decreases r, 0
  {
    match r
    case Atom(t) => |w| == 1 && Passes(t, w[0])
    case Cat(a, b) => exists i | 0 <= i <= |w| :: Match(a, w[..i]) && Match(b, w[i..])
    case Star(a) => exists n: nat :: Times(a, n, w)
  }

  /** w is n words of a one after the other. */
  ghost predicate Times(a: Regex, n: nat, w: Trace)
    decreases a, 1, n
  {
    if n == 0 then w == []
    else exists i | 0 <= i <= |w| :: Times(a, n - 1, w[..i]) && Match(a, w[i..])
  }

  /** w is at least lo and at most hi words of a one after the other. */
  ghost predicate Between(a: Regex, lo: nat, hi: nat, w: Trace) {
    exists n: nat | lo <= n <= hi :: Times(a, n, w)
  }

  ghost predicate All(t: Test, w: Trace) {
    forall i | 0 <= i < |w| :: Passes(t, w[i])
  }

  /** A word of n atoms is n samples that pass. */
  lemma {:induction false} TimesAtom(t: Test, n: nat, w: Trace)
    ensures Times(Atom(t), n, w) <==> |w| == n && All(t, w)
  {
    if n > 0 {
      if Times(Atom(t), n, w) {
        var i :| 0 <= i <= |w| && Times(Atom(t), n - 1, w[..i]) && Match(Atom(t), w[i..]);
        TimesAtom(t, n - 1, w[..i]);
        assert w[..i] + w[i..] == w;
      }
      if |w| == n && All(t, w) {
        var i := n - 1;
        TimesAtom(t, i, w[..i]);
        assert w[i..] == [w[i]];
      }
    }
  }

  lemma StarAtom(t: Test, w: Trace)
    ensures Match(Star(Atom(t)), w) <==> All(t, w)
  {
    if n: nat :| Times(Atom(t), n, w) {
      TimesAtom(t, n, w);
    }
    TimesAtom(t, |w|, w);
  }

  /** Gaps followed by one sample that passes. */
  lemma GapThenAtom(g: Test, t: Test, w: Trace)
    ensures Match(Cat(Star(Atom(g)), Atom(t)), w) <==> w != [] && Passes(t, w[|w| - 1]) && All(g, w[..|w| - 1])
  {
    if Match(Cat(Star(Atom(g)), Atom(t)), w) {
      var i :| 0 <= i <= |w| && Match(Star(Atom(g)), w[..i]) && Match(Atom(t), w[i..]);
      StarAtom(g, w[..i]);
      assert i == |w| - 1;
    }
    if w != [] && Passes(t, w[|w| - 1]) && All(g, w[..|w| - 1]) {
      var i := |w| - 1;
      StarAtom(g, w[..i]);
      assert w[i..] == [w[i]];
    }
  }
}
