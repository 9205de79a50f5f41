/**
 Weighted ranges: drawing values from them, and the formula that admits the same values.
 */
module Distributions {
  import opened Bits
  import opened SmtLib
  import opened Ast
  import opened FixWidth

  /** Bounds included; the accumulated weight is filled in when the range is added. */
  datatype WeightedRange = WeightedRange(left: int, right: int, weight: nat, accumWeight: nat)
  {
    predicate Contains(v: int) { left <= v <= right }

    predicate Overlap(other: WeightedRange) {
      if left < other.left then right >= other.left
      else if left > other.left then left <= other.right
      else false
    }
  }

  const UINT64: nat := 0x1_0000_0000_0000_0000

  /** The overlap test finds every common value except for ranges with the same left bound. */
  lemma OverlapMeans(a: WeightedRange, b: WeightedRange)
    requires a.left <= a.right && b.left <= b.right
    ensures a.Overlap(b) <==> a.left != b.left && exists v :: a.Contains(v) && b.Contains(v)
  {
    if a.Overlap(b) {
      var v := if a.left < b.left then b.left else a.left;
      assert a.Contains(v) && b.Contains(v);
    }
  }

  /** The sum of the first n weights. */
  function Prefix(ranges: seq<WeightedRange>, n: nat): nat
    requires n <= |ranges|
  {
    if n == 0 then 0 else Prefix(ranges, n - 1) + ranges[n - 1].weight
  }

  lemma {:induction false} PrefixOfPush(ranges: seq<WeightedRange>, r: WeightedRange, n: nat)
    requires n <= |ranges|
    ensures Prefix(ranges + [r], n) == Prefix(ranges, n)
  {
    if n > 0 {
      PrefixOfPush(ranges, r, n - 1);
    }
  }

  lemma {:induction false} PrefixGrows(ranges: seq<WeightedRange>, i: nat, j: nat)
    requires i <= j <= |ranges|
    ensures Prefix(ranges, i) <= Prefix(ranges, j)
  {
    if i < j {
      PrefixGrows(ranges, i, j - 1);
    }
  }

  /** The accumulated weights are the prefix sums, in 64 bits. */
  ghost predicate Accumulated(ranges: seq<WeightedRange>) {
    forall i | 0 <= i < |ranges| :: ranges[i].accumWeight == Prefix(ranges, i + 1) % UINT64
  }

  ghost predicate NoOverlap(ranges: seq<WeightedRange>) {
    forall i, j | 0 <= i < j < |ranges| :: !ranges[i].Overlap(ranges[j])
  }

  ghost predicate RangesOk(ranges: seq<WeightedRange>) {
    && Accumulated(ranges) && NoOverlap(ranges)
    && forall i | 0 <= i < |ranges| :: ranges[i].weight < UINT64
  }

  lemma AddKeepsOk(ranges: seq<WeightedRange>, r: WeightedRange)
    requires RangesOk(ranges) && r.weight < UINT64
    requires forall i | 0 <= i < |ranges| :: !ranges[i].Overlap(r)
    requires r.accumWeight == if ranges == [] then r.weight else (ranges[|ranges| - 1].accumWeight + r.weight) % UINT64
    ensures RangesOk(ranges + [r])
  {
    var all := ranges + [r];
    forall i | 0 <= i < |all|
      ensures all[i].accumWeight == Prefix(all, i + 1) % UINT64
    {
      PrefixOfPush(ranges, r, if i < |ranges| then i + 1 else i);
    }
  }

  /** The range that a draw selects: the first whose accumulated weight is greater, else the last. */
  function Select(ranges: seq<WeightedRange>, r: nat): (i: nat)
    requires ranges != []
    ensures i < |ranges|
  {
    SelectFrom(ranges, r, 0)
  }

  function SelectFrom(ranges: seq<WeightedRange>, r: nat, i: nat): (k: nat)
    requires i <= |ranges| && ranges != []
    ensures k < |ranges|
    decreases |ranges| - i
  {
    if i == |ranges| then |ranges| - 1 else if r < ranges[i].accumWeight then i else SelectFrom(ranges, r, i + 1)
  }

  /** The values of the integer type of the distribution. */
  predicate InType(v: int, width: nat, sign: bool) {
    if sign then width > 1 && -Pow2(width - 1) <= v < Pow2(width - 1) else width > 0 && 0 <= v < Pow2(width)
  }

  class Distribution {
    const width: nat
    const sign: bool
    var ranges: seq<WeightedRange>

    constructor (width: nat, sign: bool)
      requires width > 1
      ensures this.width == width && this.sign == sign && ranges == []
    {
      this.width, this.sign, ranges := width, sign, [];
    }

    method Reset()
      modifies this
      ensures ranges == []
    {
      ranges := [];
    }

    /** Refused when an earlier range overlaps. */
    method AddRange(r: WeightedRange) returns (ok: bool)
      requires RangesOk(ranges) && r.weight < UINT64
      modifies this
      ensures RangesOk(ranges)
      ensures ok <==> forall i | 0 <= i < |old(ranges)| :: !old(ranges)[i].Overlap(r)
      ensures ok ==> |ranges| == |old(ranges)| + 1 && ranges[..|old(ranges)|] == old(ranges)
      ensures ok ==> ranges[|old(ranges)|] == r.(accumWeight := ranges[|old(ranges)|].accumWeight)
      ensures !ok ==> ranges == old(ranges)
    {
      for i := 0 to |ranges|
        invariant ranges == old(ranges) && forall k | 0 <= k < i :: !ranges[k].Overlap(r)
      {
        if ranges[i].Overlap(r) {
          return false;
        }
      }
      var wr := r;
      if ranges == [] {
        wr := wr.(accumWeight := wr.weight);
      } else {
        wr := wr.(accumWeight := (ranges[|ranges| - 1].accumWeight + wr.weight) % UINT64);
      }
      AddKeepsOk(ranges, wr);
      ranges := ranges + [wr];
      ok := true;
    }

    /** The greatest draw: one less than the total weight, in 64 bits. */
    function MaxDraw(): nat
      reads this
      requires ranges != []
    {
      (ranges[|ranges| - 1].accumWeight + UINT64 - 1) % UINT64
    }

    /** r is the draw that was made, if any. */
    method NextValue() returns (v: int, ghost r: nat)
      requires forall i | 0 <= i < |ranges| ::
        ranges[i].left <= ranges[i].right && InType(ranges[i].left, width, sign) && InType(ranges[i].right, width, sign)
      requires width > 1
      ensures InType(v, width, sign)
      ensures |ranges| > 1 ==> r <= MaxDraw() && ranges[Select(ranges, r)].Contains(v)
      ensures |ranges| == 1 ==> ranges[0].Contains(v)
    {
      r := 0;
      if ranges == [] {
        v := Draw(if sign then -Pow2(width - 1) else 0, if sign then Pow2(width - 1) - 1 else Pow2(width) - 1);
        return;
      }
      var selected := ranges[|ranges| - 1];
      if |ranges| > 1 {
        var draw: nat :| draw <= MaxDraw();
        r := draw;
        var i := 0;
        while i < |ranges|
          invariant 0 <= i <= |ranges| && selected == ranges[|ranges| - 1]
          invariant SelectFrom(ranges, draw, i) == Select(ranges, draw)
        {
          if draw < ranges[i].accumWeight {
            selected := ranges[i];
            break;
          }
          i := i + 1;
        }
        assert selected == ranges[Select(ranges, draw)];
      }
      v := Draw(selected.left, selected.right);
    }
  }

  /** Any value between the bounds. */
  method Draw(left: int, right: int) returns (v: int)
    requires left <= right
    ensures left <= v <= right
  {
    v :| left <= v <= right;
  }

  // ----- The shares of the ranges -----

  /** Range i is selected by the draws from the sum of the weights before it up to the sum with its own. */
  lemma {:induction false} SelectFromInterval(ranges: seq<WeightedRange>, r: nat, i: nat)
    requires ranges != [] && Accumulated(ranges) && Prefix(ranges, |ranges|) < UINT64
    requires i <= |ranges| && r < Prefix(ranges, |ranges|) && Prefix(ranges, i) <= r
    ensures var k := SelectFrom(ranges, r, i);
      Prefix(ranges, k) <= r < Prefix(ranges, k + 1)
    decreases |ranges| - i
  {
    if i < |ranges| {
      PrefixGrows(ranges, i + 1, |ranges|);
      if r >= ranges[i].accumWeight {
        SelectFromInterval(ranges, r, i + 1);
      }
    }
  }

  lemma SelectIff(ranges: seq<WeightedRange>, r: nat, i: nat)
    requires ranges != [] && Accumulated(ranges) && Prefix(ranges, |ranges|) < UINT64
    requires r < Prefix(ranges, |ranges|) && i < |ranges|
    ensures Select(ranges, r) == i <==> Prefix(ranges, i) <= r < Prefix(ranges, i + 1)
  {
    SelectFromInterval(ranges, r, 0);
    var k := Select(ranges, r);
    if k < i {
      PrefixGrows(ranges, k + 1, i);
    } else if i < k {
      PrefixGrows(ranges, i + 1, k);
    }
  }

  function Interval(a: nat, b: nat): set<nat> {
    if a >= b then {} else Interval(a, b - 1) + {b - 1}
  }

  lemma {:induction false} IntervalSize(a: nat, b: nat)
    requires a <= b
    ensures |Interval(a, b)| == b - a && forall r :: r in Interval(a, b) <==> a <= r < b
  {
    if a < b {
      IntervalSize(a, b - 1);
    }
  }

  /** The draws that select range i. */
  function Selecting(ranges: seq<WeightedRange>, i: nat): set<nat>
    requires ranges != []
  {
    set r | 0 <= r < Prefix(ranges, |ranges|) && Select(ranges, r) == i
  }

  /** Of all draws exactly as many select a range as its weight says. */
  lemma SharesAreWeights(ranges: seq<WeightedRange>, i: nat)
    requires RangesOk(ranges) && i < |ranges| && Prefix(ranges, |ranges|) < UINT64
    ensures |Selecting(ranges, i)| == ranges[i].weight
  {
    PrefixGrows(ranges, i + 1, |ranges|);
    IntervalSize(Prefix(ranges, i), Prefix(ranges, i + 1));
    forall r: nat
      ensures r in Selecting(ranges, i) <==> r in Interval(Prefix(ranges, i), Prefix(ranges, i + 1))
    {
      if r < Prefix(ranges, |ranges|) {
        SelectIff(ranges, r, i);
      }
    }
    assert Selecting(ranges, i) == Interval(Prefix(ranges, i), Prefix(ranges, i + 1));
  }

  /** When the total weight fits into 64 bits, the draws are those below it. */
  lemma DrawsAreBelowTotal(d: Distribution)
    requires RangesOk(d.ranges) && d.ranges != [] && 0 < Prefix(d.ranges, |d.ranges|) < UINT64
    ensures d.MaxDraw() == Prefix(d.ranges, |d.ranges|) - 1
  {
  }

  // ----- The formula -----

  function ConstantOf(v: int, width: nat, sign: bool): Node { ConstantExpr(Constant(v % Pow2(64), width, sign)) }

  function RangeFormula(r: WeightedRange, id: nat, width: nat, sign: bool): Node {
    var x := VariableExpr(id, width, sign);
    Binary(LogicalAnd, Binary(LessEqual, ConstantOf(r.left, width, sign), x),
      Binary(LessEqual, x, ConstantOf(r.right, width, sign)))
  }

  function RangesFormula(ranges: seq<WeightedRange>, id: nat, width: nat, sign: bool): Node
    requires ranges != []
  {
    var k := |ranges| - 1;
    if k == 0 then RangeFormula(ranges[0], id, width, sign)
    else Binary(LogicalOr, RangesFormula(ranges[..k], id, width, sign), RangeFormula(ranges[k], id, width, sign))
  }

  /** The formula is put together range by range. */
  method InRanges(ranges: seq<WeightedRange>, id: nat, width: nat, sign: bool) returns (f: Node)
    requires ranges != []
    ensures f == RangesFormula(ranges, id, width, sign)
  {
    f := RangeFormula(ranges[0], id, width, sign);
    assert ranges[..1] == [ranges[0]];
    for i := 1 to |ranges|
      invariant f == RangesFormula(ranges[..i], id, width, sign)
    {
      assert ranges[..i + 1][..i] == ranges[..i];
      f := Binary(LogicalOr, f, RangeFormula(ranges[i], id, width, sign));
    }
    assert ranges[..|ranges|] == ranges;
  }

  lemma IntOfWord(v: int, width: nat, sign: bool)
    requires InType(v, width, sign)
    ensures IntOf(sign, FromInt(v, width)) == v
  {
    if sign {
      SignedOfWord(v, width);
    } else {
      NumOfWord(v, width);
    }
  }

  lemma ModShift(v: int, p: int)
    requires 0 < p && 0 - p <= v < p
    ensures v % p == if v >= 0 then v else v + p
  {
  }

  /** A value of the type survives the way through the 64-bit constant. */
  lemma ConstantKeeps(v: int, width: nat, sign: bool)
    requires InType(v, width, sign) && 1 < width <= 64
    ensures ConstantVal(ConstantOf(v, width, sign).constant) == WordVal(FromInt(v, width))
  {
    Pow2Monotone(width, 64);
    Pow2Monotone(width - 1, 63);
    ConstantNumber(v, width, sign);
    hide FromInt;
  }

  lemma ConstantNumber(v: int, width: nat, sign: bool)
    requires InType(v, width, sign) && 1 < width && Pow2(width) <= Pow2(64) && Pow2(width - 1) <= Pow2(63)
    ensures (if sign then AsInt64(v % Pow2(64)) else v % Pow2(64)) == v
  {
    hide Pow2;
    DoublePow();
    ModShift(v, Pow2(64));
    ModShift(v % Pow2(64), Pow2(64));
  }

  lemma DoublePow()
    ensures Pow2(64) == 2 * Pow2(63) && Pow2(63) > 0
  {
  }

  lemma LessEqualWords(sign: bool, a: int, b: int, width: nat)
    requires InType(a, width, sign) && InType(b, width, sign)
    ensures ApplyBinary(LessEqual, sign, sign, WordVal(FromInt(a, width)), WordVal(FromInt(b, width)))
      == BoolVal(a <= b)
  {
    IntOfWord(a, width, sign);
    IntOfWord(b, width, sign);
    hide FromInt, Pow2, IntOf;
  }

  ghost predicate RangeTyped(r: WeightedRange, width: nat, sign: bool) {
    InType(r.left, width, sign) && InType(r.right, width, sign)
  }

  /** The variable has value v. */
  ghost predicate Carries(m: Model, id: nat, v: int, width: nat) { m(id) == WordVal(FromInt(v, width)) }

  lemma RangeMeans(r: WeightedRange, id: nat, width: nat, sign: bool, m: Model, v: int)
    requires 1 < width <= 64 && RangeTyped(r, width, sign) && InType(v, width, sign) && Carries(m, id, v, width)
    ensures Denote(RangeFormula(r, id, width, sign), m) == BoolVal(r.Contains(v))
  {
    var x, l, h := VariableExpr(id, width, sign), ConstantOf(r.left, width, sign), ConstantOf(r.right, width, sign);
    ConstantKeeps(r.left, width, sign);
    ConstantKeeps(r.right, width, sign);
    LessEqualWords(sign, r.left, v, width);
    LessEqualWords(sign, v, r.right, width);
    EvalBinary(false, LessEqual, l, x, Scalar(m));
    EvalBinary(false, LessEqual, x, h, Scalar(m));
    EvalBinary(false, LogicalAnd, Binary(LessEqual, l, x), Binary(LessEqual, x, h), Scalar(m));
    hide FromInt, ConstantVal;
  }

  /** The formula is true of a value exactly when some range contains it. */
  lemma {:induction false} RangesMean(ranges: seq<WeightedRange>, id: nat, width: nat, sign: bool, m: Model, v: int)
    requires ranges != [] && 1 < width <= 64 && InType(v, width, sign) && Carries(m, id, v, width)
    requires forall i | 0 <= i < |ranges| :: RangeTyped(ranges[i], width, sign)
    ensures Denote(RangesFormula(ranges, id, width, sign), m)
      == BoolVal(exists i :: 0 <= i < |ranges| && ranges[i].Contains(v))
  {
    hide InType, Carries, RangeFormula, RangeTyped;
    var k := |ranges| - 1;
    RangeMeans(ranges[k], id, width, sign, m, v);
    if k > 0 {
      var init := ranges[..k];
      RangesMean(init, id, width, sign, m, v);
      EvalBinary(false, LogicalOr, RangesFormula(init, id, width, sign), RangeFormula(ranges[k], id, width, sign),
        Scalar(m));
      if i :| 0 <= i < |init| && init[i].Contains(v) {
        assert ranges[i].Contains(v);
      }
      if i :| 0 <= i < |ranges| && ranges[i].Contains(v) {
        assert i == k || init[i].Contains(v);
      }
    }
  }

  /** Every draw satisfies the formula of the same distribution. */
  lemma DrawSatisfies(ranges: seq<WeightedRange>, r: nat, id: nat, width: nat, sign: bool, m: Model, v: int)
    requires ranges != [] && 1 < width <= 64 && InType(v, width, sign) && Carries(m, id, v, width)
    requires forall i | 0 <= i < |ranges| :: RangeTyped(ranges[i], width, sign)
    requires ranges[if |ranges| > 1 then Select(ranges, r) else 0].Contains(v)
    ensures Denote(RangesFormula(ranges, id, width, sign), m) == BoolVal(true)
  {
    RangesMean(ranges, id, width, sign, m, v);
  }
}
