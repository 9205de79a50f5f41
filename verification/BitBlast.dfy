/**
 The bit-blaster: every operator on vectors of gate references adds gates to the
 table and returns the vector whose value, under every assignment, is the
 operator applied to the values of its operands.
 */
module BitBlasting {
  import opened Bits
  import opened SmtLib
  import opened Gates
  import opened WordLemmas
  import opened Division

  type Vector = seq<Ref>

  /** The bits of v that remain to be written follow those already written. */
  ghost predicate Encoded(v: int, w: nat, rest: int, done: Word) {
    |done| <= w && FromInt(v, w) == done + FromInt(rest, w - |done|)
  }

  lemma EncodeStep(v: int, w: nat, rest: int, done: Word)
    requires Encoded(v, w, rest, done) && |done| < w
    ensures Encoded(v, w, rest / 2, done + [rest % 2 == 1])
  {
  }

  class BitBlast {
    var gates: Table
    /** The gates asserted so far. */
    var assertions: seq<Ref>

    constructor ()
      ensures gates == [] && assertions == []
    {
      gates, assertions := [], [];
    }

    method Assertion(e: Ref)
      modifies this`assertions
      ensures assertions == old(assertions) + [e]
    {
      assertions := assertions + [e];
    }

    /** Ask the Boolean solver for a gate. */
    method Emit(g: Gate) returns (r: Ref)
      requires Reads(g, |gates|)
      modifies this`gates
      ensures r == |old(gates)| && gates == old(gates) + [g]
      ensures Keeps(old(gates), gates)
      ensures forall env :: Eval(gates, r, env) == GateValue(old(gates), g, env)
    {
      r := |gates|;
      gates := gates + [g];
      PrefixKeeps(old(gates), gates);
      forall env
        ensures Eval(gates, r, env) == GateValue(old(gates), g, env)
      {
        AppendValue(old(gates), g, env);
      }
    }

    // ----- Constants -----

    /** Shared by the signed and the unsigned constant: the value is halved bit by bit. */
    method Constant(value: int, width: nat) returns (ret: Vector)
      modifies this`gates
      ensures Keeps(old(gates), gates) && Ok(gates, ret) && |ret| == width
      ensures forall env :: Value(gates, ret, env) == FromInt(value, width)
    {
      var one: Ref := Emit(True);
      var zero: Ref := Emit(False);
      ret := [];
      var rest := value;
      for i := 0 to width
        invariant |ret| == i && Ok(gates, ret)
        invariant forall env :: Encoded(value, width, rest, Value(gates, ret, env))
      {
        ghost var r1 := ret;
        ret := ret + [if rest % 2 == 1 then one else zero];
        forall env
          ensures Encoded(value, width, rest / 2, Value(gates, ret, env))
        {
          EncodeStep(value, width, rest, Value(gates, r1, env));
          PushValue(gates, gates, r1, ret[i], env);
        }
        rest := rest / 2;
      }
    }

    method BvZeros(n: nat) returns (ret: Vector)
      modifies this`gates
      ensures Keeps(old(gates), gates) && Ok(gates, ret) && |ret| == n
      ensures forall env :: Value(gates, ret, env) == Zeros(n)
    {
      var zero: Ref := Emit(False);
      ret := seq(n, _ => zero);
    }

    // ----- Bitwise operators -----

    method Bvnot(a: Vector) returns (ret: Vector)
      requires Ok(gates, a)
      modifies this`gates
      ensures Keeps(old(gates), gates) && Ok(gates, ret) && |ret| == |a|
      ensures forall env :: Value(gates, ret, env) == BvNot(Value(old(gates), a, env))
    {
      ghost var t := gates;
      ret := [];
      for i := 0 to |a|
        invariant Keeps(t, gates) && Ok(gates, ret) && |ret| == i
        invariant forall env :: Value(gates, ret, env) == BvNot(Value(t, a, env))[..i]
      {
        ghost var t1, r1 := gates, ret;
        var r := Emit(Not(a[i]));
        ret := ret + [r];
        forall env
          ensures Value(gates, ret, env) == BvNot(Value(t, a, env))[..i + 1]
        {
          PushValue(t1, gates, r1, r, env);
          NextBit(BvNot(Value(t, a, env)), i);
        }
      }
    }

    method Bvand(a: Vector, b: Vector) returns (ret: Vector)
      requires Ok(gates, a) && Ok(gates, b) && |a| == |b|
      modifies this`gates
      ensures Keeps(old(gates), gates) && Ok(gates, ret) && |ret| == |a|
      ensures forall env :: Value(gates, ret, env) == BvAnd(Value(old(gates), a, env), Value(old(gates), b, env))
    {
      ghost var t := gates;
      ret := [];
      for i := 0 to |a|
        invariant Keeps(t, gates) && Ok(gates, ret) && |ret| == i
        invariant forall env :: Value(gates, ret, env) == BvAnd(Value(t, a, env), Value(t, b, env))[..i]
      {
        ghost var t1, r1 := gates, ret;
        var r := Emit(And(a[i], b[i]));
        ret := ret + [r];
        forall env
          ensures Value(gates, ret, env) == BvAnd(Value(t, a, env), Value(t, b, env))[..i + 1]
        {
          PushValue(t1, gates, r1, r, env);
          NextBit(BvAnd(Value(t, a, env), Value(t, b, env)), i);
        }
      }
    }

    method Bvor(a: Vector, b: Vector) returns (ret: Vector)
      requires Ok(gates, a) && Ok(gates, b) && |a| == |b|
      modifies this`gates
      ensures Keeps(old(gates), gates) && Ok(gates, ret) && |ret| == |a|
      ensures forall env :: Value(gates, ret, env) == BvOr(Value(old(gates), a, env), Value(old(gates), b, env))
    {
      ghost var t := gates;
      ret := [];
      for i := 0 to |a|
        invariant Keeps(t, gates) && Ok(gates, ret) && |ret| == i
        invariant forall env :: Value(gates, ret, env) == BvOr(Value(t, a, env), Value(t, b, env))[..i]
      {
        ghost var t1, r1 := gates, ret;
        var r := Emit(Or(a[i], b[i]));
        ret := ret + [r];
        forall env
          ensures Value(gates, ret, env) == BvOr(Value(t, a, env), Value(t, b, env))[..i + 1]
        {
          PushValue(t1, gates, r1, r, env);
          NextBit(BvOr(Value(t, a, env), Value(t, b, env)), i);
        }
      }
    }

    method Bvxor(a: Vector, b: Vector) returns (ret: Vector)
      requires Ok(gates, a) && Ok(gates, b) && |a| == |b|
      modifies this`gates
      ensures Keeps(old(gates), gates) && Ok(gates, ret) && |ret| == |a|
      ensures forall env :: Value(gates, ret, env) == BvXor(Value(old(gates), a, env), Value(old(gates), b, env))
    {
      ghost var t := gates;
      ret := [];
      for i := 0 to |a|
        invariant Keeps(t, gates) && Ok(gates, ret) && |ret| == i
        invariant forall env :: Value(gates, ret, env) == BvXor(Value(t, a, env), Value(t, b, env))[..i]
      {
        ghost var t1, r1 := gates, ret;
        var r := Emit(Xor(a[i], b[i]));
        ret := ret + [r];
        forall env
          ensures Value(gates, ret, env) == BvXor(Value(t, a, env), Value(t, b, env))[..i + 1]
        {
          PushValue(t1, gates, r1, r, env);
          NextBit(BvXor(Value(t, a, env), Value(t, b, env)), i);
        }
      }
    }

    // ----- Arithmetic -----

    method FullAdder(a: Ref, b: Ref, carry: Ref) returns (sum: Ref, carry': Ref)
      requires a < |gates| && b < |gates| && carry < |gates|
      modifies this`gates
      ensures Keeps(old(gates), gates) && sum < |gates| && carry' < |gates|
      ensures forall env ::
        Bit(Eval(gates, sum, env)) + 2 * Bit(Eval(gates, carry', env))
        == Bit(Eval(old(gates), a, env)) + Bit(Eval(old(gates), b, env)) + Bit(Eval(old(gates), carry, env))
    {
      var xor1 := Emit(Xor(a, b));
      sum := Emit(Xor(xor1, carry));
      var and1 := Emit(And(a, b));
      var or1 := Emit(Or(a, b));
      var and2 := Emit(And(carry, or1));
      carry' := Emit(Or(and1, and2));
    }

    method Bvadd(a: Vector, b: Vector) returns (ret: Vector)
      requires Ok(gates, a) && Ok(gates, b) && |a| == |b|
      modifies this`gates
      ensures Keeps(old(gates), gates) && Ok(gates, ret) && |ret| == |a|
      ensures forall env :: Value(gates, ret, env) == BvAdd(Value(old(gates), a, env), Value(old(gates), b, env))
    {
      ghost var t := gates;
      ret := [];
      var carry: Ref := Emit(False);
      forall env
        ensures Rippled(Value(t, a, env), Value(t, b, env), 0, Value(gates, ret, env), Eval(gates, carry, env))
      {
      }
      for i := 0 to |a|
        invariant Keeps(t, gates) && Ok(gates, ret) && |ret| == i && carry < |gates|
        invariant forall env ::
          Rippled(Value(t, a, env), Value(t, b, env), i, Value(gates, ret, env), Eval(gates, carry, env))
      {
        ghost var t1, r1, c1 := gates, ret, carry;
        var s;
        s, carry := FullAdder(a[i], b[i], carry);
        ret := ret + [s];
        forall env
          ensures Rippled(Value(t, a, env), Value(t, b, env), i + 1, Value(gates, ret, env), Eval(gates, carry, env))
        {
          PushValue(t1, gates, r1, s, env);
          RippleStep(Value(t, a, env), Value(t, b, env), i,
            Value(t1, r1, env), Eval(t1, c1, env), Eval(gates, s, env), Eval(gates, carry, env));
        }
      }
      forall env
        ensures Value(gates, ret, env) == BvAdd(Value(t, a, env), Value(t, b, env))
      {
        RippleDone(Value(t, a, env), Value(t, b, env), Value(gates, ret, env), Eval(gates, carry, env));
      }
    }

    method Bvneg(a: Vector) returns (ret: Vector)
      requires Ok(gates, a) && a != []
      modifies this`gates
      ensures Keeps(old(gates), gates) && Ok(gates, ret) && |ret| == |a|
      ensures forall env :: Value(gates, ret, env) == BvNeg(Value(old(gates), a, env))
    {
      ghost var t := gates;
      var zero: Ref := Emit(False);
      var one: Ref := Emit(True);
      var tmp1 := seq(|a|, i => if i == 0 then one else zero);
      ghost var t1 := gates;
      var tmp2 := Bvnot(a);
      ghost var t2 := gates;
      ret := Bvadd(tmp2, tmp1);
      forall env
        ensures Value(gates, ret, env) == BvNeg(Value(t, a, env))
      {
        KeepsValue(t, t1, a, env);
        KeepsValue(t1, t2, tmp1, env);
        assert Value(t1, tmp1, env) == One(|a|);
        NegIsNotPlusOne(Value(t, a, env));
      }
    }

    method Bvsub(a: Vector, b: Vector) returns (ret: Vector)
      requires Ok(gates, a) && Ok(gates, b) && |a| == |b| > 0
      modifies this`gates
      ensures Keeps(old(gates), gates) && Ok(gates, ret) && |ret| == |a|
      ensures forall env :: Value(gates, ret, env) == BvSub(Value(old(gates), a, env), Value(old(gates), b, env))
    {
      ghost var t := gates;
      var tmp := Bvneg(b);
      ghost var t1 := gates;
      ret := Bvadd(a, tmp);
      forall env
        ensures Value(gates, ret, env) == BvSub(Value(t, a, env), Value(t, b, env))
      {
        KeepsValue(t, t1, a, env);
        SubIsAddNeg(Value(t, a, env), Value(t, b, env));
      }
    }

    method Bvmul(a: Vector, b: Vector) returns (ret: Vector)
      requires Ok(gates, a) && Ok(gates, b) && |a| == |b|
      modifies this`gates
      ensures Keeps(old(gates), gates) && Ok(gates, ret) && |ret| == |a|
      ensures forall env :: Value(gates, ret, env) == BvMul(Value(old(gates), a, env), Value(old(gates), b, env))
    {
      ghost var t := gates;
      ret := BvZeros(|a|);
      forall env
        ensures Multiplied(Value(t, a, env), Value(t, b, env), 0, Value(gates, ret, env))
      {
        MulStart(Value(t, a, env), Value(t, b, env));
      }
      for i := 0 to |a|
        invariant Keeps(t, gates) && Ok(gates, ret) && |ret| == |a|
        invariant forall env :: Multiplied(Value(t, a, env), Value(t, b, env), i, Value(gates, ret, env))
      {
        ghost var t1, r1 := gates, ret;
        var tmp := SignExtendVec(|a| - 1, [a[i]]);
        tmp := Bvand(b, tmp);
        tmp := ShiftLeft(tmp, i);
        ghost var t2 := gates;
        ret := Bvadd(ret, tmp);
        forall env
          ensures Multiplied(Value(t, a, env), Value(t, b, env), i + 1, Value(gates, ret, env))
        {
          var x, y := Value(t, a, env), Value(t, b, env);
          KeepsValue(t, t1, b, env);
          KeepsValue(t1, t2, r1, env);
          assert SignExtend(|a| - 1, [x[i]]) == seq(|a|, _ => x[i]);
          assert Value(t1, [a[i]], env) == [x[i]];
          MulStep(x, y, i, Value(t1, r1, env));
        }
      }
      forall env
        ensures Value(gates, ret, env) == BvMul(Value(t, a, env), Value(t, b, env))
      {
        MulDone(Value(t, a, env), Value(t, b, env), Value(gates, ret, env));
      }
    }

    // ----- Width changes; only the padding of zeros needs a gate -----

    method ZeroExtendVec(width: nat, a: Vector) returns (ret: Vector)
      requires Ok(gates, a)
      modifies this`gates
      ensures Keeps(old(gates), gates) && Ok(gates, ret) && |ret| == |a| + width
      ensures forall env :: Value(gates, ret, env) == ZeroExtend(width, Value(old(gates), a, env))
    {
      var zero: Ref := Emit(False);
      ret := a + seq(width, _ => zero);
    }

    method SignExtendVec(width: nat, a: Vector) returns (ret: Vector)
      requires Ok(gates, a) && a != []
      ensures Ok(gates, ret) && |ret| == |a| + width
      ensures forall env :: Value(gates, ret, env) == SignExtend(width, Value(gates, a, env))
    {
      ret := a + seq(width, _ => a[|a| - 1]);
    }

    method ExtractVec(upper: nat, lower: nat, a: Vector) returns (ret: Vector)
      requires Ok(gates, a) && lower <= upper < |a|
      ensures Ok(gates, ret) && |ret| == upper - lower + 1
      ensures forall env :: Value(gates, ret, env) == Extract(upper, lower, Value(gates, a, env))
    {
      ret := a[lower..upper + 1];
    }

    method ConcatVec(a: Vector, b: Vector) returns (ret: Vector)
      requires Ok(gates, a) && Ok(gates, b)
      ensures Ok(gates, ret) && |ret| == |a| + |b|
      ensures forall env :: Value(gates, ret, env) == Concat(Value(gates, a, env), Value(gates, b, env))
    {
      ret := b + a;
    }

    // ----- Shifts -----

    method ShiftLeft(a: Vector, value: nat) returns (ret: Vector)
      requires Ok(gates, a)
      modifies this`gates
      ensures Keeps(old(gates), gates) && Ok(gates, ret) && |ret| == |a|
      ensures forall env :: Value(gates, ret, env) == ShiftL(Value(old(gates), a, env), value)
    {
      ghost var t := gates;
      if value == 0 {
        return a;
      }
      ret := [];
      for i := 0 to |a|
        invariant Keeps(t, gates) && Ok(gates, ret) && |ret| == i
        invariant forall env :: Value(gates, ret, env) == ShiftL(Value(t, a, env), value)[..i]
      {
        ghost var t1, r1 := gates, ret;
        var r: Ref;
        if i < value {
          r := Emit(False);
        } else {
          r := a[i - value];
        }
        ret := ret + [r];
        forall env
          ensures Value(gates, ret, env) == ShiftL(Value(t, a, env), value)[..i + 1]
        {
          PushValue(t1, gates, r1, r, env);
          NextBit(ShiftL(Value(t, a, env), value), i);
        }
      }
    }

    /** Needs no gate: the freed places take the given reference. */
    method ShiftRight(a: Vector, value: nat, fill: Ref) returns (ret: Vector)
      requires Ok(gates, a) && fill < |gates|
      ensures Ok(gates, ret) && |ret| == |a|
      ensures forall env :: Value(gates, ret, env) == ShiftR(Value(gates, a, env), value, Eval(gates, fill, env))
    {
      if value == 0 {
        return a;
      }
      ret := [];
      for i := 0 to |a|
        invariant |ret| == i
        invariant forall j | 0 <= j < i :: ret[j] == if j + value < |a| then a[j + value] else fill
      {
        ret := ret + [if i + value < |a| then a[i + value] else fill];
      }
    }

    // ----- Equality, choice -----

    method EqualVec(a: Vector, b: Vector) returns (ret: Ref)
      requires Ok(gates, a) && Ok(gates, b) && |a| == |b|
      modifies this`gates
      ensures Keeps(old(gates), gates) && ret < |gates|
      ensures forall env :: Eval(gates, ret, env) == (Value(old(gates), a, env) == Value(old(gates), b, env))
    {
      ghost var t := gates;
      ret := Emit(True);
      for i := 0 to |a|
        invariant Keeps(t, gates) && ret < |gates|
        invariant forall env :: Eval(gates, ret, env) == (Value(t, a, env)[..i] == Value(t, b, env)[..i])
      {
        ghost var t1, r1 := gates, ret;
        var cur := Emit(Equal(a[i], b[i]));
        ret := Emit(And(cur, ret));
        forall env
          ensures Eval(gates, ret, env) == (Value(t, a, env)[..i + 1] == Value(t, b, env)[..i + 1])
        {
          SamePrefix(Value(t, a, env), Value(t, b, env), i);
        }
      }
      forall env
        ensures Eval(gates, ret, env) == (Value(t, a, env) == Value(t, b, env))
      {
        WholePrefix(Value(t, a, env));
        WholePrefix(Value(t, b, env));
      }
    }

    method NequalVec(a: Vector, b: Vector) returns (ret: Ref)
      requires Ok(gates, a) && Ok(gates, b) && |a| == |b|
      modifies this`gates
      ensures Keeps(old(gates), gates) && ret < |gates|
      ensures forall env :: Eval(gates, ret, env) == (Value(old(gates), a, env) != Value(old(gates), b, env))
    {
      ghost var t := gates;
      ret := Emit(False);
      for i := 0 to |a|
        invariant Keeps(t, gates) && ret < |gates|
        invariant forall env :: Eval(gates, ret, env) == (Value(t, a, env)[..i] != Value(t, b, env)[..i])
      {
        ghost var t1, r1 := gates, ret;
        var cur := Emit(Nequal(a[i], b[i]));
        ret := Emit(Or(cur, ret));
        forall env
          ensures Eval(gates, ret, env) == (Value(t, a, env)[..i + 1] != Value(t, b, env)[..i + 1])
        {
          SamePrefix(Value(t, a, env), Value(t, b, env), i);
        }
      }
      forall env
        ensures Eval(gates, ret, env) == (Value(t, a, env) != Value(t, b, env))
      {
        WholePrefix(Value(t, a, env));
        WholePrefix(Value(t, b, env));
      }
    }

    method IteVec(c: Ref, a: Vector, b: Vector) returns (ret: Vector)
      requires c < |gates| && Ok(gates, a) && Ok(gates, b) && |a| == |b|
      modifies this`gates
      ensures Keeps(old(gates), gates) && Ok(gates, ret) && |ret| == |a|
      ensures forall env ::
        Value(gates, ret, env) == if Eval(old(gates), c, env) then Value(old(gates), a, env)
          else Value(old(gates), b, env)
    {
      ghost var t := gates;
      ret := [];
      for i := 0 to |a|
        invariant Keeps(t, gates) && Ok(gates, ret) && |ret| == i
        invariant forall env ::
          Value(gates, ret, env) == (if Eval(t, c, env) then Value(t, a, env) else Value(t, b, env))[..i]
      {
        ghost var t1, r1 := gates, ret;
        var r := Emit(Ite(c, a[i], b[i]));
        ret := ret + [r];
        forall env
          ensures Value(gates, ret, env) == (if Eval(t, c, env) then Value(t, a, env) else Value(t, b, env))[..i + 1]
        {
          PushValue(t1, gates, r1, r, env);
          NextBit(if Eval(t, c, env) then Value(t, a, env) else Value(t, b, env), i);
        }
      }
    }

    // ----- Comparisons, from the most significant bit down -----

    /** One place of a "less" scan: a smaller here decides, unless a higher place already differs. */
    method LessBit(a: Ref, b: Ref, ret0: Ref, equal0: Ref) returns (ret: Ref, equal: Ref)
      requires a < |gates| && b < |gates| && ret0 < |gates| && equal0 < |gates|
      modifies this`gates
      ensures Keeps(old(gates), gates) && ret < |gates| && equal < |gates|
      ensures forall env ::
        Eval(gates, ret, env)
        == (Eval(old(gates), ret0, env)
          || (Eval(old(gates), equal0, env) && !Eval(old(gates), a, env) && Eval(old(gates), b, env)))
      ensures forall env ::
        Eval(gates, equal, env)
          == ((Eval(old(gates), a, env) == Eval(old(gates), b, env)) && Eval(old(gates), equal0, env))
    {
      var notA := Emit(Not(a));
      var nowLess := Emit(And(notA, b));
      var now := Emit(And(equal0, nowLess));
      var nowEqual := Emit(Xnor(a, b));
      equal := Emit(And(nowEqual, equal0));
      ret := Emit(Or(ret0, now));
    }

    method GreaterBit(a: Ref, b: Ref, ret0: Ref, equal0: Ref) returns (ret: Ref, equal: Ref)
      requires a < |gates| && b < |gates| && ret0 < |gates| && equal0 < |gates|
      modifies this`gates
      ensures Keeps(old(gates), gates) && ret < |gates| && equal < |gates|
      ensures forall env ::
        Eval(gates, ret, env)
        == (Eval(old(gates), ret0, env)
          || (Eval(old(gates), equal0, env) && !Eval(old(gates), b, env) && Eval(old(gates), a, env)))
      ensures forall env ::
        Eval(gates, equal, env)
          == ((Eval(old(gates), b, env) == Eval(old(gates), a, env)) && Eval(old(gates), equal0, env))
    {
      var notB := Emit(Not(b));
      var nowGreat := Emit(And(a, notB));
      var now := Emit(And(equal0, nowGreat));
      var nowEqual := Emit(Xnor(a, b));
      equal := Emit(And(nowEqual, equal0));
      ret := Emit(Or(ret0, now));
    }

    /** The scan of the four "less" comparisons below the top bit. */
    method LessScan(a: Vector, b: Vector, ret0: Ref, equal0: Ref) returns (ret: Ref, equal: Ref)
      requires Ok(gates, a) && Ok(gates, b) && |a| == |b| > 0 && ret0 < |gates| && equal0 < |gates|
      modifies this`gates
      ensures Keeps(old(gates), gates) && ret < |gates| && equal < |gates|
      ensures forall env :: Compared(Value(old(gates), a, env), Value(old(gates), b, env), 0,
        Eval(old(gates), ret0, env), Eval(old(gates), equal0, env), Eval(gates, ret, env), Eval(gates, equal, env))
    {
      ghost var t := gates;
      ret, equal := ret0, equal0;
      for k := |a| - 1 downto 0
        invariant Keeps(t, gates) && ret < |gates| && equal < |gates|
        invariant forall env :: Compared(Value(t, a, env), Value(t, b, env), k,
          Eval(t, ret0, env), Eval(t, equal0, env), Eval(gates, ret, env), Eval(gates, equal, env))
      {
        ghost var t1, r1, e1 := gates, ret, equal;
        ret, equal := LessBit(a[k], b[k], ret, equal);
        forall env
          ensures Compared(Value(t, a, env), Value(t, b, env), k,
            Eval(t, ret0, env), Eval(t, equal0, env), Eval(gates, ret, env), Eval(gates, equal, env))
        {
          CompareStep(Value(t, a, env), Value(t, b, env), k + 1,
            Eval(t, ret0, env), Eval(t, equal0, env), Eval(t1, r1, env), Eval(t1, e1, env));
        }
      }
    }

    /** The scan of the four "greater" comparisons below the top bit. */
    method GreaterScan(a: Vector, b: Vector, ret0: Ref, equal0: Ref) returns (ret: Ref, equal: Ref)
      requires Ok(gates, a) && Ok(gates, b) && |a| == |b| > 0 && ret0 < |gates| && equal0 < |gates|
      modifies this`gates
      ensures Keeps(old(gates), gates) && ret < |gates| && equal < |gates|
      ensures forall env :: Compared(Value(old(gates), b, env), Value(old(gates), a, env), 0,
        Eval(old(gates), ret0, env), Eval(old(gates), equal0, env), Eval(gates, ret, env), Eval(gates, equal, env))
    {
      ghost var t := gates;
      ret, equal := ret0, equal0;
      for k := |a| - 1 downto 0
        invariant Keeps(t, gates) && ret < |gates| && equal < |gates|
        invariant forall env :: Compared(Value(t, b, env), Value(t, a, env), k,
          Eval(t, ret0, env), Eval(t, equal0, env), Eval(gates, ret, env), Eval(gates, equal, env))
      {
        ghost var t1, r1, e1 := gates, ret, equal;
        ret, equal := GreaterBit(a[k], b[k], ret, equal);
        forall env
          ensures Compared(Value(t, b, env), Value(t, a, env), k,
            Eval(t, ret0, env), Eval(t, equal0, env), Eval(gates, ret, env), Eval(gates, equal, env))
        {
          CompareStep(Value(t, b, env), Value(t, a, env), k + 1,
            Eval(t, ret0, env), Eval(t, equal0, env), Eval(t1, r1, env), Eval(t1, e1, env));
        }
      }
    }

    /** The top place: read as the highest place, or as a sign with its weight turned round. */
    method TopPlace(up: bool, c: Ref, d: Ref) returns (first: Ref, equal: Ref)
      requires c < |gates| && d < |gates|
      modifies this`gates
      ensures Keeps(old(gates), gates) && first < |gates| && equal < |gates|
      ensures forall env ::
        Eval(gates, first, env)
          == (Eval(old(gates), c, env) != Eval(old(gates), d, env) && Eval(old(gates), d, env) == up)
      ensures forall env :: Eval(gates, equal, env) == (Eval(old(gates), c, env) == Eval(old(gates), d, env))
    {
      var n;
      if up {
        n := Emit(Not(c));
        first := Emit(And(n, d));
      } else {
        n := Emit(Not(d));
        first := Emit(And(c, n));
      }
      equal := Emit(Xnor(c, d));
    }

    method Below(signed: bool, a: Vector, b: Vector) returns (ret: Ref, equal: Ref)
      requires Ok(gates, a) && Ok(gates, b) && |a| == |b| > 0
      modifies this`gates
      ensures Keeps(old(gates), gates) && ret < |gates| && equal < |gates|
      ensures forall env :: Ordered(signed, Value(old(gates), a, env), Value(old(gates), b, env),
        Eval(gates, ret, env), Eval(gates, equal, env))
    {
      ghost var t := gates;
      var first, equal0 := TopPlace(!signed, a[|a| - 1], b[|b| - 1]);
      ghost var t1 := gates;
      ret, equal := LessScan(a, b, first, equal0);
      forall env
        ensures Ordered(signed, Value(t, a, env), Value(t, b, env), Eval(gates, ret, env), Eval(gates, equal, env))
      {
        KeepsValue(t, t1, a, env);
        KeepsValue(t, t1, b, env);
        CompareDone(signed, Value(t, a, env), Value(t, b, env), Eval(gates, ret, env), Eval(gates, equal, env));
      }
    }

    method Above(signed: bool, a: Vector, b: Vector) returns (ret: Ref, equal: Ref)
      requires Ok(gates, a) && Ok(gates, b) && |a| == |b| > 0
      modifies this`gates
      ensures Keeps(old(gates), gates) && ret < |gates| && equal < |gates|
      ensures forall env :: Ordered(signed, Value(old(gates), b, env), Value(old(gates), a, env),
        Eval(gates, ret, env), Eval(gates, equal, env))
    {
      ghost var t := gates;
      var first, equal0 := TopPlace(signed, a[|a| - 1], b[|b| - 1]);
      ghost var t1 := gates;
      ret, equal := GreaterScan(a, b, first, equal0);
      forall env
        ensures Ordered(signed, Value(t, b, env), Value(t, a, env), Eval(gates, ret, env), Eval(gates, equal, env))
      {
        KeepsValue(t, t1, a, env);
        KeepsValue(t, t1, b, env);
        CompareDone(signed, Value(t, b, env), Value(t, a, env), Eval(gates, ret, env), Eval(gates, equal, env));
      }
    }

    /** All eight comparisons; the weak ones also accept equality. */
    method Compare(op: Comparison, a: Vector, b: Vector) returns (ret: Ref)
      requires Ok(gates, a) && Ok(gates, b) && |a| == |b| > 0
      modifies this`gates
      ensures Keeps(old(gates), gates) && ret < |gates|
      ensures forall env :: Eval(gates, ret, env) == BvCompare(op, Value(old(gates), a, env), Value(old(gates), b, env))
    {
      var equal;
      if op in {Ult, Ule, Slt, Sle} {
        ret, equal := Below(op in {Slt, Sle}, a, b);
      } else {
        ret, equal := Above(op in {Sgt, Sge}, a, b);
      }
      if op in {Ule, Uge, Sle, Sge} {
        ret := Emit(Or(ret, equal));
      }
    }

    // ----- Shifts by a vector -----

    /** One amount of a barrel shift: where value is i the result becomes the copy shifted by i. */
    method ShiftSelect(d: Direction, a: Vector, value: Vector, i: nat, fill: Ref, ret0: Vector) returns (ret: Vector)
      requires Ok(gates, a) && Ok(gates, value) && Ok(gates, ret0) && |a| == |value| == |ret0| && fill < |gates|
      requires forall env :: Eval(gates, fill, env) == (d == ArithRight && Msb(Value(gates, a, env)))
      modifies this`gates
      ensures Keeps(old(gates), gates) && Ok(gates, ret) && |ret| == |a|
      ensures forall env ::
        Value(gates, ret, env)
        == if Value(old(gates), value, env) == FromInt(i, |a|) then ShiftBy(d, Value(old(gates), a, env), i)
           else Value(old(gates), ret0, env)
    {
      ghost var t := gates;
      var index := Constant(i, |a|);
      ghost var t1 := gates;
      var same := EqualVec(value, index);
      ghost var t2 := gates;
      var moved;
      if d == Left {
        moved := ShiftLeft(a, i);
      } else {
        moved := ShiftRight(a, i, fill);
      }
      ghost var t3 := gates;
      ret := IteVec(same, moved, ret0);
      forall env
        ensures Value(gates, ret, env) ==
          if Value(t, value, env) == FromInt(i, |a|) then ShiftBy(d, Value(t, a, env), i) else Value(t, ret0, env)
      {
        KeepsValue(t, t1, value, env);
        KeepsValue(t, t2, a, env);
        KeepsValue(t, t3, ret0, env);
      }
    }

    /** The three barrel shifts: every amount below the width selects its shifted copy. */
    method Shift(d: Direction, a: Vector, value: Vector) returns (ret: Vector)
      requires Ok(gates, a) && Ok(gates, value) && |a| == |value| > 0
      modifies this`gates
      ensures Keeps(old(gates), gates) && Ok(gates, ret) && |ret| == |a|
      ensures forall env ::
        Value(gates, ret, env) == BvShift(d, Value(old(gates), a, env), Value(old(gates), value, env))
    {
      ghost var t := gates;
      var fill: Ref := a[|a| - 1];
      if d != ArithRight {
        fill := Emit(False);
      }
      ret := seq(|a|, _ => fill);
      forall env
        ensures Selected(d, Value(t, a, env), Value(t, value, env), 0, Value(gates, ret, env))
      {
        SelectStart(d, Value(t, a, env), Value(t, value, env));
        assert Value(gates, ret, env) == seq(|a|, _ => d == ArithRight && Msb(Value(t, a, env)));
      }
      for i := 0 to |a|
        invariant Keeps(t, gates) && Ok(gates, ret) && |ret| == |a| && fill < |gates|
        invariant forall env :: Eval(gates, fill, env) == (d == ArithRight && Msb(Value(t, a, env)))
        invariant forall env :: Selected(d, Value(t, a, env), Value(t, value, env), i, Value(gates, ret, env))
      {
        ghost var t1, r1 := gates, ret;
        forall env
          ensures Value(t1, a, env) == Value(t, a, env) && Value(t1, value, env) == Value(t, value, env)
        {
          KeepsValue(t, t1, a, env);
          KeepsValue(t, t1, value, env);
        }
        ret := ShiftSelect(d, a, value, i, fill, ret);
        forall env
          ensures Selected(d, Value(t, a, env), Value(t, value, env), i + 1, Value(gates, ret, env))
        {
          SelectStep(d, Value(t, a, env), Value(t, value, env), i, Value(t1, r1, env));
        }
      }
      forall env
        ensures Value(gates, ret, env) == BvShift(d, Value(t, a, env), Value(t, value, env))
      {
        SelectDone(d, Value(t, a, env), Value(t, value, env), Value(gates, ret, env));
      }
    }

    // ----- Division -----

    /** One pass of the normalisation: the divisor moves up unless its top bit is set. */
    method NormalPass(divisor: Vector) returns (ret: Vector)
      requires Ok(gates, divisor) && divisor != []
      modifies this`gates
      ensures Keeps(old(gates), gates) && Ok(gates, ret) && |ret| == |divisor|
      ensures forall env ::
        var d := Value(old(gates), divisor, env);
        Value(gates, ret, env) == if Msb(d) then d else ShiftL(d, 1)
    {
      ghost var t := gates;
      var moved := ShiftLeft(divisor, 1);
      ghost var t1 := gates;
      ret := IteVec(divisor[|divisor| - 1], divisor, moved);
      forall env
        ensures var d := Value(t, divisor, env); Value(gates, ret, env) == if Msb(d) then d else ShiftL(d, 1)
      {
        KeepsValue(t, t1, divisor, env);
      }
    }

    method Normalise(b: Vector) returns (divisor: Vector)
      requires Ok(gates, b) && b != []
      modifies this`gates
      ensures Keeps(old(gates), gates) && Ok(gates, divisor) && |divisor| == |b|
      ensures forall env :: Normalising(Value(old(gates), b, env), |b|, Value(gates, divisor, env))
    {
      ghost var t := gates;
      divisor := b;
      for i := 0 to |b|
        invariant Keeps(t, gates) && Ok(gates, divisor) && |divisor| == |b|
        invariant forall env :: Normalising(Value(t, b, env), i, Value(gates, divisor, env))
      {
        ghost var t1, d1 := gates, divisor;
        divisor := NormalPass(divisor);
        forall env
          ensures Normalising(Value(t, b, env), i + 1, Value(gates, divisor, env))
        {
          NormalStep(Value(t, b, env), i, Value(t1, d1, env));
        }
      }
    }

    /** The quotient register after pass i: the new bit is put, or the finished quotient moves down. */
    method QuotientPass(r: Vector, i: nat, ge: Ref, checker: Ref) returns (ret: Vector)
      requires Ok(gates, r) && 1 <= i <= |r| && ge < |gates| && checker < |gates|
      modifies this`gates
      ensures Keeps(old(gates), gates) && Ok(gates, ret) && |ret| == |r|
      ensures forall env ::
        Value(gates, ret, env)
        == QuotientBits(Value(old(gates), r, env), i - 1, Eval(old(gates), ge, env), Eval(old(gates), checker, env))
    {
      hide Value, ShiftR;
      ghost var t := gates;
      var zero: Ref := Emit(False);
      var doDivide := Emit(Ite(checker, zero, ge));
      ghost var t1 := gates;
      var put := r[|r| - i := doDivide];
      var moved := ShiftRight(put, 1, zero);
      ret := IteVec(checker, moved, put);
      forall env
        ensures Value(gates, ret, env) == QuotientBits(Value(t, r, env), i - 1, Eval(t, ge, env), Eval(t, checker, env))
      {
        KeepsValue(t, t1, r, env);
        PutValue(t1, r, |r| - i, doDivide, env);
      }
    }

    /** The dividend after one pass: the divisor is taken off where it fits. */
    method SubtractPass(a: Vector, divisor: Vector) returns (a': Vector, ge: Ref)
      requires Ok(gates, a) && Ok(gates, divisor) && |a| == |divisor| > 0
      modifies this`gates
      ensures Keeps(old(gates), gates) && Ok(gates, a') && ge < |gates| && |a'| == |a|
      ensures forall env :: var x, d := Value(old(gates), a, env), Value(old(gates), divisor, env);
        Eval(gates, ge, env) == (Num(x) >= Num(d)) && Value(gates, a', env) == Sub(Num(x) >= Num(d), x, d)
    {
      ghost var t := gates;
      ge := Compare(Uge, a, divisor);
      ghost var t1 := gates;
      var less := Bvsub(a, divisor);
      ghost var t2 := gates;
      a' := IteVec(ge, less, a);
      forall env
        ensures var x, d := Value(t, a, env), Value(t, divisor, env);
          Eval(gates, ge, env) == (Num(x) >= Num(d)) && Value(gates, a', env) == Sub(Num(x) >= Num(d), x, d)
      {
        KeepsValue(t, t1, a, env);
        KeepsValue(t, t1, divisor, env);
        KeepsValue(t, t2, a, env);
      }
    }

    /** The divisor after one pass: it moves down unless it is back at its place. */
    method HalvePass(divisor: Vector, b: Vector) returns (divisor': Vector, eq: Ref)
      requires Ok(gates, divisor) && Ok(gates, b) && |divisor| == |b| > 0
      modifies this`gates
      ensures Keeps(old(gates), gates) && Ok(gates, divisor') && eq < |gates| && |divisor'| == |divisor|
      ensures forall env :: var d, y := Value(old(gates), divisor, env), Value(old(gates), b, env);
        Eval(gates, eq, env) == (d == y) && Value(gates, divisor', env) == if d == y then d else ShiftR(d, 1, false)
    {
      ghost var t := gates;
      eq := EqualVec(divisor, b);
      var zero: Ref := Emit(False);
      ghost var t1 := gates;
      var half := ShiftRight(divisor, 1, zero);
      divisor' := IteVec(eq, divisor, half);
      forall env
        ensures var d, y := Value(t, divisor, env), Value(t, b, env);
          Eval(gates, eq, env) == (d == y) && Value(gates, divisor', env) == if d == y then d else ShiftR(d, 1, false)
      {
        KeepsValue(t, t1, divisor, env);
      }
    }

    /** One pass of the restoring loop over all four registers. */
    method DividePass(a: Vector, divisor: Vector, r: Vector, checker: Ref, b: Vector, one: Ref, i: nat)
      returns (a': Vector, divisor': Vector, r': Vector, checker': Ref)
      requires Ok(gates, a) && Ok(gates, divisor) && Ok(gates, r) && Ok(gates, b) && |a| == |divisor| == |r| == |b|
      requires checker < |gates| && one < |gates| && 1 <= i <= |r| && forall env :: Eval(gates, one, env)
      modifies this`gates
      ensures Keeps(old(gates), gates) && Ok(gates, a') && Ok(gates, divisor') && Ok(gates, r') && checker' < |gates|
      ensures |a'| == |divisor'| == |r'| == |a|
      ensures forall env ::
        Passed(i - 1, Value(old(gates), b, env), Value(old(gates), a, env), Value(old(gates), divisor, env),
          Value(old(gates), r, env), Eval(old(gates), checker, env), Value(gates, a', env), Value(gates, divisor', env),
          Value(gates, r', env), Eval(gates, checker', env))
    {
      ghost var t := gates;
      var ge, eq;
      a', ge := SubtractPass(a, divisor);
      ghost var t0 := gates;
      divisor', eq := HalvePass(divisor, b);
      ghost var t1 := gates;
      r' := QuotientPass(r, i, ge, checker);
      ghost var t2 := gates;
      checker' := Emit(Ite(eq, one, checker));
      forall env
        ensures Passed(i - 1, Value(t, b, env), Value(t, a, env), Value(t, divisor, env), Value(t, r, env),
          Eval(t, checker, env),
          Value(gates, a', env), Value(gates, divisor', env), Value(gates, r', env), Eval(gates, checker', env))
      {
        KeepsValue(t, t0, divisor, env);
        KeepsValue(t, t0, b, env);
        KeepsValue(t, t1, r, env);
        KeepsValue(t0, gates, a', env);
        KeepsValue(t1, gates, divisor', env);
        KeepsValue(t2, gates, r', env);
      }
    }

    /** The restoring loop, from normalised registers. */
    method Restore(arg1: Vector, arg2: Vector, divisor0: Vector, quotient0: Vector, checker0: Ref, one: Ref)
      returns (quotient: Vector, remainder: Vector)
      requires Ok(gates, arg1) && Ok(gates, arg2) && Ok(gates, divisor0) && Ok(gates, quotient0)
      requires |arg1| == |arg2| == |divisor0| == |quotient0| > 0
      requires checker0 < |gates| && one < |gates| && forall env :: Eval(gates, one, env)
      requires forall env ::
        DivInv(Value(gates, arg1, env), Value(gates, arg2, env), 0, Value(gates, arg1, env),
          Value(gates, divisor0, env),
          Value(gates, quotient0, env), Eval(gates, checker0, env))
      modifies this`gates
      ensures Keeps(old(gates), gates) && Ok(gates, quotient) && Ok(gates, remainder)
      ensures |quotient| == |remainder| == |arg1|
      ensures forall env ::
        Value(gates, quotient, env) == BlastUdiv(Value(old(gates), arg1, env), Value(old(gates), arg2, env))
      ensures forall env ::
        Value(gates, remainder, env) == BlastUrem(Value(old(gates), arg1, env), Value(old(gates), arg2, env))
    {
      hide DivInv, Passed, BlastUdiv, BlastUrem;
      ghost var t := gates;
      var divisor, checker;
      quotient, remainder, divisor, checker := quotient0, arg1, divisor0, checker0;
      for i := 1 to |arg1| + 1
        invariant Keeps(t, gates) && Ok(gates, quotient) && Ok(gates, remainder) && Ok(gates, divisor)
        invariant |quotient| == |remainder| == |divisor| == |arg1| && 0 <= checker < |gates|
        invariant forall env ::
          DivInv(Value(t, arg1, env), Value(t, arg2, env), i - 1, Value(gates, remainder, env),
            Value(gates, divisor, env),
            Value(gates, quotient, env), Eval(gates, checker, env))
      {
        ghost var t1, a1, d1, q1, c1 := gates, remainder, divisor, quotient, checker;
        remainder, divisor, quotient, checker := DividePass(remainder, divisor, quotient, checker, arg2, one, i);
        forall env
          ensures DivInv(Value(t, arg1, env), Value(t, arg2, env), i, Value(gates, remainder, env),
            Value(gates, divisor, env),
            Value(gates, quotient, env), Eval(gates, checker, env))
        {
          KeepsValue(t, t1, arg2, env);
          DivInvStep(Value(t, arg1, env), Value(t, arg2, env), i - 1, Value(t1, a1, env), Value(t1, d1, env),
            Value(t1, q1, env), Eval(t1, c1, env), Value(gates, remainder, env), Value(gates, divisor, env),
            Value(gates, quotient, env), Eval(gates, checker, env));
        }
      }
      forall env
        ensures Value(gates, quotient, env) == BlastUdiv(Value(t, arg1, env), Value(t, arg2, env))
        ensures Value(gates, remainder, env) == BlastUrem(Value(t, arg1, env), Value(t, arg2, env))
      {
        DivInvDone(Value(t, arg1, env), Value(t, arg2, env), Value(gates, remainder, env), Value(gates, divisor, env),
          Value(gates, quotient, env), Eval(gates, checker, env));
      }
    }

    /** The divider: quotient and remainder of unsigned words, for every divisor. */
    method UDivRem(arg1: Vector, arg2: Vector) returns (quotient: Vector, remainder: Vector)
      requires Ok(gates, arg1) && Ok(gates, arg2) && |arg1| == |arg2| > 0
      modifies this`gates
      ensures Keeps(old(gates), gates) && Ok(gates, quotient) && Ok(gates, remainder)
      ensures |quotient| == |remainder| == |arg1|
      ensures forall env ::
        Value(gates, quotient, env) == BlastUdiv(Value(old(gates), arg1, env), Value(old(gates), arg2, env))
      ensures forall env ::
        Value(gates, remainder, env) == BlastUrem(Value(old(gates), arg1, env), Value(old(gates), arg2, env))
    {
      hide DivInv, BlastUdiv, BlastUrem;
      ghost var t := gates;
      var checker: Ref := Emit(False);
      var one: Ref := Emit(True);
      var ret := BvZeros(|arg1|);
      ghost var t1 := gates;
      var divisor := Normalise(arg2);
      ghost var t2 := gates;
      forall env
        ensures Value(t2, arg1, env) == Value(t, arg1, env) && Value(t2, arg2, env) == Value(t, arg2, env)
        ensures DivInv(Value(t2, arg1, env), Value(t2, arg2, env), 0, Value(t2, arg1, env), Value(t2, divisor, env),
          Value(t2, ret, env), Eval(t2, checker, env))
      {
        KeepsValue(t, t1, arg2, env);
        KeepsValue(t, t2, arg2, env);
        KeepsValue(t, t2, arg1, env);
        KeepsValue(t1, t2, ret, env);
        DivInvStart(Value(t, arg1, env), Value(t, arg2, env), Value(t2, divisor, env), Value(t2, ret, env));
      }
      quotient, remainder := Restore(arg1, arg2, divisor, ret, checker, one);
    }

    /** The operand negated where its sign bit is set. */
    method MagnitudeVec(a: Vector) returns (ret: Vector)
      requires Ok(gates, a) && a != []
      modifies this`gates
      ensures Keeps(old(gates), gates) && Ok(gates, ret) && |ret| == |a|
      ensures forall env :: Value(gates, ret, env) == Magnitude(Value(old(gates), a, env))
    {
      ghost var t := gates;
      var neg := Bvneg(a);
      ghost var t1 := gates;
      ret := IteVec(a[|a| - 1], neg, a);
      forall env
        ensures Value(gates, ret, env) == Magnitude(Value(t, a, env))
      {
        KeepsValue(t, t1, a, env);
      }
    }

    /** The result negated where the operands' signs differ. */
    method Resign(a: Vector, b: Vector, test: Vector) returns (ret: Vector)
      requires Ok(gates, a) && Ok(gates, b) && Ok(gates, test) && |a| == |b| == |test| > 0
      modifies this`gates
      ensures Keeps(old(gates), gates) && Ok(gates, ret) && |ret| == |test|
      ensures forall env :: var r := Value(old(gates), test, env);
        Value(gates, ret, env) == if Msb(Value(old(gates), a, env)) != Msb(Value(old(gates), b, env)) then BvNeg(r)
          else r
    {
      hide BvNeg, Msb, Value;
      ghost var t := gates;
      var differ := Emit(Xor(a[|a| - 1], b[|b| - 1]));
      ghost var t1 := gates;
      var neg := Bvneg(test);
      ghost var t2 := gates;
      ret := IteVec(differ, neg, test);
      forall env
        ensures var r := Value(t, test, env);
          Value(gates, ret, env) == if Msb(Value(t, a, env)) != Msb(Value(t, b, env)) then BvNeg(r) else r
      {
        TopBit(t, a, env);
        TopBit(t, b, env);
        KeepsValue(t, t1, test, env);
        KeepsValue(t, t2, test, env);
      }
    }

    method SDivRem(arg1: Vector, arg2: Vector, value: bool) returns (ret: Vector)
      requires Ok(gates, arg1) && Ok(gates, arg2) && |arg1| == |arg2| > 0
      modifies this`gates
      ensures Keeps(old(gates), gates) && Ok(gates, ret) && |ret| == |arg1|
      ensures forall env :: var x, y := Value(old(gates), arg1, env), Value(old(gates), arg2, env);
        Value(gates, ret, env) == if value then BlastSdiv(x, y) else BlastSrem(x, y)
    {
      ghost var t := gates;
      var aneg := MagnitudeVec(arg1);
      ghost var t1 := gates;
      var bneg := MagnitudeVec(arg2);
      ghost var t2 := gates;
      var quotient, remainder := UDivRem(aneg, bneg);
      ghost var t3 := gates;
      var test := if value then quotient else remainder;
      ret := Resign(arg1, arg2, test);
      forall env
        ensures var x, y := Value(t, arg1, env), Value(t, arg2, env);
          Value(gates, ret, env) == if value then BlastSdiv(x, y) else BlastSrem(x, y)
      {
        KeepsValue(t, t1, arg2, env);
        KeepsValue(t1, t2, aneg, env);
        KeepsValue(t, t3, arg1, env);
        KeepsValue(t, t3, arg2, env);
        SignedByMagnitude(Value(t, arg1, env), Value(t, arg2, env));
      }
    }
  }
}
