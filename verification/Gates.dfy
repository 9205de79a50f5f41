/**
 The Boolean back end: an append-only table of gates and its value under an
 assignment of the input variables.
 */
module Gates {
  import Bits
  import opened SmtLib

  type Ref = nat

  datatype Gate =
    | False
    | True
    | Input(id: nat)
    | Not(a: Ref)
    | And(a: Ref, b: Ref)
    | Nand(a: Ref, b: Ref)
    | Or(a: Ref, b: Ref)
    | Nor(a: Ref, b: Ref)
    | Xor(a: Ref, b: Ref)
    | Xnor(a: Ref, b: Ref)
    | Equal(a: Ref, b: Ref)
    | Nequal(a: Ref, b: Ref)
    | Ite(c: Ref, a: Ref, b: Ref)

  type Table = seq<Gate>

  /** An assignment is the set of the input variables that are true. */
  type Env = iset<nat>

  /** Every gate that g reads is below n. */
  predicate Reads(g: Gate, n: nat) {
    match g
    case False => true
    case True => true
    case Input(_) => true
    case Not(a) => a < n
    case Ite(c, a, b) => c < n && a < n && b < n
    case And(a, b) => a < n && b < n
    case Nand(a, b) => a < n && b < n
    case Or(a, b) => a < n && b < n
    case Nor(a, b) => a < n && b < n
    case Xor(a, b) => a < n && b < n
    case Xnor(a, b) => a < n && b < n
    case Equal(a, b) => a < n && b < n
    case Nequal(a, b) => a < n && b < n
  }

  /** The truth function of a gate whose inputs are read from table t. */
  ghost function Apply(t: Table, g: Gate, env: Env): bool
    decreases |t|, 1
  {
    match g
    case False => false
    case True => true
    case Input(id) => id in env
    case Not(a) => !Lookup(t, a, env)
    case And(a, b) => Lookup(t, a, env) && Lookup(t, b, env)
    case Nand(a, b) => !(Lookup(t, a, env) && Lookup(t, b, env))
    case Or(a, b) => Lookup(t, a, env) || Lookup(t, b, env)
    case Nor(a, b) => !(Lookup(t, a, env) || Lookup(t, b, env))
    case Xor(a, b) => Lookup(t, a, env) != Lookup(t, b, env)
    case Xnor(a, b) => Lookup(t, a, env) == Lookup(t, b, env)
    case Equal(a, b) => Lookup(t, a, env) == Lookup(t, b, env)
    case Nequal(a, b) => Lookup(t, a, env) != Lookup(t, b, env)
    case Ite(c, a, b) => if Lookup(t, c, env) then Lookup(t, a, env) else Lookup(t, b, env)
  }

  /** The value of node r, computed from the nodes before it; a node that is not there is false. */
  ghost function Lookup(t: Table, r: Ref, env: Env): bool
    decreases |t|, 0
  {
    r < |t| && Apply(t[..r], t[r], env)
  }

  ghost function Eval(t: Table, r: Ref, env: Env): bool { Lookup(t, r, env) }

  /** The value that gate g has when it is added to table t. */
  ghost function GateValue(t: Table, g: Gate, env: Env): bool {
    match g
    case False => false
    case True => true
    case Input(id) => id in env
    case Not(a) => !Eval(t, a, env)
    case And(a, b) => Eval(t, a, env) && Eval(t, b, env)
    case Nand(a, b) => !(Eval(t, a, env) && Eval(t, b, env))
    case Or(a, b) => Eval(t, a, env) || Eval(t, b, env)
    case Nor(a, b) => !(Eval(t, a, env) || Eval(t, b, env))
    case Xor(a, b) => Eval(t, a, env) != Eval(t, b, env)
    case Xnor(a, b) => Eval(t, a, env) == Eval(t, b, env)
    case Equal(a, b) => Eval(t, a, env) == Eval(t, b, env)
    case Nequal(a, b) => Eval(t, a, env) != Eval(t, b, env)
    case Ite(c, a, b) => if Eval(t, c, env) then Eval(t, a, env) else Eval(t, b, env)
  }

  ghost predicate Ok(t: Table, bits: seq<Ref>) {
    forall i | 0 <= i < |bits| :: bits[i] < |t|
  }

  ghost function Value(t: Table, bits: seq<Ref>, env: Env): (w: Word)
    ensures |w| == |bits|
  {
    seq(|bits|, i requires 0 <= i < |bits| => Eval(t, bits[i], env))
  }

  /** t' only adds nodes, and the old nodes keep their value under every assignment. */
  ghost predicate Keeps(t: Table, t': Table) {
    && |t| <= |t'|
    && (forall r: Ref, env {:trigger Eval(t', r, env)} :: r < |t| ==> Eval(t', r, env) == Eval(t, r, env))
  }

  /** Appending nodes never changes an old node. */
  lemma PrefixKeeps(t: Table, t': Table)
    requires t <= t'
    ensures Keeps(t, t')
  {
    forall r: Ref, env | r < |t|
      ensures Eval(t', r, env) == Eval(t, r, env)
    {
      assert t'[..r] == t[..r];
    }
  }

  /** A gate that is appended evaluates to its truth function over the old table. */
  lemma AppendValue(t: Table, g: Gate, env: Env)
    ensures Eval(t + [g], |t|, env) == GateValue(t, g, env)
  {
    assert (t + [g])[..|t|] == t;
    assert Eval(t + [g], |t|, env) == Apply(t, g, env);
    match g
    case False =>
    case True =>
    case Input(_) =>
    case Not(_) =>
    case Ite(_, _, _) =>
    case _ =>
  }

  lemma KeepsValue(t: Table, t': Table, bits: seq<Ref>, env: Env)
    requires Keeps(t, t') && Ok(t, bits)
    ensures Value(t', bits, env) == Value(t, bits, env)
  {
  }

  lemma PushValue(t: Table, t': Table, bits: seq<Ref>, r: Ref, env: Env)
    requires Keeps(t, t') && Ok(t, bits)
    ensures Value(t', bits + [r], env) == Value(t, bits, env) + [Eval(t', r, env)]
  {
  }

  lemma PutValue(t: Table, bits: seq<Ref>, k: nat, r: Ref, env: Env)
    requires k < |bits|
    ensures Value(t, bits[k := r], env) == Value(t, bits, env)[k := Eval(t, r, env)]
  {
  }

  /** The last gate of a vector is the sign of its value. */
  lemma TopBit(t: Table, bits: seq<Ref>, env: Env)
    requires bits != []
    ensures Bits.Msb(Value(t, bits, env)) == Eval(t, bits[|bits| - 1], env)
  {
  }
}
