/**
 The visitor that turns an expression tree into gates.
 */
module MetaSMT {
  import opened Bits
  import opened SmtLib
  import opened Gates
  import opened WordLemmas
  import opened Division
  import opened BitBlasting
  import A = Ast

  /** A compiled expression is one gate for a truth value or a vector of gates for a word. */
  datatype Result = Pred(p: Ref) | Vec(v: Vector)

  ghost function ResultVal(t: Table, r: Result, env: Env): A.Val {
    match r
    case Pred(p) => A.BoolVal(Eval(t, p, env))
    case Vec(v) => A.WordVal(Value(t, v, env))
  }

  ghost predicate ResultOk(t: Table, r: Result) {
    match r
    case Pred(p) => p < |t|
    case Vec(v) => Ok(t, v) && v != []
  }

  function ResultKind(r: Result): A.Kind {
    match r
    case Pred(_) => A.BoolKind
    case Vec(v) => A.WordKind(|v|)
  }

  lemma KeepsResult(t: Table, t': Table, r: Result, env: Env)
    requires Keeps(t, t') && ResultOk(t, r)
    ensures ResultOk(t', r) && ResultVal(t', r, env) == ResultVal(t, r, env)
  {
  }

  // ----- Comparisons of mixed signs -----

  datatype Order = Lt | Le | Gt | Ge

  predicate Orders(o: Order, x: int, y: int) {
    match o
    case Lt => x < y
    case Le => x <= y
    case Gt => x > y
    case Ge => x >= y
  }

  function Comparator(o: Order, signed: bool): Comparison {
    match o
    case Lt => if signed then Slt else Ult
    case Le => if signed then Sle else Ule
    case Gt => if signed then Sgt else Ugt
    case Ge => if signed then Sge else Uge
  }

  /** One bit more, by the operand's own sign, makes both operands signed without changing their numbers. */
  lemma OneBitMore(sign: bool, x: Word)
    requires x != []
    ensures Signed(A.ExtendWord(sign, 1, x)) == A.IntOf(sign, x)
  {
    if sign {
      SignExtendSigned(1, x);
    } else {
      ZeroExtendNum(1, x);
    }
  }

  lemma CompareSame(o: Order, s: bool, x: Word, y: Word)
    ensures BvCompare(Comparator(o, s), x, y) == Orders(o, A.IntOf(s, x), A.IntOf(s, y))
  {
  }

  /** Comparing after the extension compares the numbers that the operands stand for. */
  lemma CompareExtended(o: Order, sx: bool, sy: bool, x: Word, y: Word)
    requires x != [] && y != []
    ensures BvCompare(Comparator(o, true), A.ExtendWord(sx, 1, x), A.ExtendWord(sy, 1, y))
      == Orders(o, A.IntOf(sx, x), A.IntOf(sy, y))
  {
    OneBitMore(sx, x);
    OneBitMore(sy, y);
  }

  lemma UnsignedQuotient(x: nat, y: nat)
    ensures SignedQuotient(x, y) == Quotient(x, y)
  {
  }

  // ----- The visitor -----

  type Terminals = map<nat, Result>

  /** The values of the compiled variables under a gate assignment. */
  ghost function ReadModel(t: Table, terminals: Terminals, env: Env): A.Model {
    (id: nat) => if id in terminals then ResultVal(t, terminals[id], env) else A.Stuck
  }

  ghost predicate TerminalsOk(t: Table, terminals: Terminals) {
    forall id | id in terminals :: ResultOk(t, terminals[id])
  }

  /** r is the compiled form of n: same kind, and the same value under every assignment. */
  ghost predicate Compiled(t: Table, terminals: Terminals, n: A.Node, r: Result) {
    && ResultOk(t, r)
    && A.KindOf(false, n) == A.Some(ResultKind(r))
    && A.Support(n) <= terminals.Keys
    && forall env :: ResultVal(t, r, env) == A.Denote(n, ReadModel(t, terminals, env))
  }

  predicate Extends(terminals: Terminals, terminals': Terminals) {
    forall id | id in terminals :: id in terminals' && terminals'[id] == terminals[id]
  }

  /** Compiled expressions stay valid while gates and variables are added. */
  lemma CompiledKeeps(t: Table, t': Table, terminals: Terminals, terminals': Terminals, n: A.Node, r: Result)
    requires Keeps(t, t') && TerminalsOk(t, terminals) && Compiled(t, terminals, n, r)
    requires Extends(terminals, terminals')
    ensures Compiled(t', terminals', n, r)
  {
    forall env
      ensures ResultVal(t', r, env) == A.Denote(n, ReadModel(t', terminals', env))
    {
      KeepsResult(t, t', r, env);
      var m, m' := ReadModel(t, terminals, env), ReadModel(t', terminals', env);
      forall id | id in A.Support(n)
        ensures m(id) == m'(id)
      {
        KeepsResult(t, t', terminals[id], env);
      }
      A.SupportDecides(false, n, m, m');
    }
    assert ResultOk(t', r) by {
      KeepsResult(t, t', r, iset{});
    }
  }

  /** What is compiled at table t1 and combined by an operator at table t2 is compiled at t2. */
  ghost predicate Grows(t1: Table, t2: Table, terminals: Terminals, n: A.Node, x: Result) {
    Keeps(t1, t2) && TerminalsOk(t1, terminals) && Compiled(t1, terminals, n, x)
  }

  lemma GrowsResult(t1: Table, t2: Table, terminals: Terminals, n: A.Node, x: Result)
    requires Grows(t1, t2, terminals, n, x)
    ensures A.KindOf(false, n) == A.Some(ResultKind(x)) && A.Support(n) <= terminals.Keys
    ensures forall env :: ResultVal(t1, x, env) == A.Denote(n, ReadModel(t2, terminals, env))
  {
    CompiledKeeps(t1, t2, terminals, terminals, n, x);
    forall env
      ensures ResultVal(t1, x, env) == A.Denote(n, ReadModel(t2, terminals, env))
    {
      KeepsResult(t1, t2, x, env);
    }
  }

  lemma CompiledUnary(t1: Table, t2: Table, terminals: Terminals, op: A.UnaryOp, n: A.Node, x: Result, z: Result)
    requires Grows(t1, t2, terminals, n, x) && ResultOk(t2, z)
    requires A.UnaryKind(op, ResultKind(x)) == A.Some(ResultKind(z))
    requires forall env :: ResultVal(t2, z, env) == A.ApplyUnary(op, ResultVal(t1, x, env))
    ensures Compiled(t2, terminals, A.Unary(op, n), z)
  {
    GrowsResult(t1, t2, terminals, n, x);
  }

  lemma CompiledBinary(t1: Table, t2: Table, terminals: Terminals, op: A.BinaryOp, l: A.Node, r: A.Node, x: Result,
      y: Result, z: Result)
    requires Grows(t1, t2, terminals, l, x) && Grows(t1, t2, terminals, r, y) && ResultOk(t2, z)
    requires A.BinaryKind(op, A.Sign(l), A.Sign(r), ResultKind(x), ResultKind(y)) == A.Some(ResultKind(z))
    requires forall env ::
      ResultVal(t2, z, env) == A.ApplyBinary(op, A.Sign(l), A.Sign(r), ResultVal(t1, x, env), ResultVal(t1, y, env))
    ensures Compiled(t2, terminals, A.Binary(op, l, r), z)
  {
    GrowsResult(t1, t2, terminals, l, x);
    GrowsResult(t1, t2, terminals, r, y);
  }

  lemma CompiledIte(t1: Table, t2: Table, terminals: Terminals, a: A.Node, b: A.Node, c: A.Node, x: Result, y: Result,
      w: Result, z: Result)
    requires Grows(t1, t2, terminals, a, x) && Grows(t1, t2, terminals, b, y) && Grows(t1, t2, terminals, c, w)
    requires ResultOk(t2, z)
    requires x.Pred? && ResultKind(y) == ResultKind(w) == ResultKind(z)
    requires forall env ::
      ResultVal(t2, z, env) == A.ApplyIte(ResultVal(t1, x, env), ResultVal(t1, y, env), ResultVal(t1, w, env))
    ensures Compiled(t2, terminals, A.IfThenElse(a, b, c), z)
  {
    GrowsResult(t1, t2, terminals, a, x);
    GrowsResult(t1, t2, terminals, b, y);
    GrowsResult(t1, t2, terminals, c, w);
  }

  lemma ResultFits(t: Table, x: Result, env: Env)
    requires ResultOk(t, x)
    ensures A.HasKind(ResultVal(t, x, env), ResultKind(x))
  {
  }

  lemma CompiledInside(t1: Table, t2: Table, terminals: Terminals, n: A.Node, collection: seq<A.Constant>, x: Result,
      p: Ref)
    requires Grows(t1, t2, terminals, n, x) && p < |t2| && A.InsideOk(ResultKind(x), collection)
    requires forall env ::
      Eval(t2, p, env) == exists i | 0 <= i < |collection| :: ResultVal(t1, x, env) == A.ConstantVal(collection[i])
    ensures Compiled(t2, terminals, A.Inside(n, collection), Pred(p))
  {
    GrowsResult(t1, t2, terminals, n, x);
    forall env
      ensures A.BoolVal(Eval(t2, p, env)) == A.ApplyInside(ResultVal(t1, x, env), collection)
    {
      ResultFits(t1, x, env);
      A.InsideFits(ResultVal(t1, x, env), ResultKind(x), collection);
    }
  }

  lemma CompiledExtend(t1: Table, t2: Table, terminals: Terminals, n: A.Node, k: nat, x: Result, v: Vector)
    requires Grows(t1, t2, terminals, n, x) && x.Vec? && Ok(t2, v) && |v| == |x.v| + k
    requires forall env :: Value(t2, v, env) == A.ExtendWord(A.Sign(n), k, Value(t1, x.v, env))
    ensures Compiled(t2, terminals, A.Extend(n, k), Vec(v))
  {
    GrowsResult(t1, t2, terminals, n, x);
  }

  lemma CompiledSlice(t: Table, terminals: Terminals, n: A.Node, r: nat, l: nat, x: Result, v: Vector)
    requires TerminalsOk(t, terminals) && Compiled(t, terminals, n, x) && x.Vec? && l <= r < |x.v| && Ok(t, v)
    requires |v| == r - l + 1
    requires forall env :: Value(t, v, env) == Extract(r, l, Value(t, x.v, env))
    ensures Compiled(t, terminals, A.Bitslice(n, r, l), Vec(v))
  {
  }

  // ----- Variables and the assignments that they stand for -----

  function BitsOf(r: Result): Vector {
    match r
    case Pred(p) => [p]
    case Vec(v) => v
  }

  /** Bit i of a value. */
  ghost predicate BitAt(v: A.Val, i: nat) {
    match v
    case BoolVal(b) => i == 0 && b
    case WordVal(w) => i < |w| && w[i]
    case Stuck => false
  }

  /** The declared kinds of the variables. */
  type Scope = map<nat, A.Kind>

  /** The variables of a tree are declared with their kinds, and it has no other leaves. */
  predicate Scoped(n: A.Node, scope: Scope) {
    match n
    case Placeholder(_) => false
    case VariableExpr(id, bs, s) => id in scope && scope[id] == A.TerminalKind(bs, s)
    case ConstantExpr(_) => true
    case VectorExpr(_, _, _) => false
    case Unary(_, child) => Scoped(child, scope)
    case Inside(child, _) => Scoped(child, scope)
    case Extend(child, _) => Scoped(child, scope)
    case Binary(_, l, r) => Scoped(l, scope) && Scoped(r, scope)
    case VectorAccess(_, _) => false
    case IfThenElse(a, b, c) => Scoped(a, scope) && Scoped(b, scope) && Scoped(c, scope)
    case ForEach(_, _) => false
    case Unique(_) => false
    case Bitslice(child, _, _) => Scoped(child, scope)
  }

  ghost predicate ModelFits(m: A.Model, scope: Scope) {
    forall id | id in scope :: A.HasKind(m(id), scope[id])
  }

  type Owner = map<nat, (nat, nat)>

  /** Every bit of variable id is an input of its own: the one whose owner is that bit. */
  ghost predicate OwnInputs(t: Table, id: nat, bits: Vector, base: nat, owner: Owner) {
    forall i | 0 <= i < |bits| ::
      && bits[i] < |t|
      && base + i in owner && owner[base + i] == (id, i)
      && forall env :: Eval(t, bits[i], env) == (base + i in env)
  }

  ghost predicate Fresh(t: Table, terminals: Terminals, first: map<nat, nat>, owner: Owner, next: nat) {
    && (forall k | k in owner :: k < next)
    && (forall id | id in terminals :: ResultOk(t, terminals[id]))
    && (forall id | id in terminals :: id in first && OwnInputs(t, id, BitsOf(terminals[id]), first[id], owner))
  }

  lemma OwnInputsKeep(t: Table, t': Table, id: nat, bits: Vector, base: nat, owner: Owner, owner': Owner)
    requires OwnInputs(t, id, bits, base, owner) && Keeps(t, t')
    requires forall k | k in owner :: k in owner' && owner'[k] == owner[k]
    ensures OwnInputs(t', id, bits, base, owner')
  {
  }

  lemma FreshKeeps(t: Table, t': Table, terminals: Terminals, first: map<nat, nat>, owner: Owner, next: nat)
    requires Fresh(t, terminals, first, owner, next) && Keeps(t, t')
    ensures Fresh(t', terminals, first, owner, next) && TerminalsOk(t', terminals)
  {
    forall id | id in terminals
      ensures ResultOk(t', terminals[id]) && OwnInputs(t', id, BitsOf(terminals[id]), first[id], owner)
    {
      KeepsResult(t, t', terminals[id], iset{});
      OwnInputsKeep(t, t', id, BitsOf(terminals[id]), first[id], owner, owner);
    }
  }

  /** A new variable on fresh inputs. */
  lemma FreshAdds(t: Table, t': Table, terminals: Terminals, first: map<nat, nat>, owner: Owner, next: nat, id: nat,
      r: Result, owner': Owner, next': nat)
    requires Fresh(t, terminals, first, owner, next) && Keeps(t, t') && id !in terminals && next <= next'
    requires ResultOk(t', r) && OwnInputs(t', id, BitsOf(r), next, owner')
    requires forall k | k in owner :: k in owner' && owner'[k] == owner[k]
    requires forall k | k in owner' :: k < next'
    ensures Fresh(t', terminals[id := r], first[id := next], owner', next')
  {
    forall j | j in terminals
      ensures ResultOk(t', terminals[j]) && OwnInputs(t', j, BitsOf(terminals[j]), first[j], owner')
    {
      KeepsResult(t, t', terminals[j], iset{});
      OwnInputsKeep(t, t', j, BitsOf(terminals[j]), first[j], owner, owner');
    }
  }

  lemma CompiledTrue(t1: Table, t2: Table, terminals: Terminals, n: A.Node, p: Ref, q: Ref)
    requires Grows(t1, t2, terminals, n, Pred(p)) && q < |t2|
    requires forall env :: Eval(t2, q, env) == Eval(t1, p, env)
    ensures Compiled(t2, terminals, n, Pred(q))
  {
    GrowsResult(t1, t2, terminals, n, Pred(p));
    assert forall env :: ResultVal(t2, Pred(q), env) == ResultVal(t1, Pred(p), env);
  }

  lemma CompiledBool(t: Table, terminals: Terminals, n: A.Node, r: Result)
    requires Compiled(t, terminals, n, r) && A.KindOf(false, n) == A.Some(A.BoolKind)
    ensures r.Pred? && r.p < |t|
  {
  }

  lemma AllCompiledKeeps(t: Table, t': Table, terminals: Terminals, terminals': Terminals, fs: seq<A.Node>,
      gates: seq<Ref>)
    requires AllCompiled(t, terminals, fs, gates) && Keeps(t, t') && TerminalsOk(t, terminals)
    requires Extends(terminals, terminals')
    ensures AllCompiled(t', terminals', fs, gates)
  {
    forall j | 0 <= j < |fs|
      ensures Compiled(t', terminals', fs[j], Pred(gates[j]))
    {
      CompiledKeeps(t, t', terminals, terminals', fs[j], Pred(gates[j]));
    }
  }

  // ----- Satisfiability -----

  /** The gate assignment that gives every input the bit of the model that owns it. */
  ghost function InputsOf(owner: Owner, m: A.Model): Env {
    iset k | k in owner && BitAt(m(owner[k].0), owner[k].1)
  }

  lemma WordByBits(x: Word, y: Word)
    requires |x| == |y| && forall i | 0 <= i < |x| :: x[i] == y[i]
    ensures x == y
  {
  }

  /** A compiled variable reads back the value that its inputs were given. */
  lemma ReadsBack(t: Table, id: nat, r: Result, base: nat, owner: Owner, m: A.Model)
    requires ResultOk(t, r) && OwnInputs(t, id, BitsOf(r), base, owner) && A.HasKind(m(id), ResultKind(r))
    ensures ResultVal(t, r, InputsOf(owner, m)) == m(id)
  {
    var env := InputsOf(owner, m);
    forall i | 0 <= i < |BitsOf(r)|
      ensures Eval(t, BitsOf(r)[i], env) == BitAt(m(id), i)
    {
      assert BitsOf(r)[i] < |t| && base + i in owner && owner[base + i] == (id, i);
    }
    match r
    case Pred(p) => assert BitsOf(r)[0] == p;
    case Vec(v) => WordByBits(Value(t, v, env), m(id).w);
  }

  ghost predicate AllTrue(t: Table, gates: seq<Ref>, env: Env) {
    forall j | 0 <= j < |gates| :: Eval(t, gates[j], env)
  }

  ghost predicate AllHold(fs: seq<A.Node>, m: A.Model) {
    forall j | 0 <= j < |fs| :: A.Denote(fs[j], m) == A.BoolVal(true)
  }

  ghost predicate AllCompiled(t: Table, terminals: Terminals, fs: seq<A.Node>, gates: seq<Ref>) {
    |fs| == |gates| && forall j | 0 <= j < |fs| :: Compiled(t, terminals, fs[j], Pred(gates[j]))
  }

  predicate KindsOk(scope: Scope) {
    forall id | id in scope && scope[id].WordKind? :: scope[id].width > 0
  }

  ghost predicate Declared(terminals: Terminals, scope: Scope) {
    forall id | id in terminals :: id in scope && scope[id] == ResultKind(terminals[id])
  }

  function DefaultVal(k: A.Kind): A.Val {
    match k
    case BoolKind => A.BoolVal(false)
    case WordKind(n) => A.WordVal(Zeros(n))
  }

  /** An assignment of the gates that makes the assertions true reads back as a model of the formulas. */
  lemma ModelFromGates(t: Table, terminals: Terminals, scope: Scope, fs: seq<A.Node>, gates: seq<Ref>, env: Env)
      returns (m: A.Model)
    requires TerminalsOk(t, terminals) && Declared(terminals, scope) && KindsOk(scope)
    requires AllCompiled(t, terminals, fs, gates) && AllTrue(t, gates, env)
    ensures ModelFits(m, scope) && AllHold(fs, m)
  {
    var read := ReadModel(t, terminals, env);
    m := (id: nat) => if id in terminals then ResultVal(t, terminals[id], env)
                      else if id in scope then DefaultVal(scope[id]) else A.Stuck;
    forall id | id in scope
      ensures A.HasKind(m(id), scope[id])
    {
      if id in terminals {
        ResultFits(t, terminals[id], env);
      }
    }
    forall j | 0 <= j < |fs|
      ensures A.Denote(fs[j], m) == A.BoolVal(true)
    {
      assert Compiled(t, terminals, fs[j], Pred(gates[j]));
      A.SupportDecides(false, fs[j], read, m);
    }
  }

  /** A model of the formulas gives the inputs values that make all assertions true. */
  lemma GatesFromModel(t: Table, terminals: Terminals, first: map<nat, nat>, owner: Owner, next: nat, scope: Scope,
      fs: seq<A.Node>, gates: seq<Ref>, m: A.Model)
    requires Fresh(t, terminals, first, owner, next) && Declared(terminals, scope)
    requires AllCompiled(t, terminals, fs, gates) && ModelFits(m, scope) && AllHold(fs, m)
    ensures AllTrue(t, gates, InputsOf(owner, m))
  {
    var env := InputsOf(owner, m);
    var read := ReadModel(t, terminals, env);
    forall j | 0 <= j < |fs|
      ensures Eval(t, gates[j], env)
    {
      assert Compiled(t, terminals, fs[j], Pred(gates[j]));
      forall id | id in A.Support(fs[j])
        ensures read(id) == m(id)
      {
        ReadsBack(t, id, terminals[id], first[id], owner, m);
      }
      A.SupportDecides(false, fs[j], read, m);
    }
  }

  class MetaSMTVisitor {
    const bb: BitBlast
    var exprStack: seq<(Result, bool)>
    var terminals: Terminals
    /** The index of the next input of the Boolean solver. */
    var nextInput: nat
    /** The first input of each compiled variable, and the variable and bit of each input. */
    ghost var first: map<nat, nat>
    ghost var owner: Owner
    /** The trees asserted so far. */
    ghost var asserted: seq<A.Node>

    constructor (bb: BitBlast)
      requires bb.assertions == []
      ensures this.bb == bb && exprStack == [] && terminals == map[] && asserted == []
      ensures Valid(map[]) && Asserted()
    {
      this.bb := bb;
      exprStack, terminals, nextInput := [], map[], 0;
      first, owner, asserted := map[], map[], [];
    }

    /** The asserted gates are the compiled forms of the asserted trees. */
    ghost predicate Asserted()
      reads this, bb
    {
      AllCompiled(bb.gates, terminals, asserted, bb.assertions)
    }

    ghost predicate Valid(scope: Scope)
      reads this, bb`gates
    {
      && TerminalsOk(bb.gates, terminals)
      && Fresh(bb.gates, terminals, first, owner, nextInput)
      && Declared(terminals, scope)
    }

    // ----- Operators on compiled operands -----

    /** The four order comparisons, by the signs of the operands. */
    method VisitOrder(o: Order, sx: bool, sy: bool, x: Vector, y: Vector) returns (r: Ref)
      requires Ok(bb.gates, x) && Ok(bb.gates, y) && |x| == |y| > 0
      modifies bb`gates
      ensures Keeps(old(bb.gates), bb.gates) && r < |bb.gates|
      ensures forall env ::
        Eval(bb.gates, r, env)
        == Orders(o, A.IntOf(sx, Value(old(bb.gates), x, env)), A.IntOf(sy, Value(old(bb.gates), y, env)))
    {
      hide BvCompare, Orders, Comparator, A.IntOf;
      ghost var t := bb.gates;
      if sx == sy {
        r := bb.Compare(Comparator(o, sx), x, y);
        forall env
          ensures Eval(bb.gates, r, env) == Orders(o, A.IntOf(sx, Value(t, x, env)), A.IntOf(sy, Value(t, y, env)))
        {
          CompareSame(o, sx, Value(t, x, env), Value(t, y, env));
        }
      } else {
        var x', y' := ExtendOne(sx, x, sy, y);
        r := bb.Compare(Comparator(o, true), x', y');
        forall env
          ensures Eval(bb.gates, r, env) == Orders(o, A.IntOf(sx, Value(t, x, env)), A.IntOf(sy, Value(t, y, env)))
        {
          CompareExtended(o, sx, sy, Value(t, x, env), Value(t, y, env));
        }
      }
    }

    /** Both operands extended by one bit, each by its own sign. */
    method ExtendOne(sx: bool, x: Vector, sy: bool, y: Vector) returns (x': Vector, y': Vector)
      requires Ok(bb.gates, x) && Ok(bb.gates, y) && |x| == |y| > 0
      modifies bb`gates
      ensures Keeps(old(bb.gates), bb.gates) && Ok(bb.gates, x') && Ok(bb.gates, y') && |x'| == |y'| == |x| + 1
      ensures forall env :: Value(bb.gates, x', env) == A.ExtendWord(sx, 1, Value(old(bb.gates), x, env))
      ensures forall env :: Value(bb.gates, y', env) == A.ExtendWord(sy, 1, Value(old(bb.gates), y, env))
    {
      ghost var t := bb.gates;
      x' := VisitExtend(sx, 1, x);
      ghost var t1 := bb.gates;
      y' := VisitExtend(sy, 1, y);
      forall env
        ensures Value(bb.gates, x', env) == A.ExtendWord(sx, 1, Value(t, x, env))
        ensures Value(bb.gates, y', env) == A.ExtendWord(sy, 1, Value(t, y, env))
      {
        KeepsValue(t1, bb.gates, x', env);
        KeepsValue(t, t1, y, env);
      }
    }

    method VisitExtend(sign: bool, k: nat, x: Vector) returns (r: Vector)
      requires Ok(bb.gates, x) && x != []
      modifies bb`gates
      ensures Keeps(old(bb.gates), bb.gates) && Ok(bb.gates, r) && |r| == |x| + k
      ensures forall env :: Value(bb.gates, r, env) == A.ExtendWord(sign, k, Value(old(bb.gates), x, env))
    {
      if sign {
        r := bb.SignExtendVec(k, x);
      } else {
        r := bb.ZeroExtendVec(k, x);
      }
    }

    method VisitDevide(sx: bool, sy: bool, x: Vector, y: Vector) returns (r: Vector)
      requires Ok(bb.gates, x) && Ok(bb.gates, y) && |x| == |y| > 0
      modifies bb`gates
      ensures Keeps(old(bb.gates), bb.gates) && Ok(bb.gates, r) && |r| == A.DivideWidth(sx, sy, |x|)
      ensures forall env ::
        A.WordVal(Value(bb.gates, r, env))
        == A.ApplyWords(A.Devide, sx, sy, Value(old(bb.gates), x, env), Value(old(bb.gates), y, env))
    {
      ghost var t := bb.gates;
      if sx && sy {
        r := bb.SDivRem(x, y, true);
      } else if !sx && !sy {
        var remainder;
        r, remainder := bb.UDivRem(x, y);
        forall env
          ensures BlastUdiv(Value(t, x, env), Value(t, y, env))
            == FromInt(SignedQuotient(Num(Value(t, x, env)), Num(Value(t, y, env))), |x|)
        {
          UnsignedQuotient(Num(Value(t, x, env)), Num(Value(t, y, env)));
        }
      } else {
        var x', y' := ExtendOne(sx, x, sy, y);
        r := bb.SDivRem(x', y', true);
        forall env
          ensures A.WordVal(Value(bb.gates, r, env))
            == A.ApplyWords(A.Devide, sx, sy, Value(t, x, env), Value(t, y, env))
        {
          OneBitMore(sx, Value(t, x, env));
          OneBitMore(sy, Value(t, y, env));
        }
      }
    }

    method VisitModulo(sx: bool, x: Vector, y: Vector) returns (r: Vector)
      requires Ok(bb.gates, x) && Ok(bb.gates, y) && |x| == |y| > 0
      modifies bb`gates
      ensures Keeps(old(bb.gates), bb.gates) && Ok(bb.gates, r) && |r| == |x|
      ensures forall env :: var u, v := Value(old(bb.gates), x, env), Value(old(bb.gates), y, env);
        Value(bb.gates, r, env) == if sx then BlastSrem(u, v) else BlastUrem(u, v)
    {
      if sx {
        r := bb.SDivRem(x, y, false);
      } else {
        var quotient;
        quotient, r := bb.UDivRem(x, y);
      }
    }

    method VisitWordOp(op: A.BinaryOp, sx: bool, sy: bool, x: Vector, y: Vector) returns (r: Vector)
      requires Ok(bb.gates, x) && Ok(bb.gates, y) && |x| == |y| > 0
      requires !A.IsComparison(op) && op !in {A.LogicalAnd, A.LogicalOr}
      modifies bb`gates
      ensures Keeps(old(bb.gates), bb.gates) && Ok(bb.gates, r)
      ensures |r| == if op == A.Devide then A.DivideWidth(sx, sy, |x|) else |x|
      ensures forall env ::
        A.WordVal(Value(bb.gates, r, env))
          == A.ApplyWords(op, sx, sy, Value(old(bb.gates), x, env), Value(old(bb.gates), y, env))
    {
      hide Value, Eval, BvAnd, BvOr, BvXor;
      match op
      case BitAnd => r := bb.Bvand(x, y);
      case BitOr => r := bb.Bvor(x, y);
      case BitXor => r := bb.Bvxor(x, y);
      case Plus => r := bb.Bvadd(x, y);
      case Minus => r := bb.Bvsub(x, y);
      case Multiplies => r := bb.Bvmul(x, y);
      case Devide => r := VisitDevide(sx, sy, x, y);
      case Modulo => r := VisitModulo(sx, x, y);
      case ShiftLeft => r := bb.Shift(Left, x, y);
      case ShiftRight => r := bb.Shift(Right, x, y);
    }

    method VisitComparison(op: A.BinaryOp, sx: bool, sy: bool, x: Vector, y: Vector) returns (r: Ref)
      requires Ok(bb.gates, x) && Ok(bb.gates, y) && |x| == |y| > 0 && A.IsComparison(op)
      modifies bb`gates
      ensures Keeps(old(bb.gates), bb.gates) && r < |bb.gates|
      ensures forall env ::
        A.BoolVal(Eval(bb.gates, r, env))
          == A.ApplyWords(op, sx, sy, Value(old(bb.gates), x, env), Value(old(bb.gates), y, env))
    {
      hide Value, Eval;
      match op
      case Equal => r := bb.EqualVec(x, y);
      case NotEqual => r := bb.NequalVec(x, y);
      case Less => r := VisitOrder(Lt, sx, sy, x, y);
      case LessEqual => r := VisitOrder(Le, sx, sy, x, y);
      case Greater => r := VisitOrder(Gt, sx, sy, x, y);
      case GreaterEqual => r := VisitOrder(Ge, sx, sy, x, y);
    }

    method VisitBoolOp(op: A.BinaryOp, x: Ref, y: Ref) returns (r: Ref)
      requires x < |bb.gates| && y < |bb.gates| && op in {A.LogicalAnd, A.LogicalOr, A.Equal, A.NotEqual}
      modifies bb`gates
      ensures Keeps(old(bb.gates), bb.gates) && r < |bb.gates|
      ensures forall env ::
        A.BoolVal(Eval(bb.gates, r, env)) == A.ApplyBools(op, Eval(old(bb.gates), x, env), Eval(old(bb.gates), y, env))
    {
      match op
      case LogicalAnd => r := bb.Emit(And(x, y));
      case LogicalOr => r := bb.Emit(Or(x, y));
      case Equal => r := bb.Emit(Equal(x, y));
      case NotEqual => r := bb.Emit(Nequal(x, y));
    }

    method VisitBinary(op: A.BinaryOp, sx: bool, sy: bool, x: Result, y: Result) returns (r: Result)
      requires ResultOk(bb.gates, x) && ResultOk(bb.gates, y)
      requires A.BinaryKind(op, sx, sy, ResultKind(x), ResultKind(y)).Some?
      modifies bb`gates
      ensures Keeps(old(bb.gates), bb.gates) && ResultOk(bb.gates, r)
      ensures A.BinaryKind(op, sx, sy, ResultKind(x), ResultKind(y)) == A.Some(ResultKind(r))
      ensures forall env ::
        ResultVal(bb.gates, r, env)
        == A.ApplyBinary(op, sx, sy, ResultVal(old(bb.gates), x, env), ResultVal(old(bb.gates), y, env))
    {
      if x.Pred? {
        var p := VisitBoolOp(op, x.p, y.p);
        r := Pred(p);
      } else if A.IsComparison(op) {
        var p := VisitComparison(op, sx, sy, x.v, y.v);
        r := Pred(p);
      } else {
        var v := VisitWordOp(op, sx, sy, x.v, y.v);
        r := Vec(v);
      }
    }

    method VisitUnary(op: A.UnaryOp, x: Result) returns (r: Result)
      requires ResultOk(bb.gates, x) && A.UnaryKind(op, ResultKind(x)).Some?
      modifies bb`gates
      ensures Keeps(old(bb.gates), bb.gates) && ResultOk(bb.gates, r) && ResultKind(r) == ResultKind(x)
      ensures forall env :: ResultVal(bb.gates, r, env) == A.ApplyUnary(op, ResultVal(old(bb.gates), x, env))
    {
      match op
      case Not =>
        var p := bb.Emit(Not(x.p));
        r := Pred(p);
      case Neg =>
        var v := bb.Bvneg(x.v);
        r := Vec(v);
      case Complement =>
        var v := bb.Bvnot(x.v);
        r := Vec(v);
    }

    method VisitIte(c: Ref, a: Result, b: Result) returns (r: Result)
      requires c < |bb.gates| && ResultOk(bb.gates, a) && ResultOk(bb.gates, b) && ResultKind(a) == ResultKind(b)
      modifies bb`gates
      ensures Keeps(old(bb.gates), bb.gates) && ResultOk(bb.gates, r) && ResultKind(r) == ResultKind(a)
      ensures forall env ::
        ResultVal(bb.gates, r, env)
        == A.ApplyIte(A.BoolVal(Eval(old(bb.gates), c, env)), ResultVal(old(bb.gates), a, env),
          ResultVal(old(bb.gates), b, env))
    {
      ghost var t := bb.gates;
      var yes := bb.Emit(True);
      var cond := bb.Emit(Equal(c, yes));
      ghost var t1 := bb.gates;
      if a.Pred? {
        var p := bb.Emit(Ite(cond, a.p, b.p));
        r := Pred(p);
      } else {
        var v := bb.IteVec(cond, a.v, b.v);
        r := Vec(v);
      }
      forall env
        ensures ResultVal(bb.gates, r, env)
          == A.ApplyIte(A.BoolVal(Eval(t, c, env)), ResultVal(t, a, env), ResultVal(t, b, env))
      {
        KeepsResult(t, t1, a, env);
        KeepsResult(t, t1, b, env);
      }
    }

    method VisitConstant(c: A.Constant) returns (r: Result)
      requires c.bitsize > 0
      modifies bb`gates
      ensures Keeps(old(bb.gates), bb.gates) && ResultOk(bb.gates, r)
      ensures ResultKind(r) == A.TerminalKind(c.bitsize, c.sign)
      ensures forall env :: ResultVal(bb.gates, r, env) == A.ConstantVal(c)
    {
      if c.bitsize == 1 && c.sign {
        var p;
        if c.value != 0 {
          p := bb.Emit(True);
        } else {
          p := bb.Emit(False);
        }
        r := Pred(p);
      } else {
        var v := bb.Constant(if c.sign then A.AsInt64(c.value) else c.value, c.bitsize);
        r := Vec(v);
      }
    }

    /** Equality of two compiled expressions of one kind. */
    method VisitEqual(x: Result, y: Result) returns (r: Ref)
      requires ResultOk(bb.gates, x) && ResultOk(bb.gates, y) && ResultKind(x) == ResultKind(y)
      modifies bb`gates
      ensures Keeps(old(bb.gates), bb.gates) && r < |bb.gates|
      ensures forall env ::
        Eval(bb.gates, r, env) == (ResultVal(old(bb.gates), x, env) == ResultVal(old(bb.gates), y, env))
    {
      if x.Pred? {
        r := bb.Emit(Equal(x.p, y.p));
      } else {
        r := bb.EqualVec(x.v, y.v);
      }
    }

    method VisitInside(x: Result, collection: seq<A.Constant>) returns (r: Ref)
      requires ResultOk(bb.gates, x) && A.InsideOk(ResultKind(x), collection)
      modifies bb`gates
      ensures Keeps(old(bb.gates), bb.gates) && r < |bb.gates|
      ensures forall env ::
        Eval(bb.gates, r, env)
        == exists i | 0 <= i < |collection| :: ResultVal(old(bb.gates), x, env) == A.ConstantVal(collection[i])
    {
      ghost var t := bb.gates;
      r := bb.Emit(False);
      for k := 0 to |collection|
        invariant Keeps(t, bb.gates) && 0 <= r < |bb.gates|
        invariant forall env ::
          Eval(bb.gates, r, env) == exists i | 0 <= i < k :: ResultVal(t, x, env) == A.ConstantVal(collection[i])
      {
        ghost var t1, r1 := bb.gates, r;
        var c := VisitConstant(collection[k]);
        ghost var t2 := bb.gates;
        assert ResultOk(t2, x) by {
          KeepsResult(t, t2, x, iset{});
        }
        var same := VisitEqual(x, c);
        r := bb.Emit(Or(r, same));
        forall env
          ensures Eval(bb.gates, r, env) == exists i | 0 <= i < k + 1 ::
            ResultVal(t, x, env) == A.ConstantVal(collection[i])
        {
          KeepsResult(t, t2, x, env);
          assert Eval(bb.gates, r, env) == (Eval(t1, r1, env) || ResultVal(t, x, env) == A.ConstantVal(collection[k]));
        }
      }
    }

    // ----- The visit -----

    method Push(r: Result, sign: bool)
      modifies this`exprStack
      ensures exprStack == old(exprStack) + [(r, sign)]
    {
      exprStack := exprStack + [(r, sign)];
    }

    method Pop() returns (entry: (Result, bool))
      requires exprStack != []
      modifies this`exprStack
      ensures entry == old(exprStack)[|old(exprStack)| - 1]
      ensures exprStack == old(exprStack)[..|old(exprStack)| - 1]
    {
      entry := exprStack[|exprStack| - 1];
      exprStack := exprStack[..|exprStack| - 1];
    }

    /** Fresh inputs, one for each bit of variable id. */
    method NewInputs(ghost id: nat, width: nat) returns (v: Vector)
      requires forall k | k in owner :: k < nextInput
      modifies this`nextInput, this`owner, bb`gates
      ensures Keeps(old(bb.gates), bb.gates) && Ok(bb.gates, v) && |v| == width && nextInput == old(nextInput) + width
      ensures forall k | k in owner :: k < nextInput
      ensures forall k | k in old(owner) :: k in owner && owner[k] == old(owner)[k]
      ensures OwnInputs(bb.gates, id, v, old(nextInput), owner)
    {
      v := [];
      for i := 0 to width
        invariant Keeps(old(bb.gates), bb.gates) && Ok(bb.gates, v) && |v| == i && nextInput == old(nextInput) + i
        invariant forall k | k in owner :: k < nextInput
        invariant forall k | k in old(owner) :: k in owner && owner[k] == old(owner)[k]
        invariant OwnInputs(bb.gates, id, v, old(nextInput), owner)
      {
        ghost var t, own, w := bb.gates, owner, v;
        var r := bb.Emit(Input(nextInput));
        v := v + [r];
        owner := owner[nextInput := (id, i)];
        OwnInputsKeep(t, bb.gates, id, w, old(nextInput), own, owner);
        nextInput := nextInput + 1;
      }
    }

    /** Look the variable up or compile it to fresh inputs. */
    method VisitVariable(id: nat, bitsize: nat, sign: bool, ghost scope: Scope) returns (r: Result)
      requires Valid(scope) && bitsize > 0 && id in scope && scope[id] == A.TerminalKind(bitsize, sign)
      modifies this`exprStack, this`terminals, this`nextInput, this`first, this`owner, bb`gates
      ensures Valid(scope) && Keeps(old(bb.gates), bb.gates) && exprStack == old(exprStack)
      ensures Extends(old(terminals), terminals)
      ensures Compiled(bb.gates, terminals, A.VariableExpr(id, bitsize, sign), r)
    {
      if id in terminals {
        r := terminals[id];
      } else {
        ghost var t, own, base := bb.gates, owner, nextInput;
        var v := NewInputs(id, bitsize);
        r := if bitsize == 1 && sign then Pred(v[0]) else Vec(v);
        assert OwnInputs(bb.gates, id, BitsOf(r), base, owner) && ResultOk(bb.gates, r);
        FreshAdds(t, bb.gates, terminals, first, own, base, id, r, owner, nextInput);
        terminals := terminals[id := r];
        first := first[id := base];
      }
    }

    /** The top entry is the compiled form of n. */
    ghost predicate OnTop(n: A.Node, below: nat)
      reads this, bb`gates
    {
      && |exprStack| == below + 1
      && exprStack[below].1 == A.Sign(n)
      && Compiled(bb.gates, terminals, n, exprStack[below].0)
    }

    method FinishUnary(op: A.UnaryOp, ghost child: A.Node, ghost scope: Scope, ghost below: nat)
      requires Valid(scope) && OnTop(child, below) && A.KindOf(false, A.Unary(op, child)).Some?
      modifies this`exprStack, bb`gates
      ensures Valid(scope) && Keeps(old(bb.gates), bb.gates)
      ensures OnTop(A.Unary(op, child), below) && exprStack[..below] == old(exprStack[..below])
    {
      ghost var t := bb.gates;
      var e := Pop();
      var r := VisitUnary(op, e.0);
      FreshKeeps(t, bb.gates, terminals, first, owner, nextInput);
      CompiledUnary(t, bb.gates, terminals, op, child, e.0, r);
      Push(r, e.1);
    }

    method FinishInside(collection: seq<A.Constant>, ghost child: A.Node, ghost scope: Scope, ghost below: nat)
      requires Valid(scope) && OnTop(child, below) && A.KindOf(false, A.Inside(child, collection)).Some?
      modifies this`exprStack, bb`gates
      ensures Valid(scope) && Keeps(old(bb.gates), bb.gates)
      ensures OnTop(A.Inside(child, collection), below) && exprStack[..below] == old(exprStack[..below])
    {
      ghost var t := bb.gates;
      var e := Pop();
      var p := VisitInside(e.0, collection);
      FreshKeeps(t, bb.gates, terminals, first, owner, nextInput);
      CompiledInside(t, bb.gates, terminals, child, collection, e.0, p);
      Push(Pred(p), false);
    }

    method FinishExtend(k: nat, ghost child: A.Node, ghost scope: Scope, ghost below: nat)
      requires Valid(scope) && OnTop(child, below) && A.KindOf(false, A.Extend(child, k)).Some?
      modifies this`exprStack, bb`gates
      ensures Valid(scope) && Keeps(old(bb.gates), bb.gates)
      ensures OnTop(A.Extend(child, k), below) && exprStack[..below] == old(exprStack[..below])
    {
      ghost var t := bb.gates;
      var e := Pop();
      var v := VisitExtend(e.1, k, e.0.v);
      FreshKeeps(t, bb.gates, terminals, first, owner, nextInput);
      CompiledExtend(t, bb.gates, terminals, child, k, e.0, v);
      Push(Vec(v), e.1);
    }

    method FinishSlice(r: nat, l: nat, ghost child: A.Node, ghost scope: Scope, ghost below: nat)
      requires Valid(scope) && OnTop(child, below) && A.KindOf(false, A.Bitslice(child, r, l)).Some?
      modifies this`exprStack
      ensures Valid(scope)
      ensures OnTop(A.Bitslice(child, r, l), below) && exprStack[..below] == old(exprStack[..below])
    {
      var e := Pop();
      var v := bb.ExtractVec(r, l, e.0.v);
      CompiledSlice(bb.gates, terminals, child, r, l, e.0, v);
      Push(Vec(v), false);
    }

    /** Entry i of the stack is the compiled form of n. */
    ghost predicate Entry(i: nat, n: A.Node)
      reads this, bb`gates
    {
      i < |exprStack| && exprStack[i].1 == A.Sign(n) && Compiled(bb.gates, terminals, n, exprStack[i].0)
    }

    method FinishBinary(op: A.BinaryOp, ghost l: A.Node, ghost r: A.Node, ghost scope: Scope, ghost below: nat)
      requires Valid(scope) && |exprStack| == below + 2 && Entry(below, l) && Entry(below + 1, r)
      requires A.KindOf(false, A.Binary(op, l, r)).Some?
      modifies this`exprStack, bb`gates
      ensures Valid(scope) && Keeps(old(bb.gates), bb.gates)
      ensures OnTop(A.Binary(op, l, r), below) && exprStack[..below] == old(exprStack[..below])
    {
      ghost var t := bb.gates;
      var snd := Pop();
      var fst := Pop();
      var z := VisitBinary(op, fst.1, snd.1, fst.0, snd.0);
      FreshKeeps(t, bb.gates, terminals, first, owner, nextInput);
      CompiledBinary(t, bb.gates, terminals, op, l, r, fst.0, snd.0, z);
      Push(z, A.ResultSign(op, fst.1, snd.1));
    }

    method FinishIte(ghost a: A.Node, ghost b: A.Node, ghost c: A.Node, ghost scope: Scope, ghost below: nat)
      requires Valid(scope) && |exprStack| == below + 3 && Entry(below, a) && Entry(below + 1, b) && Entry(below + 2, c)
      requires A.KindOf(false, A.IfThenElse(a, b, c)).Some?
      modifies this`exprStack, bb`gates
      ensures Valid(scope) && Keeps(old(bb.gates), bb.gates)
      ensures OnTop(A.IfThenElse(a, b, c), below) && exprStack[..below] == old(exprStack[..below])
    {
      ghost var t := bb.gates;
      var trd := Pop();
      var snd := Pop();
      var fst := Pop();
      var z := VisitIte(fst.0.p, snd.0, trd.0);
      FreshKeeps(t, bb.gates, terminals, first, owner, nextInput);
      CompiledIte(t, bb.gates, terminals, a, b, c, fst.0, snd.0, trd.0, z);
      Push(z, false);
    }

    method VisitLeaf(n: A.Node, ghost scope: Scope)
      requires Valid(scope) && A.KindOf(false, n).Some? && Scoped(n, scope) && (n.VariableExpr? || n.ConstantExpr?)
      modifies this`exprStack, this`terminals, this`nextInput, this`first, this`owner, bb`gates
      ensures Valid(scope) && OnTop(n, |old(exprStack)|) && exprStack[..|old(exprStack)|] == old(exprStack)
      ensures Keeps(old(bb.gates), bb.gates) && Extends(old(terminals), terminals)
    {
      ghost var t := bb.gates;
      if n.VariableExpr? {
        var r := VisitVariable(n.id, n.bitsize, n.sign, scope);
        Push(r, n.sign);
      } else {
        var r := VisitConstant(n.constant);
        FreshKeeps(t, bb.gates, terminals, first, owner, nextInput);
        Push(r, n.constant.sign);
      }
    }

    /** Both operands of n are visited from left to right. */
    method VisitBoth(ghost n: A.Node, l: A.Node, r: A.Node, ghost scope: Scope)
      requires l < n && r < n && Valid(scope)
      requires A.KindOf(false, l).Some? && Scoped(l, scope) && A.KindOf(false, r).Some? && Scoped(r, scope)
      modifies this`exprStack, this`terminals, this`nextInput, this`first, this`owner, bb`gates
      ensures Valid(scope) && |exprStack| == |old(exprStack)| + 2 && exprStack[..|old(exprStack)|] == old(exprStack)
      ensures Entry(|old(exprStack)|, l) && Entry(|old(exprStack)| + 1, r)
      ensures Keeps(old(bb.gates), bb.gates) && Extends(old(terminals), terminals)
      decreases n, 0
    {
      hide Compiled, Fresh;
      ghost var below := |exprStack|;
      Visit(l, scope);
      ghost var t0, terms0, e0 := bb.gates, terminals, exprStack[below];
      Visit(r, scope);
      assert exprStack[below] == e0 by { assert exprStack[..below + 1][below] == e0; }
      assert exprStack[..below] == exprStack[..below + 1][..below];
      assert TerminalsOk(t0, terms0);
      CompiledKeeps(t0, bb.gates, terms0, terminals, l, e0.0);
    }

    method VisitAll(ghost n: A.Node, a: A.Node, b: A.Node, c: A.Node, ghost scope: Scope)
      requires a < n && b < n && c < n && Valid(scope)
      requires A.KindOf(false, a).Some? && Scoped(a, scope) && A.KindOf(false, b).Some? && Scoped(b, scope)
      requires A.KindOf(false, c).Some? && Scoped(c, scope)
      modifies this`exprStack, this`terminals, this`nextInput, this`first, this`owner, bb`gates
      ensures Valid(scope) && |exprStack| == |old(exprStack)| + 3 && exprStack[..|old(exprStack)|] == old(exprStack)
      ensures Entry(|old(exprStack)|, a) && Entry(|old(exprStack)| + 1, b) && Entry(|old(exprStack)| + 2, c)
      ensures Keeps(old(bb.gates), bb.gates) && Extends(old(terminals), terminals)
      decreases n, 1
    {
      hide Compiled, Fresh;
      ghost var below := |exprStack|;
      VisitBoth(n, a, b, scope);
      ghost var t0, terms0, e0, e1 := bb.gates, terminals, exprStack[below], exprStack[below + 1];
      Visit(c, scope);
      assert exprStack[below] == e0 by { assert exprStack[..below + 2][below] == e0; }
      assert exprStack[below + 1] == e1 by { assert exprStack[..below + 2][below + 1] == e1; }
      assert exprStack[..below] == exprStack[..below + 2][..below];
      assert TerminalsOk(t0, terms0);
      CompiledKeeps(t0, bb.gates, terms0, terminals, a, e0.0);
      CompiledKeeps(t0, bb.gates, terms0, terminals, b, e1.0);
    }

    /** Compile n: its result goes on top of the stack, the entries below stay. */
    method Visit(n: A.Node, ghost scope: Scope)
      requires Valid(scope) && A.KindOf(false, n).Some? && Scoped(n, scope)
      modifies this`exprStack, this`terminals, this`nextInput, this`first, this`owner, bb`gates
      ensures Valid(scope) && OnTop(n, |old(exprStack)|) && exprStack[..|old(exprStack)|] == old(exprStack)
      ensures Keeps(old(bb.gates), bb.gates) && Extends(old(terminals), terminals)
      decreases n, 2
    {
      hide Compiled, Fresh;
      ghost var below := |exprStack|;
      match n
      case VariableExpr(_, _, _) => VisitLeaf(n, scope);
      case ConstantExpr(_) => VisitLeaf(n, scope);
      case Unary(op, child) =>
        Visit(child, scope);
        FinishUnary(op, child, scope, below);
      case Inside(child, collection) =>
        Visit(child, scope);
        FinishInside(collection, child, scope, below);
      case Extend(child, k) =>
        Visit(child, scope);
        FinishExtend(k, child, scope, below);
      case Bitslice(child, r, l) =>
        Visit(child, scope);
        FinishSlice(r, l, child, scope, below);
      case Binary(op, l, r) =>
        VisitBoth(n, l, r, scope);
        FinishBinary(op, l, r, scope, below);
      case IfThenElse(a, b, c) =>
        VisitAll(n, a, b, c, scope);
        FinishIte(a, b, c, scope, below);
    }

    /** Compile n and assert that it is true. */
    method MakeAssertion(n: A.Node, ghost scope: Scope)
      requires Valid(scope) && Asserted() && A.KindOf(false, n) == A.Some(A.BoolKind) && Scoped(n, scope)
      modifies this, bb
      ensures Valid(scope) && Asserted() && exprStack == old(exprStack)
      ensures asserted == old(asserted) + [n]
      ensures Keeps(old(bb.gates), bb.gates) && Extends(old(terminals), terminals)
    {
      hide Compiled, Fresh;
      ghost var t0, terms0 := bb.gates, terminals;
      Visit(n, scope);
      ghost var t := bb.gates;
      CompiledBool(t, terminals, n, exprStack[|exprStack| - 1].0);
      var e := Pop();
      var yes := bb.Emit(True);
      var eq := bb.Emit(Equal(e.0.p, yes));
      FreshKeeps(t, bb.gates, terminals, first, owner, nextInput);
      CompiledTrue(t, bb.gates, terminals, n, e.0.p, eq);
      AllCompiledKeeps(t0, bb.gates, terms0, terminals, asserted, bb.assertions);
      bb.Assertion(eq);
      asserted := asserted + [n];
    }

    /**
     The asserted gates can be made true together exactly when the asserted trees have a
     model over the declared variables.
     */
    lemma AssertionsPreserveSatisfiability(scope: Scope)
      requires Valid(scope) && Asserted() && KindsOk(scope)
      ensures (exists env :: AllTrue(bb.gates, bb.assertions, env))
        <==> (exists m :: ModelFits(m, scope) && AllHold(asserted, m))
    {
      if env :| AllTrue(bb.gates, bb.assertions, env) {
        var m := ModelFromGates(bb.gates, terminals, scope, asserted, bb.assertions, env);
      }
      if m :| ModelFits(m, scope) && AllHold(asserted, m) {
        GatesFromModel(bb.gates, terminals, first, owner, nextInput, scope, asserted, bb.assertions, m);
      }
    }
  }
}
