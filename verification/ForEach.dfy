/**
 Unrolling a constraint over the elements of a vector: the placeholder becomes a constant,
 accesses become the variables of the elements, and an instance whose subscripts leave the
 vector is dropped.
 */
module ForEachExpansion {
  import opened Bits
  import opened SmtLib
  import opened Division
  import opened Ast
  import opened FixWidth
  import M = MetaSMT

  // ----- Subscripts: machine integers of 32 bits -----

  /** A 64-bit or unsigned value stored in an int. */
  function AsInt(v: nat): int { Signed(FromInt(v, 32)) }

  /** No value where the operation on ints is undefined, here because it overflows. */
  function Checked(v: int): Option<int> { if -Pow2(31) <= v < Pow2(31) then Some(v) else None }

  function Truth(b: bool): Option<int> { Some(if b then 1 else 0) }

  function UnarySub(op: UnaryOp, x: int): Option<int> {
    match op
    case Not => Truth(x == 0)
    case Neg => Checked(-x)
    case Complement => Some(-x - 1)
  }

  function BinarySub(op: BinaryOp, x: int, y: int): Option<int> {
    match op
    case BitAnd => Some(Signed(BvAnd(FromInt(x, 32), FromInt(y, 32))))
    case BitOr => Some(Signed(BvOr(FromInt(x, 32), FromInt(y, 32))))
    case BitXor => Some(Signed(BvXor(FromInt(x, 32), FromInt(y, 32))))
    case LogicalAnd => Truth(x != 0 && y != 0)
    case LogicalOr => Truth(x != 0 || y != 0)
    case Equal => Truth(x == y)
    case NotEqual => Truth(x != y)
    case Less => Truth(x < y)
    case LessEqual => Truth(x <= y)
    case Greater => Truth(x > y)
    case GreaterEqual => Truth(x >= y)
    case Plus => Checked(x + y)
    case Minus => Checked(x - y)
    case Multiplies => Checked(x * y)
    case Devide => if y == 0 then None else Checked(SignedQuotient(x, y))
    case Modulo =>
      if y == 0 || Checked(SignedQuotient(x, y)) == None then None else Some(x - y * SignedQuotient(x, y))
    case ShiftLeft => if x >= 0 && 0 <= y < 32 then Checked(x * Pow2(y)) else None
    case ShiftRight => if 0 <= y < 32 then Some(x / Pow2(y)) else None
  }

  /**
   The subscript that is computed beside every expression at index idx. Variables count as
   zero; None where some operation on the way is undefined or not allowed.
   */
  function Subscript(n: Node, idx: nat): Option<int> {
    match n
    case Placeholder(_) => Some(AsInt(idx))
    case VariableExpr(_, _, _) => Some(0)
    case ConstantExpr(c) => Some(AsInt(c.value))
    case VectorExpr(_, _, _) => Some(0)
    case Unary(op, child) => var x := Subscript(child, idx); if x.Some? then UnarySub(op, x.value) else None
    case Inside(child, _) => Subscript(child, idx)
    case Extend(child, _) => Subscript(child, idx)
    case Binary(op, l, r) =>
      var x, y := Subscript(l, idx), Subscript(r, idx);
      if x.Some? && y.Some? then BinarySub(op, x.value, y.value) else None
    case VectorAccess(l, r) => if Subscript(l, idx).Some? && Subscript(r, idx).Some? then Some(0) else None
    case IfThenElse(a, b, c) =>
      var x, y, z := Subscript(a, idx), Subscript(b, idx), Subscript(c, idx);
      if x.Some? && y.Some? && z.Some? then Some(if x.value != 0 then y.value else z.value) else None
    case ForEach(_, r) => Subscript(r, idx)
    case Unique(_) => None
    case Bitslice(child, _, _) => var x := Subscript(child, idx); if x.Some? then Truth(x.value == 0) else None
  }

  /** A subscript that stays inside a vector of the given size. */
  predicate IsIndex(s: Option<int>, size: nat) { s.Some? && 0 <= s.value < size && s.value < AsInt(size) }

  /** All subscripts at index idx stay inside the vector. */
  predicate InRange(n: Node, idx: nat, size: nat) {
    match n
    case Placeholder(_) => true
    case VariableExpr(_, _, _) => true
    case ConstantExpr(_) => true
    case VectorExpr(_, _, _) => true
    case Unary(_, child) => InRange(child, idx, size)
    case Inside(child, _) => InRange(child, idx, size)
    case Extend(child, _) => InRange(child, idx, size)
    case Binary(_, l, r) => InRange(l, idx, size) && InRange(r, idx, size)
    case VectorAccess(l, r) => InRange(l, idx, size) && InRange(r, idx, size) && IsIndex(Subscript(r, idx), size)
    case IfThenElse(a, b, c) => InRange(a, idx, size) && InRange(b, idx, size) && InRange(c, idx, size)
    case ForEach(_, r) => InRange(r, idx, size)
    case Unique(_) => false
    case Bitslice(child, _, _) => InRange(child, idx, size)
  }

  // ----- The instance at an index -----

  /** The tree with the placeholder and the accesses replaced; ids are the variables of the elements. */
  function Instance(n: Node, idx: nat, ids: seq<nat>): Node {
    match n
    case Placeholder(_) => ConstantExpr(Constant(idx, PLACEHOLDER_BITSIZE, false))
    case VariableExpr(_, _, _) => n
    case ConstantExpr(_) => n
    case VectorExpr(_, _, _) => n
    case Unary(op, child) => Unary(op, Instance(child, idx, ids))
    case Inside(child, collection) => Inside(Instance(child, idx, ids), collection)
    case Extend(child, k) => Extend(Instance(child, idx, ids), k)
    case Binary(op, l, r) => Binary(op, Instance(l, idx, ids), Instance(r, idx, ids))
    case VectorAccess(l, r) =>
      var s := Subscript(r, idx);
      if l.VectorExpr? && IsIndex(s, |ids|) then VariableExpr(ids[s.value], l.bitsize, l.sign) else n
    case IfThenElse(a, b, c) => IfThenElse(Instance(a, idx, ids), Instance(b, idx, ids), Instance(c, idx, ids))
    case ForEach(_, r) => Instance(r, idx, ids)
    case Unique(_) => n
    case Bitslice(child, r, l) => Bitslice(Instance(child, idx, ids), r, l)
  }

  /** The elements after a visit: every accessed one has taken the type of the vector. */
  function Typed(n: Node, idx: nat, vars: seq<Node>): (r: seq<Node>)
    ensures |r| == |vars|
  {
    match n
    case Placeholder(_) => vars
    case VariableExpr(_, _, _) => vars
    case ConstantExpr(_) => vars
    case VectorExpr(_, _, _) => vars
    case Unary(_, child) => Typed(child, idx, vars)
    case Inside(child, _) => Typed(child, idx, vars)
    case Extend(child, _) => Typed(child, idx, vars)
    case Binary(_, l, r) => Typed(r, idx, Typed(l, idx, vars))
    case VectorAccess(l, r) =>
      var v := Typed(r, idx, Typed(l, idx, vars));
      var s := Subscript(r, idx);
      if l.VectorExpr? && IsIndex(s, |v|) && v[s.value].VariableExpr? then
        v[s.value := VariableExpr(v[s.value].id, l.bitsize, l.sign)]
      else v
    case IfThenElse(a, b, c) => Typed(c, idx, Typed(b, idx, Typed(a, idx, vars)))
    case ForEach(_, r) => Typed(r, idx, vars)
    case Unique(_) => vars
    case Bitslice(child, _, _) => Typed(child, idx, vars)
  }

  /** The elements are variables, by their ids. */
  ghost predicate Named(vars: seq<Node>, ids: seq<nat>) {
    |vars| == |ids| && forall k | 0 <= k < |ids| :: vars[k].VariableExpr? && vars[k].id == ids[k]
  }

  lemma {:induction false} TypedKeepsNames(n: Node, idx: nat, vars: seq<Node>, ids: seq<nat>)
    requires Named(vars, ids)
    ensures Named(Typed(n, idx, vars), ids)
  {
    match n
    case Unary(_, child) => TypedKeepsNames(child, idx, vars, ids);
    case Inside(child, _) => TypedKeepsNames(child, idx, vars, ids);
    case Extend(child, _) => TypedKeepsNames(child, idx, vars, ids);
    case Binary(_, l, r) =>
      TypedKeepsNames(l, idx, vars, ids);
      TypedKeepsNames(r, idx, Typed(l, idx, vars), ids);
    case VectorAccess(l, r) =>
      TypedKeepsNames(l, idx, vars, ids);
      TypedKeepsNames(r, idx, Typed(l, idx, vars), ids);
    case IfThenElse(a, b, c) =>
      TypedKeepsNames(a, idx, vars, ids);
      TypedKeepsNames(b, idx, Typed(a, idx, vars), ids);
      TypedKeepsNames(c, idx, Typed(b, idx, Typed(a, idx, vars)), ids);
    case ForEach(_, r) => TypedKeepsNames(r, idx, vars, ids);
    case Bitslice(child, _, _) => TypedKeepsNames(child, idx, vars, ids);
    case _ =>
  }

  // ----- The visitor -----

  /** What an id stands for; placeholders, variables and vectors share the ids. */
  type Names = nat -> Node

  /** Accesses go to vectors, and every id always stands for the same terminal. */
  ghost predicate Shaped(n: Node, names: Names) {
    match n
    case Placeholder(p) => names(p) == n
    case VariableExpr(id, _, _) => names(id) == n
    case ConstantExpr(_) => true
    case VectorExpr(id, _, _) => names(id) == n
    case Unary(_, child) => Shaped(child, names)
    case Inside(child, _) => Shaped(child, names)
    case Extend(child, _) => Shaped(child, names)
    case Binary(_, l, r) => Shaped(l, names) && Shaped(r, names)
    case VectorAccess(l, r) => l.VectorExpr? && Shaped(l, names) && Shaped(r, names)
    case IfThenElse(a, b, c) => Shaped(a, names) && Shaped(b, names) && Shaped(c, names)
    case ForEach(_, r) => Shaped(r, names)
    case Unique(_) => false
    case Bitslice(child, _, _) => Shaped(child, names)
  }

  /** The list of element variables that the vector solver and the visitor share. */
  class VectorElements {
    var elements: seq<Node>

    constructor ()
      ensures elements == []
    {
      elements := [];
    }
  }

  ghost predicate TerminalsOk(terminals: map<nat, Node>, names: Names, idx: nat) {
    forall id | id in terminals :: terminals[id] == Instance(names(id), idx, [])
  }

  class ReplaceVisitor {
    const variables: VectorElements
    var vecIdx: nat
    var okay: bool
    var result: Option<Node>
    var auxStack: seq<Node>
    var subscriptStack: seq<int>
    var terminals: map<nat, Node>

    constructor (variables: VectorElements)
      ensures this.variables == variables && vecIdx == 0 && IsReset()
    {
      this.variables := variables;
      vecIdx, okay, result, auxStack, subscriptStack, terminals := 0, true, None, [], [], map[];
    }

    predicate IsReset()
      reads this
    {
      okay && result == None && auxStack == [] && subscriptStack == [] && terminals == map[]
    }

    method Reset()
      modifies this
      ensures IsReset() && vecIdx == old(vecIdx)
    {
      okay, result, auxStack, subscriptStack, terminals := true, None, [], [], map[];
    }

    method SetVecIdx(idx: nat)
      modifies this`vecIdx
      ensures vecIdx == idx
    {
      vecIdx := idx;
    }

    method PopAux() returns (n: Node)
      requires auxStack != []
      modifies this`auxStack
      ensures n == old(auxStack)[|old(auxStack)| - 1] && auxStack == old(auxStack)[..|old(auxStack)| - 1]
    {
      n := auxStack[|auxStack| - 1];
      auxStack := auxStack[..|auxStack| - 1];
    }

    method PushAux(n: Node)
      modifies this`auxStack, this`result
      ensures auxStack == old(auxStack) + [n] && result == Some(n)
    {
      auxStack := auxStack + [n];
      result := Some(n);
    }

    method PopSub() returns (s: int)
      requires subscriptStack != []
      modifies this`subscriptStack
      ensures s == old(subscriptStack)[|old(subscriptStack)| - 1]
      ensures subscriptStack == old(subscriptStack)[..|old(subscriptStack)| - 1]
    {
      s := subscriptStack[|subscriptStack| - 1];
      subscriptStack := subscriptStack[..|subscriptStack| - 1];
    }

    method PushSub(s: int)
      modifies this`subscriptStack
      ensures subscriptStack == old(subscriptStack) + [s]
    {
      subscriptStack := subscriptStack + [s];
    }

    /** A terminal is looked up first, so that every id is built once. */
    method PushTerminal(id: nat, n: Node, ghost names: Names)
      requires TerminalsOk(terminals, names, vecIdx) && n == Instance(names(id), vecIdx, [])
      modifies this`auxStack, this`result, this`terminals
      ensures TerminalsOk(terminals, names, vecIdx)
      ensures auxStack == old(auxStack) + [n] && result == Some(n)
    {
      if id in terminals {
        PushAux(terminals[id]);
      } else {
        PushAux(n);
        terminals := terminals[id := n];
      }
    }

    function Value(): VState
      reads this, variables
    {
      VState(okay, auxStack, subscriptStack, variables.elements)
    }

    ghost predicate Ready(names: Names, ids: seq<nat>)
      reads this, variables
    {
      TerminalsOk(terminals, names, vecIdx) && Named(variables.elements, ids) && ids != []
    }

    method EvalBinSubscript() returns (l: int, r: int)
      requires |subscriptStack| >= 2
      modifies this`subscriptStack
      ensures var n := |old(subscriptStack)|;
        r == old(subscriptStack)[n - 1] && l == old(subscriptStack)[n - 2]
          && subscriptStack == old(subscriptStack)[..n - 2]
    {
      r := PopSub();
      l := PopSub();
    }

    /** Visit the operand and take it off the first stack; its subscript stays on the second. */
    method EvalUnaryExpr(ghost n: Node, child: Node, ghost names: Names, ghost ids: seq<nat>) returns (c: Node)
      requires child < n && Shaped(child, names) && Subscript(child, vecIdx).Some? && Ready(names, ids)
      modifies this`okay, this`result, this`auxStack, this`subscriptStack, this`terminals, variables
      ensures Ready(names, ids) && auxStack == old(auxStack)
      ensures Evaluated(child, vecIdx, ids, old(Value()), Value(), c)
      decreases n, 0
    {
      Visit(child, names, ids);
      c := PopAux();
    }

    method EvalBinExpr(ghost n: Node, l: Node, r: Node, ghost names: Names, ghost ids: seq<nat>)
        returns (lhs: Node, rhs: Node)
      requires l < n && r < n && Shaped(l, names) && Shaped(r, names) && Ready(names, ids)
      requires Subscript(l, vecIdx).Some? && Subscript(r, vecIdx).Some?
      modifies this`okay, this`result, this`auxStack, this`subscriptStack, this`terminals, variables
      ensures Ready(names, ids) && auxStack == old(auxStack)
      ensures EvaluatedBoth(l, r, vecIdx, ids, old(Value()), Value(), lhs, rhs)
      decreases n, 0
    {
      hide Subscript, InRange, Instance, Typed, UnarySub, BinarySub, AsInt, Shaped;
      Visit(l, names, ids);
      Visit(r, names, ids);
      rhs := PopAux();
      lhs := PopAux();
    }

    method Visit(n: Node, ghost names: Names, ghost ids: seq<nat>)
      requires Shaped(n, names) && Subscript(n, vecIdx).Some? && Ready(names, ids)
      modifies this`okay, this`result, this`auxStack, this`subscriptStack, this`terminals, variables
      ensures Ready(names, ids) && Visited(n, vecIdx, ids, old(Value()), Value())
      ensures result == Some(auxStack[|old(auxStack)|])
      decreases n, 2
    {
      match n
      case Placeholder(_) => VisitTerminal(n, names, ids);
      case VariableExpr(_, _, _) => VisitTerminal(n, names, ids);
      case ConstantExpr(_) => VisitTerminal(n, names, ids);
      case VectorExpr(_, _, _) => VisitTerminal(n, names, ids);
      case Unary(op, child) => VisitUnary(op, child, names, ids);
      case Inside(child, collection) =>
        SubscriptOfParts(n, vecIdx);
        ghost var before := Value();
        var c := EvalUnaryExpr(n, child, names, ids);
        PushAux(Inside(c, collection));
        WrapperVisited(n, child, vecIdx, ids, before, Value(), c);
      case Extend(child, k) =>
        SubscriptOfParts(n, vecIdx);
        ghost var before := Value();
        var c := EvalUnaryExpr(n, child, names, ids);
        PushAux(Extend(c, k));
        WrapperVisited(n, child, vecIdx, ids, before, Value(), c);
      case Binary(op, l, r) => VisitBinary(op, l, r, names, ids);
      case VectorAccess(l, r) => VisitVectorAccess(l, r, names, ids);
      case IfThenElse(a, b, c) => VisitIfThenElse(a, b, c, names, ids);
      case ForEach(l, r) => Visit(r, names, ids);
      case Unique(_) => assert false;
      case Bitslice(child, r, l) => VisitBitslice(child, r, l, names, ids);
    }

    method VisitTerminal(n: Node, ghost names: Names, ghost ids: seq<nat>)
      requires n.Placeholder? || n.VariableExpr? || n.ConstantExpr? || n.VectorExpr?
      requires Shaped(n, names) && Ready(names, ids)
      modifies this`result, this`auxStack, this`subscriptStack, this`terminals
      ensures Ready(names, ids) && Visited(n, vecIdx, ids, old(Value()), Value())
      ensures result == Some(auxStack[|old(auxStack)|])
    {
      match n
      case Placeholder(p) =>
        PushTerminal(p, ConstantExpr(Constant(vecIdx, PLACEHOLDER_BITSIZE, false)), names);
        PushSub(AsInt(vecIdx));
      case VariableExpr(id, _, _) =>
        PushTerminal(id, n, names);
        PushSub(0);
      case ConstantExpr(c) =>
        PushAux(n);
        PushSub(AsInt(c.value));
      case VectorExpr(id, _, _) =>
        PushTerminal(id, n, names);
        PushSub(0);
    }

    method VisitUnary(op: UnaryOp, child: Node, ghost names: Names, ghost ids: seq<nat>)
      requires Shaped(Unary(op, child), names) && Subscript(Unary(op, child), vecIdx).Some? && Ready(names, ids)
      modifies this`okay, this`result, this`auxStack, this`subscriptStack, this`terminals, variables
      ensures Ready(names, ids) && Visited(Unary(op, child), vecIdx, ids, old(Value()), Value())
      ensures result == Some(auxStack[|old(auxStack)|])
      decreases Unary(op, child), 1
    {
      ghost var n, before := Unary(op, child), Value();
      SubscriptOfParts(n, vecIdx);
      assert Shaped(child, names);
      hide Subscript, InRange, Instance, Typed, UnarySub, BinarySub, AsInt, Shaped, TerminalsOk, Named;
      var c := EvalUnaryExpr(n, child, names, ids);
      ghost var mid := Value();
      PushAux(Unary(op, c));
      var x := PopSub();
      PushSub(UnarySub(op, x).value);
      UnaryVisited(op, child, vecIdx, ids, before, mid, Value(), c);
    }

    method VisitBitslice(child: Node, r: nat, l: nat, ghost names: Names, ghost ids: seq<nat>)
      requires Shaped(Bitslice(child, r, l), names) && Subscript(Bitslice(child, r, l), vecIdx).Some?
      requires Ready(names, ids)
      modifies this`okay, this`result, this`auxStack, this`subscriptStack, this`terminals, variables
      ensures Ready(names, ids) && Visited(Bitslice(child, r, l), vecIdx, ids, old(Value()), Value())
      ensures result == Some(auxStack[|old(auxStack)|])
      decreases Bitslice(child, r, l), 1
    {
      ghost var n, before := Bitslice(child, r, l), Value();
      SubscriptOfParts(n, vecIdx);
      assert Shaped(child, names);
      hide Subscript, InRange, Instance, Typed, UnarySub, BinarySub, AsInt, Shaped, TerminalsOk, Named;
      var c := EvalUnaryExpr(n, child, names, ids);
      ghost var mid := Value();
      PushAux(Bitslice(c, r, l));
      var x := PopSub();
      PushSub(if x == 0 then 1 else 0);
      BitsliceVisited(child, r, l, vecIdx, ids, before, mid, Value(), c);
    }

    method VisitBinary(op: BinaryOp, l: Node, r: Node, ghost names: Names, ghost ids: seq<nat>)
      requires Shaped(Binary(op, l, r), names) && Subscript(Binary(op, l, r), vecIdx).Some? && Ready(names, ids)
      modifies this`okay, this`result, this`auxStack, this`subscriptStack, this`terminals, variables
      ensures Ready(names, ids) && Visited(Binary(op, l, r), vecIdx, ids, old(Value()), Value())
      ensures result == Some(auxStack[|old(auxStack)|])
      decreases Binary(op, l, r), 1
    {
      ghost var n := Binary(op, l, r);
      SubscriptOfParts(n, vecIdx);
      assert Shaped(l, names) && Shaped(r, names);
      hide *;
      var lhs, rhs := EvalBinExpr(n, l, r, names, ids);
      FinishBinary(op, l, r, lhs, rhs, names, ids, old(Value()));
    }

    method FinishBinary(op: BinaryOp, ghost l: Node, ghost r: Node, lhs: Node, rhs: Node, ghost names: Names,
        ghost ids: seq<nat>, ghost s: VState)
      requires Ready(names, ids) && auxStack == s.aux && EvaluatedBoth(l, r, vecIdx, ids, s, Value(), lhs, rhs)
      requires BinarySub(op, Subscript(l, vecIdx).value, Subscript(r, vecIdx).value).Some?
      modifies this`result, this`auxStack, this`subscriptStack
      ensures Ready(names, ids) && Visited(Binary(op, l, r), vecIdx, ids, s, Value())
      ensures result == Some(auxStack[|s.aux|])
    {
      hide Subscript, InRange, Instance, Typed, UnarySub, BinarySub, AsInt, Shaped, TerminalsOk, Named, Visited;
      ghost var mid := Value();
      TopTwo(mid.subs, s.subs, Subscript(l, vecIdx).value, Subscript(r, vecIdx).value);
      PushAux(Binary(op, lhs, rhs));
      var x, y := EvalBinSubscript();
      PushSub(BinarySub(op, x, y).value);
      BinaryVisited(op, l, r, vecIdx, ids, s, mid, Value(), lhs, rhs);
    }

    /** An access inside the vector becomes the element's variable, which takes the type of the vector. */
    method VisitVectorAccess(l: Node, r: Node, ghost names: Names, ghost ids: seq<nat>)
      requires Shaped(VectorAccess(l, r), names) && Subscript(VectorAccess(l, r), vecIdx).Some? && Ready(names, ids)
      modifies this`okay, this`result, this`auxStack, this`subscriptStack, this`terminals, variables
      ensures Ready(names, ids) && Visited(VectorAccess(l, r), vecIdx, ids, old(Value()), Value())
      ensures result == Some(auxStack[|old(auxStack)|])
      decreases VectorAccess(l, r), 1
    {
      ghost var n := VectorAccess(l, r);
      SubscriptOfParts(n, vecIdx);
      assert l.VectorExpr? && Shaped(l, names) && Shaped(r, names);
      hide *;
      var lhs, rhs := EvalBinExpr(n, l, r, names, ids);
      FinishAccess(l, r, lhs, rhs, names, ids, old(Value()));
    }

    method FinishAccess(ghost l: Node, ghost r: Node, lhs: Node, ghost rhs: Node, ghost names: Names,
        ghost ids: seq<nat>, ghost s: VState)
      requires Ready(names, ids) && auxStack == s.aux && EvaluatedBoth(l, r, vecIdx, ids, s, Value(), lhs, rhs)
      requires l.VectorExpr?
      modifies this`okay, this`result, this`auxStack, this`subscriptStack, variables
      ensures Ready(names, ids) && Visited(VectorAccess(l, r), vecIdx, ids, s, Value())
      ensures result == Some(auxStack[|s.aux|])
    {
      InstanceOfVector(l, vecIdx, ids);
      hide Subscript, InRange, Instance, Typed, UnarySub, BinarySub, AsInt, Shaped, TerminalsOk, Named, Visited;
      hide Accessed;
      ghost var mid := Value();
      TopTwo(mid.subs, s.subs, Subscript(l, vecIdx).value, Subscript(r, vecIdx).value);
      var x, i := EvalBinSubscript();
      assert lhs == l && i == Subscript(r, vecIdx).value;
      ghost var popped := Value();
      assert popped == mid.(aux := s.aux, subs := s.subs);
      Access(i, lhs, ids);
      ghost var accessed := Value();
      assert accessed.subs == s.subs;
      PushSub(0);
      assert accessed == Value().(subs := s.subs);
      AccessVisited(l, r, i, vecIdx, ids, s, mid, Value(), lhs, rhs);
    }

    method Access(i: int, vec: Node, ghost ids: seq<nat>)
      requires vec.VectorExpr? && Named(variables.elements, ids) && ids != []
      modifies this`okay, this`result, this`auxStack, variables
      ensures Named(variables.elements, ids) && |auxStack| == |old(auxStack)| + 1
      ensures Accessed(i, vec, ids, old(Value()), Value()) && result == Some(auxStack[|old(auxStack)|])
    {
      AsIntAtMost(|variables.elements|);
      if 0 <= i && i < AsInt(|variables.elements|) {
        variables.elements := variables.elements[i := VariableExpr(variables.elements[i].id, vec.bitsize, vec.sign)];
        PushAux(variables.elements[i]);
      } else {
        PushAux(variables.elements[0]);
        okay := false;
      }
    }

    method VisitIfThenElse(a: Node, b: Node, c: Node, ghost names: Names, ghost ids: seq<nat>)
      requires Shaped(IfThenElse(a, b, c), names) && Subscript(IfThenElse(a, b, c), vecIdx).Some? && Ready(names, ids)
      modifies this`okay, this`result, this`auxStack, this`subscriptStack, this`terminals, variables
      ensures Ready(names, ids) && Visited(IfThenElse(a, b, c), vecIdx, ids, old(Value()), Value())
      ensures result == Some(auxStack[|old(auxStack)|])
      decreases IfThenElse(a, b, c), 1
    {
      ghost var n := IfThenElse(a, b, c);
      SubscriptOfParts(n, vecIdx);
      assert Shaped(a, names) && Shaped(b, names) && Shaped(c, names);
      hide *;
      var fst, snd, trd := EvalTernExpr(n, a, b, c, names, ids);
      FinishIfThenElse(a, b, c, fst, snd, trd, names, ids, old(Value()));
    }

    method FinishIfThenElse(ghost a: Node, ghost b: Node, ghost c: Node, fst: Node, snd: Node, trd: Node,
        ghost names: Names, ghost ids: seq<nat>, ghost s: VState)
      requires Ready(names, ids) && auxStack == s.aux && EvaluatedThree(a, b, c, vecIdx, ids, s, Value(), fst, snd, trd)
      modifies this`result, this`auxStack, this`subscriptStack
      ensures Ready(names, ids) && Visited(IfThenElse(a, b, c), vecIdx, ids, s, Value())
      ensures result == Some(auxStack[|s.aux|])
    {
      hide Subscript, InRange, Instance, Typed, UnarySub, BinarySub, AsInt, Shaped, TerminalsOk, Named, Visited;
      ghost var mid := Value();
      TopThree(mid.subs, s.subs, Subscript(a, vecIdx).value, Subscript(b, vecIdx).value, Subscript(c, vecIdx).value);
      PushAux(IfThenElse(fst, snd, trd));
      var x, y, z := EvalTernSubscript();
      PushSub(if x != 0 then y else z);
      IteVisited(a, b, c, vecIdx, ids, s, mid, Value(), fst, snd, trd);
    }

    method EvalTernExpr(ghost n: Node, a: Node, b: Node, c: Node, ghost names: Names, ghost ids: seq<nat>)
        returns (fst: Node, snd: Node, trd: Node)
      requires a < n && b < n && c < n && Shaped(a, names) && Shaped(b, names) && Shaped(c, names) && Ready(names, ids)
      requires Subscript(a, vecIdx).Some? && Subscript(b, vecIdx).Some? && Subscript(c, vecIdx).Some?
      modifies this`okay, this`result, this`auxStack, this`subscriptStack, this`terminals, variables
      ensures Ready(names, ids) && auxStack == old(auxStack)
      ensures EvaluatedThree(a, b, c, vecIdx, ids, old(Value()), Value(), fst, snd, trd)
      decreases n, 0
    {
      hide Subscript, InRange, Instance, Typed, UnarySub, BinarySub, AsInt, Shaped, TerminalsOk, Named;
      ghost var s0 := Value();
      Visit(a, names, ids);
      ghost var s1 := Value();
      Visit(b, names, ids);
      ghost var s2 := Value();
      Visit(c, names, ids);
      ThreeOnTop(s0, s1, s2, Value(), a, b, c, vecIdx, ids);
      hide Visited;
      trd := PopAux();
      snd := PopAux();
      fst := PopAux();
    }

    method EvalTernSubscript() returns (x: int, y: int, z: int)
      requires |subscriptStack| >= 3
      modifies this`subscriptStack
      ensures var n := |old(subscriptStack)|;
        && z == old(subscriptStack)[n - 1] && y == old(subscriptStack)[n - 2] && x == old(subscriptStack)[n - 3]
        && subscriptStack == old(subscriptStack)[..n - 3]
    {
      z := PopSub();
      y := PopSub();
      x := PopSub();
    }
  }

  datatype VState = VState(okay: bool, aux: seq<Node>, subs: seq<int>, vars: seq<Node>)

  /**
   What a visit does: one more tree and one more subscript on the stacks, the flag cleared
   when a subscript leaves the vector, and otherwise the instance of the tree on top.
   */
  ghost predicate Visited(n: Node, idx: nat, ids: seq<nat>, s: VState, s': VState) {
    && Subscript(n, idx).Some?
    && s'.subs == s.subs + [Subscript(n, idx).value]
    && |s'.aux| == |s.aux| + 1 && s'.aux[..|s.aux|] == s.aux
    && (InRange(n, idx, |ids|) ==> s'.aux[|s.aux|] == Instance(n, idx, ids))
    && s'.okay == (s.okay && InRange(n, idx, |ids|))
    && s'.vars == Typed(n, idx, s.vars)
  }

  ghost predicate Evaluated(n: Node, idx: nat, ids: seq<nat>, s: VState, s': VState, c: Node) {
    && Subscript(n, idx).Some?
    && s'.subs == s.subs + [Subscript(n, idx).value]
    && (InRange(n, idx, |ids|) ==> c == Instance(n, idx, ids))
    && s'.okay == (s.okay && InRange(n, idx, |ids|))
    && s'.vars == Typed(n, idx, s.vars)
  }

  ghost predicate EvaluatedBoth(l: Node, r: Node, idx: nat, ids: seq<nat>, s: VState, s': VState, lhs: Node,
      rhs: Node)
  {
    && Subscript(l, idx).Some? && Subscript(r, idx).Some?
    && s'.subs == s.subs + [Subscript(l, idx).value, Subscript(r, idx).value]
    && (InRange(l, idx, |ids|) ==> lhs == Instance(l, idx, ids))
    && (InRange(r, idx, |ids|) ==> rhs == Instance(r, idx, ids))
    && s'.okay == (s.okay && InRange(l, idx, |ids|) && InRange(r, idx, |ids|))
    && s'.vars == Typed(r, idx, Typed(l, idx, s.vars))
  }

  /** The part of the visit of an access that follows its operands. */
  ghost predicate Accessed(i: int, vec: Node, ids: seq<nat>, s: VState, s': VState)
    requires vec.VectorExpr? && |s.vars| == |ids|
  {
    var hit := IsIndex(Some(i), |ids|);
    && |s'.aux| == |s.aux| + 1 && s'.aux[..|s.aux|] == s.aux && s'.subs == s.subs && s'.okay == (s.okay && hit)
    && if hit then
         s'.aux[|s.aux|] == VariableExpr(ids[i], vec.bitsize, vec.sign) && s'.vars == s.vars[i := s'.aux[|s.aux|]]
       else s'.vars == s.vars && (s.vars != [] ==> s'.aux[|s.aux|] == s.vars[0])
  }

  lemma InstanceOfVector(l: Node, idx: nat, ids: seq<nat>)
    requires l.VectorExpr?
    ensures InRange(l, idx, |ids|) && Instance(l, idx, ids) == l
  {
  }

  lemma SubscriptOfParts(n: Node, idx: nat)
    requires Subscript(n, idx).Some?
    ensures n.Unary? ==>
      Subscript(n.child, idx).Some? && Subscript(n, idx) == UnarySub(n.uop, Subscript(n.child, idx).value)
    ensures n.Inside? || n.Extend? ==> Subscript(n.child, idx).Some? && Subscript(n, idx) == Subscript(n.child, idx)
    ensures n.Binary? || n.VectorAccess? ==> Subscript(n.lhs, idx).Some? && Subscript(n.rhs, idx).Some?
    ensures n.Binary? ==> Subscript(n, idx) == BinarySub(n.op, Subscript(n.lhs, idx).value, Subscript(n.rhs, idx).value)
    ensures n.VectorAccess? ==> Subscript(n, idx) == Some(0)
    ensures n.IfThenElse? ==> Subscript(n.a, idx).Some? && Subscript(n.b, idx).Some? && Subscript(n.c, idx).Some?
    ensures n.IfThenElse? ==> Subscript(n, idx) == Subscript(if Subscript(n.a, idx).value != 0 then n.b else n.c, idx)
    ensures n.Bitslice? ==>
      Subscript(n.child, idx).Some? && Subscript(n, idx) == Truth(Subscript(n.child, idx).value == 0)
  {
    hide UnarySub, BinarySub, AsInt, Truth;
  }

  lemma UnaryVisited(op: UnaryOp, child: Node, idx: nat, ids: seq<nat>, s: VState, mid: VState, s': VState, c: Node)
    requires Evaluated(child, idx, ids, s, mid, c) && UnarySub(op, Subscript(child, idx).value).Some?
    requires s' == mid.(aux := s.aux + [Unary(op, c)],
      subs := s.subs + [UnarySub(op, Subscript(child, idx).value).value])
    ensures Visited(Unary(op, child), idx, ids, s, s')
  {
    hide UnarySub, BinarySub, AsInt, Truth;
  }

  lemma WrapperVisited(n: Node, child: Node, idx: nat, ids: seq<nat>, s: VState, s': VState, c: Node)
    requires (n.Inside? || n.Extend?) && n.child == child && Evaluated(child, idx, ids, s, s', c)
    requires s'.aux == s.aux + [if n.Inside? then Inside(c, n.collection) else Extend(c, n.value)]
    ensures Visited(n, idx, ids, s, s')
  {
    hide UnarySub, BinarySub, AsInt, Truth;
  }

  lemma BitsliceVisited(child: Node, r: nat, l: nat, idx: nat, ids: seq<nat>, s: VState, mid: VState, s': VState,
      c: Node)
    requires Evaluated(child, idx, ids, s, mid, c)
    requires s' == mid.(aux := s.aux + [Bitslice(c, r, l)],
      subs := s.subs + [if Subscript(child, idx).value == 0 then 1 else 0])
    ensures Visited(Bitslice(child, r, l), idx, ids, s, s')
  {
    hide UnarySub, BinarySub, AsInt;
  }

  lemma BinaryVisited(op: BinaryOp, l: Node, r: Node, idx: nat, ids: seq<nat>, s: VState, mid: VState, s': VState,
      lhs: Node, rhs: Node)
    requires EvaluatedBoth(l, r, idx, ids, s, mid, lhs, rhs)
    requires var v := BinarySub(op, Subscript(l, idx).value, Subscript(r, idx).value);
      v.Some? && s' == mid.(aux := s.aux + [Binary(op, lhs, rhs)], subs := s.subs + [v.value])
    ensures Visited(Binary(op, l, r), idx, ids, s, s')
  {
    hide UnarySub, BinarySub, AsInt, Truth;
  }

  lemma AccessVisited(l: Node, r: Node, i: int, idx: nat, ids: seq<nat>, s: VState, mid: VState, s': VState,
      lhs: Node, rhs: Node)
    requires l.VectorExpr? && EvaluatedBoth(l, r, idx, ids, s, mid, lhs, rhs) && Named(mid.vars, ids)
    requires Subscript(r, idx) == Some(i)
    requires Accessed(i, l, ids, mid.(aux := s.aux, subs := s.subs), s'.(subs := s.subs)) && s'.subs == s.subs + [0]
    ensures Visited(VectorAccess(l, r), idx, ids, s, s')
  {
    hide UnarySub, BinarySub, AsInt, Truth, IsIndex;
    InstanceOfVector(l, idx, ids);
    AccessUnfolds(l, r, idx, ids, mid.vars, s.vars);
  }

  lemma AccessUnfolds(l: Node, r: Node, idx: nat, ids: seq<nat>, vars: seq<Node>, vars0: seq<Node>)
    requires l.VectorExpr? && Named(vars, ids) && vars == Typed(r, idx, Typed(l, idx, vars0)) && Subscript(r, idx).Some?
    ensures var i := Subscript(r, idx);
      var hit := IsIndex(i, |ids|);
      && Subscript(VectorAccess(l, r), idx) == Some(0)
      && InRange(VectorAccess(l, r), idx, |ids|) == (InRange(r, idx, |ids|) && hit)
      && (hit ==> Instance(VectorAccess(l, r), idx, ids) == VariableExpr(ids[i.value], l.bitsize, l.sign))
      && Typed(VectorAccess(l, r), idx, vars0)
        == if hit then vars[i.value := VariableExpr(ids[i.value], l.bitsize, l.sign)] else vars
  {
    hide UnarySub, BinarySub, AsInt, Truth;
  }

  ghost predicate EvaluatedThree(a: Node, b: Node, c: Node, idx: nat, ids: seq<nat>, s: VState, s': VState, x: Node,
      y: Node, z: Node)
  {
    && Subscript(a, idx).Some? && Subscript(b, idx).Some? && Subscript(c, idx).Some?
    && s'.subs == s.subs + [Subscript(a, idx).value, Subscript(b, idx).value, Subscript(c, idx).value]
    && (InRange(a, idx, |ids|) ==> x == Instance(a, idx, ids))
    && (InRange(b, idx, |ids|) ==> y == Instance(b, idx, ids))
    && (InRange(c, idx, |ids|) ==> z == Instance(c, idx, ids))
    && s'.okay == (s.okay && InRange(a, idx, |ids|) && InRange(b, idx, |ids|) && InRange(c, idx, |ids|))
    && s'.vars == Typed(c, idx, Typed(b, idx, Typed(a, idx, s.vars)))
  }

  lemma TopTwo(subs: seq<int>, base: seq<int>, x: int, y: int)
    requires subs == base + [x, y]
    ensures |subs| == |base| + 2 && subs[..|base|] == base && subs[|base|] == x && subs[|base| + 1] == y
  {
  }

  lemma TopThree(subs: seq<int>, base: seq<int>, x: int, y: int, z: int)
    requires subs == base + [x, y, z]
    ensures |subs| == |base| + 3 && subs[..|base|] == base
    ensures subs[|base|] == x && subs[|base| + 1] == y && subs[|base| + 2] == z
  {
  }

  /** Three visits leave three trees and three subscripts. */
  lemma ThreeOnTop(s0: VState, s1: VState, s2: VState, s3: VState, a: Node, b: Node, c: Node, idx: nat, ids: seq<nat>)
    requires Visited(a, idx, ids, s0, s1) && Visited(b, idx, ids, s1, s2) && Visited(c, idx, ids, s2, s3)
    ensures var k := |s0.aux|;
      && |s3.aux| == k + 3 && s3.aux[..k] == s0.aux
      && EvaluatedThree(a, b, c, idx, ids, s0, s3, s3.aux[k], s3.aux[k + 1], s3.aux[k + 2])
  {
    hide Subscript, InRange, Instance, Typed;
    var k := |s0.aux|;
    assert s3.aux[k + 1] == s3.aux[..k + 2][k + 1] == s2.aux[k + 1];
    assert s3.aux[k] == s3.aux[..k + 2][k] == s2.aux[k] == s2.aux[..k + 1][k] == s1.aux[k];
    assert s3.aux[..k] == s3.aux[..k + 2][..k] == s2.aux[..k + 1][..k];
  }

  lemma IteVisited(a: Node, b: Node, c: Node, idx: nat, ids: seq<nat>, s: VState, mid: VState, s': VState, x: Node,
      y: Node, z: Node)
    requires EvaluatedThree(a, b, c, idx, ids, s, mid, x, y, z)
    requires s' == mid.(aux := s.aux + [IfThenElse(x, y, z)],
      subs := s.subs + [if Subscript(a, idx).value != 0 then Subscript(b, idx).value else Subscript(c, idx).value])
    ensures Visited(IfThenElse(a, b, c), idx, ids, s, s')
  {
    hide UnarySub, BinarySub, AsInt, Truth;
  }

  lemma AsIntAtMost(v: nat)
    ensures AsInt(v) <= v
  {
    var w := FromInt(v, 32);
    var k := NumFromInt(v, 32);
    SignedAtMost(w);
    NumBound(w);
    assert |w| == 32 && AsInt(v) == Signed(w);
    hide *;
    NumAtMost(v, Num(FromInt(v, 32)), k, Pow2(32));
  }

  lemma SignedAtMost(w: Word)
    ensures Signed(w) <= Num(w)
  {
  }

  lemma NumAtMost(v: nat, n: int, k: int, p: int)
    requires v == n + k * p && 0 <= n < p
    ensures n <= v
  {
  }
}
