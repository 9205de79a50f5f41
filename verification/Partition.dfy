/**
 Splitting the enabled constraints into groups that share no variables.
 */
module Partitions {
  import opened Ast

  datatype Constraint = Constraint(
    id: nat, expr: Node, name: string, support: set<nat>,
    soft: bool, cover: bool, enabled: bool, vector: bool, complexity: nat)
  {
    predicate IsHard() { !soft && !cover }
  }

  // ----- The support set of an expression -----

  class GetSupportSetVisitor {
    var supportVars: set<nat>

    constructor ()
      ensures supportVars == {}
    {
      supportVars := {};
    }

    /** Collect the variables and vectors of n. */
    method Visit(n: Node)
      modifies this
      ensures supportVars == old(supportVars) + Support(n)
      decreases n
    {
      match n
      case Placeholder(_) =>
      case VariableExpr(id, _, _) => supportVars := supportVars + {id};
      case ConstantExpr(_) =>
      case VectorExpr(id, _, _) => supportVars := supportVars + {id};
      case Unary(_, child) => Visit(child);
      case Inside(child, _) => Visit(child);
      case Extend(child, _) => Visit(child);
      case Binary(_, l, r) =>
        Visit(l);
        Visit(r);
      case VectorAccess(l, r) =>
        Visit(l);
        Visit(r);
      case IfThenElse(a, b, c) =>
        Visit(a);
        Visit(b);
        Visit(c);
      case ForEach(l, r) =>
        Visit(l);
        Visit(r);
      case Unique(child) => Visit(child);
      case Bitslice(child, _, _) => Visit(child);
    }
  }

  // ----- The order inside a partition -----

  ghost predicate Descending(cs: seq<Constraint>) {
    forall i, j | 0 <= i < j < |cs| :: cs[i].id >= cs[j].id
  }

  /** c goes before the first constraint whose id is not greater. */
  function Insert(cs: seq<Constraint>, c: Constraint): (r: seq<Constraint>)
    ensures |r| == |cs| + 1
  {
    if cs == [] || cs[0].id <= c.id then [c] + cs else [cs[0]] + Insert(cs[1..], c)
  }

  lemma {:induction false} InsertMultiset(cs: seq<Constraint>, c: Constraint)
    ensures multiset(Insert(cs, c)) == multiset(cs) + multiset{c}
  {
    if !(cs == [] || cs[0].id <= c.id) {
      InsertMultiset(cs[1..], c);
      assert cs == [cs[0]] + cs[1..];
    }
  }

  lemma MultisetMember(cs: seq<Constraint>, c: Constraint)
    ensures c in multiset(cs) <==> c in cs
  {
  }

  lemma {:induction false} InsertDescending(cs: seq<Constraint>, c: Constraint)
    requires Descending(cs)
    ensures Descending(Insert(cs, c))
  {
    if cs != [] && cs[0].id > c.id {
      var r := Insert(cs[1..], c);
      InsertDescending(cs[1..], c);
      InsertMultiset(cs[1..], c);
      forall j | 0 <= j < |r|
        ensures cs[0].id >= r[j].id
      {
        MultisetMember(r, r[j]);
        assert r[j] in cs[1..] || r[j] == c;
      }
    }
  }

  // ----- Partitions -----

  datatype Partition = Partition(constraints: seq<Constraint>, support: set<nat>, single: map<nat, seq<Constraint>>)

  function Members(cs: seq<Constraint>): set<Constraint> { set c | c in cs }

  function UnionSupport(cs: set<Constraint>): set<nat> { set c, v | c in cs && v in c.support :: v }

  predicate Shares(c: Constraint, d: Constraint) { c.support * d.support != {} }

  /** However the constraints are divided in two, some variable occurs on both sides. */
  ghost predicate Connected(cs: set<Constraint>) {
    forall part: set<Constraint> :: (exists c :: c in cs * part) && (exists d :: d in cs - part) ==>
      exists c, d :: c in cs * part && d in cs - part && Shares(c, d)
  }

  /** A constraint that shares a variable with the group keeps the group connected. */
  lemma ConnectedGrows(cs: set<Constraint>, c: Constraint)
    requires Connected(cs) && c.support * UnionSupport(cs) != {}
    ensures Connected(cs + {c})
  {
    var v :| v in c.support * UnionSupport(cs);
    var m :| m in cs && v in m.support;
    assert v in c.support * m.support && v in m.support * c.support;
    forall part: set<Constraint> | (exists x :: x in (cs + {c}) * part) && (exists y :: y in (cs + {c}) - part)
      ensures exists x, y :: x in (cs + {c}) * part && y in (cs + {c}) - part && Shares(x, y)
    {
      if (exists x :: x in cs * part) && (exists y :: y in cs - part) {
        var x, y :| x in cs * part && y in cs - part && Shares(x, y);
      } else if m in part {
        assert m in cs * part;
        var y :| y in (cs + {c}) - part;
        assert y == c by { assert y !in cs - part; }
        assert m in (cs + {c}) * part && c in (cs + {c}) - part && Shares(m, c);
      } else {
        assert m in cs - part;
        var x :| x in (cs + {c}) * part;
        assert x == c by { assert x !in cs * part; }
        assert c in (cs + {c}) * part && m in (cs + {c}) - part && Shares(c, m);
      }
    }
  }

  lemma UnionSupportGrows(cs: set<Constraint>, c: Constraint)
    ensures UnionSupport(cs + {c}) == UnionSupport(cs) + c.support
  {
  }

  /** The hard constraints over exactly one variable, by variable. */
  ghost predicate SingleOk(cs: seq<Constraint>, single: map<nat, seq<Constraint>>) {
    && (forall v, c | v in single && c in single[v] :: c in cs && c.IsHard() && c.support == {v})
    && (forall c, v | c in cs && c.IsHard() && c.support == {v} :: v in single && c in single[v])
  }

  /** c comes last among the constraints over v. */
  function Remember(single: map<nat, seq<Constraint>>, v: nat, c: Constraint): map<nat, seq<Constraint>> {
    single[v := (if v in single then single[v] else []) + [c]]
  }

  ghost predicate PartitionOk(p: Partition) {
    && Descending(p.constraints)
    && p.support == UnionSupport(Members(p.constraints))
    && Connected(Members(p.constraints))
    && SingleOk(p.constraints, p.single)
    && p.constraints != []
  }

  class ConstraintPartition {
    var constraints: seq<Constraint>
    var supportVars: set<nat>
    var single: map<nat, seq<Constraint>>

    constructor ()
      ensures constraints == [] && supportVars == {} && single == map[]
    {
      constraints, supportVars, single := [], {}, map[];
    }

    function Value(): Partition
      reads this
    {
      Partition(constraints, supportVars, single)
    }

    method Insertion(c: Constraint)
      modifies this`constraints
      ensures constraints == Insert(old(constraints), c)
    {
      var i := 0;
      while i < |constraints| && constraints[i].id > c.id
        invariant 0 <= i <= |constraints| && constraints == old(constraints)
        invariant Insert(constraints, c) == constraints[..i] + Insert(constraints[i..], c)
      {
        InsertSkips(constraints, i, c);
        i := i + 1;
      }
      constraints := constraints[..i] + [c] + constraints[i..];
    }

    /** Insert c at its place and remember it when it is a hard constraint on a single variable. */
    method Add(c: Constraint)
      modifies this`constraints, this`single
      ensures constraints == Insert(old(constraints), c)
      ensures !c.IsHard() || |c.support| != 1 ==> single == old(single)
      ensures forall v | c.IsHard() && c.support == {v} :: single == Remember(old(single), v, c)
      ensures SingleOk(old(constraints), old(single)) ==> SingleOk(constraints, single)
    {
      Insertion(c);
      if c.IsHard() && |c.support| == 1 {
        var v :| v in c.support;
        SingletonSupport(c.support, v);
        single := Remember(single, v, c);
      }
      InsertMultiset(old(constraints), c);
      SingleGrows(old(constraints), constraints, c, old(single), single);
    }
  }

  lemma SingletonSupport(s: set<nat>, v: nat)
    requires |s| == 1 && v in s
    ensures s == {v}
  {
    assert |s - {v}| == 0;
    assert s == {v} + (s - {v});
  }

  lemma InsertSkips(cs: seq<Constraint>, i: nat, c: Constraint)
    requires i < |cs| && cs[i].id > c.id
    ensures cs[..i] + Insert(cs[i..], c) == cs[..i + 1] + Insert(cs[i + 1..], c)
  {
  }

  lemma SingleGrows(cs: seq<Constraint>, cs': seq<Constraint>, c: Constraint, single: map<nat, seq<Constraint>>,
      single': map<nat, seq<Constraint>>)
    requires multiset(cs') == multiset(cs) + multiset{c}
    requires if c.IsHard() && |c.support| == 1 then
        exists v :: c.support == {v} && single' == Remember(single, v, c)
      else single' == single
    ensures SingleOk(cs, single) ==> SingleOk(cs', single')
  {
    if SingleOk(cs, single) {
      forall x
        ensures x in cs' <==> x in cs || x == c
      {
        MultisetMember(cs', x);
        MultisetMember(cs, x);
      }
    }
  }

  // ----- The partitioner -----

  /** The enabled constraints that are, or are not, over a vector, in their order. */
  function Enabled(cs: seq<Constraint>, vector: bool): seq<Constraint> {
    if cs == [] then []
    else Enabled(cs[..|cs| - 1], vector) + var c := cs[|cs| - 1]; if c.enabled && c.vector == vector then [c] else []
  }

  /** What is taken over: exactly the enabled constraints, each in one of the two lists. */
  lemma {:induction false} EnabledMember(cs: seq<Constraint>, vector: bool, c: Constraint)
    ensures c in Enabled(cs, vector) <==> c in cs && c.enabled && c.vector == vector
  {
    if cs != [] {
      var n := |cs| - 1;
      EnabledMember(cs[..n], vector, c);
      assert cs == cs[..n] + [cs[n]];
    }
  }

  lemma {:induction false} EnabledJoin(a: seq<Constraint>, b: seq<Constraint>, vector: bool)
    ensures Enabled(a + b, vector) == Enabled(a, vector) + Enabled(b, vector)
  {
    if b == [] {
      assert a + b == a;
    } else {
      var n := |b| - 1;
      EnabledJoin(a, b[..n], vector);
      assert (a + b)[..|a + b| - 1] == a + b[..n];
    }
  }

  /** Adding, removing or changing a disabled constraint anywhere in the list changes neither of the two lists. */
  lemma DisabledDoNotMatter(before: seq<Constraint>, c: Constraint, d: Constraint, after: seq<Constraint>, vector: bool)
    requires !c.enabled && !d.enabled
    ensures Enabled(before + [c] + after, vector) == Enabled(before + after, vector)
    ensures Enabled(before + [c] + after, vector) == Enabled(before + [d] + after, vector)
  {
    forall x: Constraint | !x.enabled
      ensures Enabled(before + [x] + after, vector) == Enabled(before + after, vector)
    {
      EnabledJoin(before + [x], after, vector);
      EnabledJoin(before, [x], vector);
      EnabledJoin(before, after, vector);
      assert Enabled([x][..0], vector) == [] && Enabled([x], vector) == [];
    }
  }

  /** Places in a list, in their order. */
  ghost predicate Increasing(at: seq<nat>) { forall i, j | 0 <= i < j < |at| :: at[i] < at[j] }

  /** The enabled constraints are those at the places at, in order: all others are left out. */
  lemma {:induction false} EnabledPlaces(cs: seq<Constraint>, vector: bool) returns (at: seq<nat>)
    ensures Increasing(at) && |at| == |Enabled(cs, vector)|
    ensures forall j | 0 <= j < |at| :: at[j] < |cs| && cs[at[j]] == Enabled(cs, vector)[j]
    ensures forall i | 0 <= i < |cs| :: i in at <==> cs[i].enabled && cs[i].vector == vector
  {
    at := [];
    if cs != [] {
      var n := |cs| - 1;
      at := EnabledPlaces(cs[..n], vector);
      assert forall i | 0 <= i < n :: cs[..n][i] == cs[i];
      assert forall j | 0 <= j < |at| :: at[j] < n;
      assert n !in at;
      if cs[n].enabled && cs[n].vector == vector {
        at := at + [n];
      }
    }
  }

  ghost function AllMembers(ps: seq<Partition>): multiset<Constraint> {
    if ps == [] then multiset{} else AllMembers(ps[..|ps| - 1]) + multiset(ps[|ps| - 1].constraints)
  }

  /** No variable occurs in two partitions. */
  ghost predicate Separated(ps: seq<Partition>) {
    forall i, j | 0 <= i < j < |ps| :: ps[i].support !! ps[j].support
  }

  ghost predicate AllOk(ps: seq<Partition>) {
    forall i | 0 <= i < |ps| :: PartitionOk(ps[i])
  }

  ghost predicate Apart(cs: seq<Constraint>, vars: set<nat>) {
    forall i | 0 <= i < |cs| :: cs[i].support !! vars
  }

  lemma ApartPush(cs: seq<Constraint>, i: nat, vars: set<nat>)
    requires i < |cs| && vars * cs[i].support == {}
    ensures Apart(cs[..i], vars) ==> Apart(cs[..i + 1], vars)
  {
    var before, after := cs[..i], cs[..i + 1];
    assert after == before + [cs[i]];
    assert forall v | v in vars && v in cs[i].support :: v in vars * cs[i].support;
    assert cs[i].support !! vars;
  }

  lemma MembersOfInsert(cs: seq<Constraint>, c: Constraint)
    ensures Members(Insert(cs, c)) == Members(cs) + {c}
  {
    InsertMultiset(cs, c);
    forall x
      ensures x in Members(Insert(cs, c)) <==> x in Members(cs) + {c}
    {
      MultisetMember(Insert(cs, c), x);
      MultisetMember(cs, x);
    }
  }

  /** Adding a constraint that shares a variable keeps a partition in order. */
  lemma AddKeepsOk(p: Partition, c: Constraint, single: map<nat, seq<Constraint>>)
    requires PartitionOk(p) && c.support * p.support != {}
    requires SingleOk(Insert(p.constraints, c), single)
    ensures PartitionOk(Partition(Insert(p.constraints, c), p.support + c.support, single))
  {
    InsertDescending(p.constraints, c);
    MembersOfInsert(p.constraints, c);
    ConnectedGrows(Members(p.constraints), c);
    UnionSupportGrows(Members(p.constraints), c);
  }

  lemma FirstIsOk(c: Constraint, single: map<nat, seq<Constraint>>)
    requires SingleOk([c], single)
    ensures PartitionOk(Partition([c], c.support, single))
  {
  }

  lemma EraseMultiset(cs: seq<Constraint>, i: nat)
    requires i < |cs|
    ensures multiset(cs[..i] + cs[i + 1..]) + multiset{cs[i]} == multiset(cs)
  {
    assert cs == cs[..i] + [cs[i]] + cs[i + 1..];
  }

  class ConstraintPartitioner {
    var managers: set<nat>
    var constraints: seq<Constraint>
    var partitions: seq<Partition>
    var vecConstraints: seq<Constraint>

    constructor ()
      ensures managers == {} && constraints == [] && partitions == [] && vecConstraints == []
    {
      managers, constraints, partitions, vecConstraints := {}, [], [], [];
    }

    method Reset()
      modifies this
      ensures managers == {} && constraints == [] && partitions == [] && vecConstraints == []
    {
      managers, constraints, partitions, vecConstraints := {}, [], [], [];
    }

    /** Take over the enabled constraints of a manager; those over vectors are kept apart. */
    method MergeConstraints(id: nat, cs: seq<Constraint>)
      modifies this`managers, this`constraints, this`vecConstraints
      ensures managers == old(managers) + {id}
      ensures constraints == old(constraints) + Enabled(cs, false)
      ensures vecConstraints == old(vecConstraints) + Enabled(cs, true)
    {
      managers := managers + {id};
      for i := 0 to |cs|
        invariant managers == old(managers) + {id}
        invariant constraints == old(constraints) + Enabled(cs[..i], false)
        invariant vecConstraints == old(vecConstraints) + Enabled(cs[..i], true)
      {
        assert cs[..i + 1][..i] == cs[..i];
        if cs[i].enabled {
          if cs[i].vector {
            vecConstraints := vecConstraints + [cs[i]];
          } else {
            constraints := constraints + [cs[i]];
          }
        }
      }
      assert cs[..|cs|] == cs;
    }

    /** A constraint that shares a variable joins the partition with its variables. */
    method Absorb(cp: ConstraintPartition, c: Constraint)
      requires PartitionOk(cp.Value()) && cp.supportVars * c.support != {}
      modifies cp
      ensures PartitionOk(cp.Value()) && multiset(cp.constraints) == multiset(old(cp.constraints)) + multiset{c}
    {
      ghost var p := cp.Value();
      cp.Add(c);
      cp.supportVars := cp.supportVars + c.support;
      AddKeepsOk(p, c, cp.single);
      InsertMultiset(p.constraints, c);
    }

    /** One sweep over the list: every constraint that shares a variable moves into the partition. */
    method Sweep(cp: ConstraintPartition) returns (changed: bool)
      requires PartitionOk(cp.Value())
      modifies this`constraints, cp
      ensures PartitionOk(cp.Value())
      ensures multiset(cp.constraints) + multiset(constraints)
        == multiset(old(cp.constraints)) + multiset(old(constraints))
      ensures changed ==> |constraints| < |old(constraints)|
      ensures !changed ==> constraints == old(constraints) && Apart(constraints, cp.supportVars)
    {
      hide PartitionOk;
      changed := false;
      var ite := 0;
      while ite < |constraints|
        invariant 0 <= ite <= |constraints| && PartitionOk(cp.Value())
        invariant multiset(cp.constraints) + multiset(constraints)
          == multiset(old(cp.constraints)) + multiset(old(constraints))
        invariant changed ==> |constraints| < |old(constraints)|
        invariant !changed ==> constraints == old(constraints) && Apart(constraints[..ite], cp.supportVars)
        decreases |constraints| - ite
      {
        var c := constraints[ite];
        if cp.supportVars * c.support != {} {
          changed := true;
          Absorb(cp, c);
          EraseMultiset(constraints, ite);
          constraints := constraints[..ite] + constraints[ite + 1..];
        } else {
          ApartPush(constraints, ite, cp.supportVars);
          ite := ite + 1;
        }
      }
      assert constraints[..|constraints|] == constraints;
    }

    /** Build the partition of the first constraint and take it out of the list. */
    method MaximizePartition(cp: ConstraintPartition)
      requires constraints != [] && cp.constraints == [] && cp.single == map[]
      modifies this`constraints, cp
      ensures PartitionOk(cp.Value()) && Apart(constraints, cp.supportVars)
      ensures multiset(cp.constraints) + multiset(constraints) == multiset(old(constraints))
      ensures |constraints| < |old(constraints)|
    {
      var c := constraints[0];
      assert constraints == [c] + constraints[1..];
      constraints := constraints[1..];
      cp.supportVars := c.support;
      assert SingleOk(cp.constraints, cp.single) && Insert([], c) == [c];
      cp.Add(c);
      FirstIsOk(c, cp.single);
      var changed := true;
      while changed
        invariant PartitionOk(cp.Value()) && |constraints| < |old(constraints)|
        invariant multiset(cp.constraints) + multiset(constraints) == multiset(old(constraints))
        invariant !changed ==> Apart(constraints, cp.supportVars)
        decreases changed, |constraints|
      {
        changed := Sweep(cp);
      }
    }

    /** Split the whole list; the new partitions follow those that were there before. */
    method Partition()
      modifies this`constraints, this`partitions
      ensures constraints == [] && |partitions| >= |old(partitions)|
      ensures partitions[..|old(partitions)|] == old(partitions)
      ensures var ps := partitions[|old(partitions)|..];
        AllOk(ps) && Separated(ps) && AllMembers(ps) == multiset(old(constraints))
    {
      ghost var ps: seq<Partition> := [];
      while constraints != []
        invariant partitions == old(partitions) + ps
        invariant AllOk(ps) && Separated(ps) && AllMembers(ps) + multiset(constraints) == multiset(old(constraints))
        invariant forall i | 0 <= i < |ps| :: Apart(constraints, ps[i].support)
        decreases |constraints|
      {
        ghost var before := constraints;
        var cp := new ConstraintPartition();
        MaximizePartition(cp);
        NewIsApart(before, cp.constraints, constraints, ps, cp.supportVars);
        partitions := partitions + [cp.Value()];
        ps := ps + [cp.Value()];
        assert ps[..|ps| - 1] + [cp.Value()] == ps;
      }
      assert partitions[|old(partitions)|..] == ps;
    }
  }

  /** What is split off a list that is apart from the earlier partitions is apart from them too. */
  lemma NewIsApart(before: seq<Constraint>, taken: seq<Constraint>, rest: seq<Constraint>, ps: seq<Partition>,
      vars: set<nat>)
    requires multiset(taken) + multiset(rest) == multiset(before) && vars == UnionSupport(Members(taken))
    requires forall i | 0 <= i < |ps| :: Apart(before, ps[i].support)
    ensures forall i | 0 <= i < |ps| :: Apart(rest, ps[i].support) && ps[i].support !! vars
  {
    forall i | 0 <= i < |ps|
      ensures Apart(rest, ps[i].support) && ps[i].support !! vars
    {
      forall c | c in taken || c in rest
        ensures c.support !! ps[i].support
      {
        MultisetMember(taken, c);
        MultisetMember(rest, c);
        MultisetMember(before, c);
        assert c in before;
      }
    }
  }
}
