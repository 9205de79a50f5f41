/**
 The UBus example: an arbiter with a bus state machine, and two master drivers that follow
 the bus by themselves. Processes read the signals as they are before a clock edge.
 */
module UBus {

  datatype Logic = L0 | L1 | X | Z

  /** A signal with two drivers. */
  function Resolve(a: Logic, b: Logic): Logic {
    if a == Z then b else if b == Z || a == b then a else X
  }

  // ----- The device under test -----

  datatype Dut = Dut(state: nat, start: Logic, gnt0: Logic, gnt1: Logic)

  /** States: 0 out of reset, 3 start, 4 no-op, 1 address, 2 data. */
  function DutPosedge(d: Dut, bip: Logic, wait: Logic, error: Logic): Dut {
    match d.state
    case 0 => d.(start := L1, state := 3)
    case 3 => d.(start := L0, state := if d.gnt0 == L0 && d.gnt1 == L0 then 4 else 1)
    case 4 => d.(start := L1, state := 3)
    case 1 => d.(start := L0, state := 2)
    case 2 =>
      if error == L1 || (bip == L0 && wait == L0) then d.(start := L1, state := 3) else d.(start := L0, state := 2)
    case _ => d
  }

  /** The arbiter: a master that requests the started bus is granted, master 0 first. */
  function DutNegedge(d: Dut, req0: Logic, req1: Logic): Dut {
    var first := d.start == L1 && req0 == L1;
    var second := d.start == L1 && req0 != L1 && req1 == L1;
    d.(gnt0 := if first then L1 else L0, gnt1 := if second then L1 else L0)
  }

  class DutDummy {
    var state: nat
    var start: Logic
    var gnt0: Logic
    var gnt1: Logic

    /** The registers after reset. */
    constructor ()
      ensures Value() == InitialDut()
    {
      state, start, gnt0, gnt1 := 0, L0, L0, L0;
    }

    function Value(): Dut
      reads this
    {
      Dut(state, start, gnt0, gnt1)
    }

    method Proc0(reset: Logic, bip: Logic, wait: Logic, error: Logic)
      modifies this`state, this`start
      ensures Value() == if reset == L1 then old(Value()).(state := 0, start := L0)
        else DutPosedge(old(Value()), bip, wait, error)
    {
      if reset == L1 {
        start := L0;
        state := 0;
      } else if state == 0 {
        start := L1;
        state := 3;
      } else if state == 3 {
        start := L0;
        if gnt0 == L0 && gnt1 == L0 {
          state := 4;
        } else {
          state := 1;
        }
      } else if state == 4 {
        start := L1;
        state := 3;
      } else if state == 1 {
        state := 2;
        start := L0;
      } else if state == 2 {
        if error == L1 || (bip == L0 && wait == L0) {
          state := 3;
          start := L1;
        } else {
          state := 2;
          start := L0;
        }
      }
    }

    method Proc1(reset: Logic, req0: Logic, req1: Logic)
      modifies this`gnt0, this`gnt1
      ensures Value() == if reset == L1 then old(Value()).(gnt0 := L0, gnt1 := L0)
        else DutNegedge(old(Value()), req0, req1)
    {
      if reset == L1 {
        gnt0, gnt1 := L0, L0;
      } else if start == L1 && req0 == L1 {
        gnt0, gnt1 := L1, L0;
      } else if start == L1 && !(req0 == L1) && req1 == L1 {
        gnt0, gnt1 := L0, L1;
      } else {
        gnt0, gnt1 := L0, L0;
      }
    }
  }

  function InitialDut(): Dut { Dut(0, L0, L0, L0) }

  // ----- A master driver -----

  datatype Command = NOP | READ | WRITE

  datatype Transfer = Transfer(command: Command, size: nat)

  /** Where the thread of the driver waits for the next rising edge. */
  datatype Phase =
    | Idle
    | Arbitrating(t: Transfer)
    | Addressing(t: Transfer)
    | Transferring(t: Transfer, i: nat)

  datatype Master = Master(phase: Phase, req: Logic, bip: Logic)

  /** Byte i of the transfer is announced as the last one or not. */
  function Announce(t: Transfer, i: nat): Logic { if i + 1 == t.size then L0 else L1 }

  function MasterPosedge(m: Master, gnt: Logic, wait: Logic): Master {
    match m.phase
    case Idle => m
    case Arbitrating(t) => if gnt == L1 then m.(phase := Addressing(t), req := L0) else m
    case Addressing(t) =>
      if t.command == NOP then m.(phase := Idle, bip := Z) else m.(phase := Transferring(t, 0), bip := Announce(t, 0))
    case Transferring(t, i) =>
      if wait != L0 then m
      else if i + 1 == t.size then m.(phase := Idle, bip := Z)
      else m.(phase := Transferring(t, i + 1), bip := Announce(t, i + 1))
  }

  function MasterRequest(m: Master, t: Transfer): Master { m.(phase := Arbitrating(t), req := L1) }

  function InitialMaster(): Master { Master(Idle, L0, Z) }

  class UbusMasterDriver {
    var phase: Phase
    var req: Logic
    var bip: Logic

    constructor ()
      ensures Value() == InitialMaster()
    {
      phase, req, bip := Idle, L0, Z;
    }

    function Value(): Master
      reads this
    {
      Master(phase, req, bip)
    }

    /** A new transfer: the driver asks for the bus. */
    method DriveTransfer(t: Transfer)
      requires phase == Idle
      modifies this`phase, this`req
      ensures Value() == MasterRequest(old(Value()), t)
    {
      req := L1;
      phase := Arbitrating(t);
    }

    /** The thread runs from one rising edge to where it waits for the next. */
    method Posedge(gnt: Logic, wait: Logic)
      requires phase.Transferring? ==> phase.i < phase.t.size
      modifies this
      ensures Value() == MasterPosedge(old(Value()), gnt, wait)
    {
      match phase
      case Idle =>
      case Arbitrating(t) => ArbitrateForBus(t, gnt);
      case Addressing(t) => StartDataPhase(t);
      case Transferring(t, i) => DriveByte(t, i, wait);
    }

    method ArbitrateForBus(t: Transfer, gnt: Logic)
      requires phase == Arbitrating(t)
      modifies this
      ensures Value() == MasterPosedge(old(Value()), gnt, L0)
    {
      if gnt == L1 {
        req := L0;
        phase := Addressing(t);
      }
    }

    method StartDataPhase(t: Transfer)
      requires phase == Addressing(t)
      modifies this
      ensures Value() == MasterPosedge(old(Value()), L0, L0)
    {
      if t.command == READ || t.command == WRITE {
        bip := if 0 == t.size - 1 then L0 else L1;
        phase := Transferring(t, 0);
      } else {
        bip := Z;
        phase := Idle;
      }
    }

    method DriveByte(t: Transfer, i: nat, wait: Logic)
      requires phase == Transferring(t, i) && i < t.size
      modifies this
      ensures Value() == MasterPosedge(old(Value()), L0, wait)
    {
      if wait == L0 {
        if i + 1 <= t.size - 1 {
          bip := if i + 1 == t.size - 1 then L0 else L1;
          phase := Transferring(t, i + 1);
        } else {
          bip := Z;
          phase := Idle;
        }
      }
    }
  }

  // ----- The bus -----

  /** high says whether the clock is high, so that the next edge falls. */
  datatype Bus = Bus(dut: Dut, m0: Master, m1: Master, high: bool)

  datatype Action =
    | Posedge(wait: Logic, error: Logic)
    | Negedge
    | Request(second: bool, t: Transfer)

  function Bip(b: Bus): Logic { Resolve(b.m0.bip, b.m1.bip) }

  /** The edges alternate; a master asks for a transfer of at least one byte when it is idle. */
  predicate Enabled(b: Bus, a: Action) {
    match a
    case Posedge(_, _) => !b.high
    case Negedge => b.high
    case Request(second, t) => (if second then b.m1 else b.m0).phase.Idle? && t.size >= 1
  }

  function Step(b: Bus, a: Action): Bus {
    match a
    case Posedge(wait, error) =>
      Bus(DutPosedge(b.dut, Bip(b), wait, error),
          MasterPosedge(b.m0, b.dut.gnt0, wait), MasterPosedge(b.m1, b.dut.gnt1, wait), true)
    case Negedge => b.(dut := DutNegedge(b.dut, b.m0.req, b.m1.req), high := false)
    case Request(second, t) => if second then b.(m1 := MasterRequest(b.m1, t)) else b.(m0 := MasterRequest(b.m0, t))
  }

  /** After reset, with the clock at either level. */
  function Init(high: bool): Bus { Bus(InitialDut(), InitialMaster(), InitialMaster(), high) }

  predicate Legal(b: Bus, actions: seq<Action>)
    decreases |actions|
  {
    actions != [] ==> Enabled(b, actions[0]) && Legal(Step(b, actions[0]), actions[1..])
  }

  function After(b: Bus, actions: seq<Action>): Bus
    decreases |actions|
  {
    if actions == [] then b else After(Step(b, actions[0]), actions[1..])
  }

  /** Reads and writes only, and no slave reports an error. */
  predicate Clean(a: Action) {
    match a
    case Posedge(_, error) => error != L1
    case Negedge => true
    case Request(_, t) => t.command != NOP
  }

  ghost predicate AllClean(actions: seq<Action>) {
    forall i | 0 <= i < |actions| :: Clean(actions[i])
  }

  /** The modules on the bus; at an edge every process reads the signals as they were before. */
  class UbusExample {
    const dut: DutDummy
    const master0: UbusMasterDriver
    const master1: UbusMasterDriver
    var high: bool

    constructor (high: bool)
      ensures Value() == Init(high) && master0 != master1 && fresh(dut) && fresh(master0) && fresh(master1)
    {
      dut := new DutDummy();
      master0 := new UbusMasterDriver();
      master1 := new UbusMasterDriver();
      this.high := high;
    }

    function Value(): Bus
      reads this, dut, master0, master1
    {
      Bus(dut.Value(), master0.Value(), master1.Value(), high)
    }

    method RisingEdge(wait: Logic, error: Logic)
      requires Enabled(Value(), Posedge(wait, error)) && master0 != master1 && MasterOk(master0.Value())
      requires MasterOk(master1.Value())
      modifies this, dut, master0, master1
      ensures Value() == Step(old(Value()), Posedge(wait, error))
    {
      var bip, gnt0, gnt1 := Resolve(master0.bip, master1.bip), dut.gnt0, dut.gnt1;
      dut.Proc0(L0, bip, wait, error);
      master0.Posedge(gnt0, wait);
      master1.Posedge(gnt1, wait);
      high := true;
    }

    /** A sequence hands a transfer to an idle driver. */
    method RequestTransfer(second: bool, t: Transfer)
      requires Enabled(Value(), Request(second, t)) && master0 != master1
      modifies master0, master1
      ensures Value() == Step(old(Value()), Request(second, t))
    {
      if second {
        master1.DriveTransfer(t);
      } else {
        master0.DriveTransfer(t);
      }
    }

    method FallingEdge()
      requires Enabled(Value(), Negedge)
      modifies this, dut
      ensures Value() == Step(old(Value()), Negedge)
    {
      dut.Proc1(L0, master0.req, master1.req);
      high := false;
    }
  }

  // ----- Lockstep -----

  predicate PastArbitration(m: Master) { m.phase.Addressing? || m.phase.Transferring? }

  /**
   At most one grant, at most one master past arbitration, and the bus is in its address
   or data state exactly while that master is in its address or data phase.
   */
  predicate Lockstep(b: Bus) {
    && !(b.dut.gnt0 == L1 && b.dut.gnt1 == L1)
    && !(PastArbitration(b.m0) && PastArbitration(b.m1))
    && (b.dut.state == 1 <==> b.m0.phase.Addressing? || b.m1.phase.Addressing?)
    && (b.dut.state == 2 <==> b.m0.phase.Transferring? || b.m1.phase.Transferring?)
  }

  /** What a master's outputs are in every phase. */
  predicate MasterOk(m: Master) {
    && (m.req == L1 <==> m.phase.Arbitrating?)
    && match m.phase
       case Idle => m.bip == Z
       case Arbitrating(t) => m.bip == Z && t.size >= 1
       case Addressing(t) => m.bip == Z && t.size >= 1
       case Transferring(t, i) => i < t.size && m.bip == Announce(t, i)
  }

  /** A grant is given to a waiting master before the rising edge, and stays until the next falling edge. */
  predicate GrantOk(gnt: Logic, m: Master, b: Bus) {
    (gnt == L0 || gnt == L1)
      && (gnt == L1 ==> if b.high then m.phase.Addressing? else b.dut.state == 3 && m.phase.Arbitrating?)
  }

  predicate Inv(b: Bus) {
    && Lockstep(b) && MasterOk(b.m0) && MasterOk(b.m1)
    && GrantOk(b.dut.gnt0, b.m0, b) && GrantOk(b.dut.gnt1, b.m1, b)
    && b.dut.state <= 4 && (b.dut.start == L1 <==> b.dut.state == 3)
  }

  predicate NopOnBus(b: Bus) {
    || (b.m0.phase.Addressing? && b.m0.phase.t.command == NOP)
    || (b.m1.phase.Addressing? && b.m1.phase.t.command == NOP)
  }

  /** The error cuts a transfer short. */
  predicate CutShort(b: Bus, a: Action) {
    a.Posedge? && a.error == L1 && b.dut.state == 2 && !(Bip(b) == L0 && a.wait == L0)
  }

  /**
   A step keeps the bus and the masters in lockstep exactly when no error cuts a transfer
   short and no empty transfer is on the bus.
   */
  lemma StepKeepsLockstep(b: Bus, a: Action)
    requires Inv(b) && Enabled(b, a)
    ensures Inv(Step(b, a)) <==> !CutShort(b, a) && (a.Posedge? ==> !NopOnBus(b))
    ensures Lockstep(Step(b, a)) <==> Inv(Step(b, a))
  {
  }

  /** No master holds a transfer without a command. */
  predicate NoNop(b: Bus) {
    && (b.m0.phase.Idle? || b.m0.phase.t.command != NOP)
    && (b.m1.phase.Idle? || b.m1.phase.t.command != NOP)
  }

  lemma {:induction false} RunKeepsLockstep(b: Bus, actions: seq<Action>)
    requires Inv(b) && NoNop(b) && Legal(b, actions) && AllClean(actions)
    ensures Inv(After(b, actions)) && NoNop(After(b, actions))
    decreases |actions|
  {
    if actions != [] {
      assert Clean(actions[0]);
      StepKeepsLockstep(b, actions[0]);
      assert AllClean(actions[1..]) by {
        assert forall i | 0 <= i < |actions| - 1 :: actions[1..][i] == actions[i + 1];
      }
      RunKeepsLockstep(Step(b, actions[0]), actions[1..]);
    }
  }

  /** In every run after reset the bus and the masters are in lockstep. */
  lemma AlwaysInLockstep(high: bool, actions: seq<Action>)
    requires Legal(Init(high), actions) && AllClean(actions)
    ensures Lockstep(After(Init(high), actions))
  {
    RunKeepsLockstep(Init(high), actions);
  }

  /** Both sides leave the data phase on the same edge: the one that takes the last byte. */
  lemma LeaveTogether(b: Bus, wait: Logic, error: Logic)
    requires Inv(b) && NoNop(b) && !b.high && error != L1 && b.dut.state == 2
    ensures var b' := Step(b, Posedge(wait, error));
      && (b.m0.phase.Transferring? ==>
            (b'.dut.state == 3 <==> b'.m0.phase.Idle?)
              && (b'.m0.phase.Idle? <==> wait == L0 && b.m0.phase.i + 1 == b.m0.phase.t.size))
      && (b.m1.phase.Transferring? ==>
            (b'.dut.state == 3 <==> b'.m1.phase.Idle?)
              && (b'.m1.phase.Idle? <==> wait == L0 && b.m1.phase.i + 1 == b.m1.phase.t.size))
  {
  }

  // ----- What happens without a command -----

  /** The bus is in its data state while no master is past arbitration and none announces a last byte. */
  predicate Hangs(b: Bus) {
    b.dut.state == 2 && b.dut.start != L1 && b.dut.gnt0 != L1 && b.dut.gnt1 != L1
    && !PastArbitration(b.m0) && !PastArbitration(b.m1) && b.m0.bip == Z && b.m1.bip == Z
  }

  /** After the address phase of an empty transfer the bus hangs for good, unless a slave reports an error. */
  lemma NopHangs(b: Bus, wait: Logic, error: Logic)
    requires Inv(b) && NopOnBus(b) && !b.high
    ensures Hangs(Step(b, Posedge(wait, error)))
  {
  }

  lemma {:induction false} HangsForever(b: Bus, actions: seq<Action>)
    requires Hangs(b) && Legal(b, actions)
    requires forall i | 0 <= i < |actions| && actions[i].Posedge? :: actions[i].error != L1
    ensures Hangs(After(b, actions))
    decreases |actions|
  {
    if actions != [] {
      assert actions[0].Posedge? ==> actions[0].error != L1;
      assert forall i | 0 <= i < |actions| - 1 :: actions[1..][i] == actions[i + 1];
      HangsForever(Step(b, actions[0]), actions[1..]);
    }
  }

  // ----- Progress -----

  /**
   On a started bus a request is served: the next two edges take one master into its address
   phase, master 0 first.
   */
  lemma RequestIsServed(b: Bus, wait: Logic, error: Logic)
    requires Inv(b) && b.high && b.dut.state == 3 && (b.m0.phase.Arbitrating? || b.m1.phase.Arbitrating?)
    ensures var b' := Step(Step(b, Negedge), Posedge(wait, error));
      b'.dut.state == 1 && if b.m0.phase.Arbitrating? then b'.m0.phase.Addressing? else b'.m1.phase.Addressing?
  {
  }

  /** Out of reset and out of the no-op state the next rising edge starts the bus. */
  lemma BusIsStarted(b: Bus, wait: Logic, error: Logic)
    requires Inv(b) && !b.high && (b.dut.state == 0 || b.dut.state == 4)
    ensures Step(b, Posedge(wait, error)).dut.start == L1
  {
  }

  predicate IsEdge(a: Action) { !a.Request? }

  /** The edges among some actions. */
  function Edges(actions: seq<Action>): nat {
    if actions == [] then 0 else Edges(actions[1..]) + if IsEdge(actions[0]) then 1 else 0
  }

  predicate Requested(b: Bus) { b.m0.req == L1 || b.m1.req == L1 }

  predicate Addressed(b: Bus) { b.m0.phase.Addressing? || b.m1.phase.Addressing? }

  /** No master has the bus. */
  predicate Free(b: Bus) { !PastArbitration(b.m0) && !PastArbitration(b.m1) }

  /** The edges until some master is in its address phase. */
  function UntilAddress(b: Bus): nat {
    if b.dut.state == 3 then
      if b.high then 2 else if b.dut.gnt0 == L1 || b.dut.gnt1 == L1 then 1 else 5
    else if b.high then 4 else 3
  }

  lemma NearerAddress(b: Bus, a: Action)
    requires Inv(b) && NoNop(b) && Enabled(b, a) && Clean(a) && Requested(b) && Free(b)
    ensures var b' := Step(b, a);
      if Addressed(b') then IsEdge(a)
      else Requested(b') && Free(b') && UntilAddress(b') <= UntilAddress(b) - if IsEdge(a) then 1 else 0
  {
  }

  /** A state that a run passes through, after some of its edges. */
  ghost predicate Passes(b: Bus, actions: seq<Action>, n: nat, edges: nat) {
    n <= |actions| && Edges(actions[..n]) <= edges
  }

  lemma PassesLater(b: Bus, actions: seq<Action>, n: nat, edges: nat)
    requires actions != [] && Passes(Step(b, actions[0]), actions[1..], n, edges)
    ensures Passes(b, actions, n + 1, edges + if IsEdge(actions[0]) then 1 else 0)
    ensures After(b, actions[..n + 1]) == After(Step(b, actions[0]), actions[1..][..n])
  {
    assert actions[..n + 1][0] == actions[0] && actions[..n + 1][1..] == actions[1..][..n];
  }

  /**
   In every legal run without errors a requested free bus takes some master into its address
   phase within five edges.
   */
  lemma {:induction false} RequestIsAddressed(b: Bus, actions: seq<Action>) returns (n: nat)
    requires Inv(b) && NoNop(b) && Legal(b, actions) && AllClean(actions) && Requested(b) && Free(b)
    requires Edges(actions) >= UntilAddress(b)
    ensures Passes(b, actions, n, UntilAddress(b)) && Addressed(After(b, actions[..n]))
    ensures UntilAddress(b) <= 5
    decreases |actions|
  {
    var a, rest := actions[0], actions[1..];
    assert Clean(a);
    assert AllClean(rest) by {
      assert forall i | 0 <= i < |rest| :: rest[i] == actions[i + 1];
    }
    NearerAddress(b, a);
    StepKeepsLockstep(b, a);
    var b' := Step(b, a);
    if Addressed(b') {
      n := 1;
      assert actions[..1] == [a] && actions[..1][1..] == [];
      assert After(b, actions[..1]) == b';
    } else {
      n := RequestIsAddressed(b', rest);
      PassesLater(b, actions, n, UntilAddress(b'));
      n := n + 1;
    }
  }

  /** The edges until the bus is started again, as long as no slave inserts a wait state. */
  function UntilRestart(b: Bus): int {
    2 * (if b.m0.phase.Idle? || b.m0.phase.Arbitrating? then Left(b.m1) else Left(b.m0))
      + (if b.dut.state == 1 then 2 else 0) - if b.high then 0 else 1
  }

  /** No slave inserts a wait state. */
  predicate NoWait(a: Action) { a.Posedge? ==> a.wait == L0 }

  lemma NearerRestart(b: Bus, a: Action)
    requires Inv(b) && NoNop(b) && Enabled(b, a) && Clean(a) && NoWait(a) && !Free(b)
    ensures UntilRestart(b) > 0
    ensures var b' := Step(b, a);
      if Free(b') then IsEdge(a) && b'.dut.start == L1
      else UntilRestart(b') == UntilRestart(b) - if IsEdge(a) then 1 else 0
  {
  }

  /** Without wait states a transfer ends: after two edges for every byte the bus is started again. */
  lemma {:induction false} TransferEnds(b: Bus, actions: seq<Action>) returns (n: nat)
    requires Inv(b) && NoNop(b) && Legal(b, actions) && AllClean(actions) && !Free(b)
    requires (forall i | 0 <= i < |actions| :: NoWait(actions[i])) && Edges(actions) >= UntilRestart(b)
    ensures UntilRestart(b) > 0 && Passes(b, actions, n, UntilRestart(b))
    ensures Free(After(b, actions[..n])) && After(b, actions[..n]).dut.start == L1
    decreases |actions|
  {
    if actions == [] {
      NearerRestart(b, if b.high then Negedge else Posedge(L0, L0));
    }
    var a, rest := actions[0], actions[1..];
    assert Clean(a) && NoWait(a);
    assert AllClean(rest) by {
      assert forall i | 0 <= i < |rest| :: rest[i] == actions[i + 1];
    }
    NearerRestart(b, a);
    StepKeepsLockstep(b, a);
    var b' := Step(b, a);
    if Free(b') {
      n := 1;
      assert actions[..1] == [a] && actions[..1][1..] == [];
      assert After(b, actions[..1]) == b';
    } else {
      n := TransferEnds(b', rest);
      PassesLater(b, actions, n, UntilRestart(b'));
      n := n + 1;
    }
  }

  /** Bytes that are still to be transferred. */
  function Left(m: Master): int {
    match m.phase
    case Idle => 0
    case Arbitrating(t) => t.size
    case Addressing(t) => t.size
    case Transferring(t, i) => t.size - i
  }

  /** Every byte takes exactly one rising edge without a wait state: no byte is lost or sent twice. */
  lemma OneByteAtATime(b: Bus, wait: Logic, error: Logic)
    requires Inv(b) && NoNop(b) && !b.high && error != L1
    ensures var b' := Step(b, Posedge(wait, error));
      Left(b'.m0) + Left(b'.m1) == Left(b.m0) + Left(b.m1) - if b.dut.state == 2 && wait == L0 then 1 else 0
  {
  }
}
