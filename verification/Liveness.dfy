/**
 Backward liveness over a function's control-flow graph, and what it promises about runs of the function.
 Register families, the zero register, the calling convention and the classification of mnemonics are parameters.
 */
module Liveness {
  import opened Wrappers
  import opened Numerals
  import opened OperandText

  type Family = string

  /** How an instruction continues, as its mnemonic decides. */
  datatype Flow = Return | Conditional | Jump | Call | Straight

  /** The analysis ignores `loads` and `stores`; they only describe what the instruction may do to memory. */
  datatype Inst = Inst(address: int, flow: Flow, operands: string, readRegisters: seq<string>,
                       writeRegisters: seq<string>, unresolved: bool, loads: bool, stores: bool)

  /** `exitLive` is what the ABI lets a caller observe after a return. */
  datatype Arch = Arch(family: string -> Family, isZero: string -> bool, isCondition: Family -> bool,
                       exitLive: set<Family>, callArguments: set<Family>, callReturns: set<Family>)

  predicate DistinctAddresses(insts: seq<Inst>) {
    forall i, j :: 0 <= i < j < |insts| ==> insts[i].address != insts[j].address
  }

  function Addresses(insts: seq<Inst>): set<int> {
    set i | 0 <= i < |insts| :: insts[i].address
  }

  // ---- control flow ----

  /** The first number in the operand text is a target only if an instruction starts there. */
  function DirectTarget(insts: seq<Inst>, inst: Inst): seq<int> {
    var number := FirstNumber(inst.operands);
    if number.Some? && number.value in Addresses(insts) then [number.value] else []
  }

  function FallThrough(insts: seq<Inst>, i: nat): seq<int>
    requires i < |insts|
  {
    if i + 1 < |insts| then [insts[i + 1].address] else []
  }

  function Successors(insts: seq<Inst>, i: nat): (s: seq<int>)
    requires i < |insts|
    ensures forall a :: a in s ==> a in Addresses(insts)
  {
    match insts[i].flow
    case Return => []
    case Conditional => DirectTarget(insts, insts[i]) + FallThrough(insts, i)
    case Jump => DirectTarget(insts, insts[i])
    case _ => FallThrough(insts, i)
  }

  function ExitSeed(arch: Arch, insts: seq<Inst>, i: nat): set<Family>
    requires i < |insts|
  {
    if Successors(insts, i) == [] && insts[i].flow == Return then arch.exitLive else {}
  }

  /** Instruction `i` may hand over to instruction `j`: through its target, or to the next one in the text. */
  ghost predicate Continues(insts: seq<Inst>, i: nat, j: nat)
    requires i < |insts| && j < |insts|
  {
    var branches := FirstNumber(insts[i].operands) == Some(insts[j].address);
    match insts[i].flow
    case Return => false
    case Jump => branches
    case Conditional => branches || j == i + 1
    case _ => j == i + 1
  }

  /** The successor map lists exactly where control may go. */
  lemma SuccessorsAreFlow(insts: seq<Inst>, i: nat, a: int)
    requires i < |insts|
    ensures a in Successors(insts, i) <==>
            exists j: nat :: j < |insts| && insts[j].address == a && Continues(insts, i, j)
  {
    if a in Successors(insts, i) {
      if a in DirectTarget(insts, insts[i]) && insts[i].flow in {Conditional, Jump} {
        var j :| 0 <= j < |insts| && insts[j].address == a;
        assert Continues(insts, i, j);
      } else {
        assert Continues(insts, i, i + 1);
      }
    }
  }

  // ---- register effects ----

  /** The families of registers; the zero register and unknown registers have none. */
  function FamilySet(arch: Arch, registers: seq<string>): set<Family> {
    set k | 0 <= k < |registers| && !arch.isZero(registers[k])
        && arch.family(registers[k]) != "" :: arch.family(registers[k])
  }

  function Reads(arch: Arch, inst: Inst): set<Family> {
    FamilySet(arch, inst.readRegisters) + if inst.flow == Call then arch.callArguments else {}
  }

  function Writes(arch: Arch, inst: Inst): set<Family> {
    FamilySet(arch, inst.writeRegisters) + if inst.flow == Call then arch.callReturns else {}
  }

  /** A register of the list belongs to the family; the zero register and unknown registers belong to none. */
  ghost predicate Names(arch: Arch, registers: seq<string>, f: Family) {
    exists k :: 0 <= k < |registers| && !arch.isZero(registers[k]) && f != "" && arch.family(registers[k]) == f
  }

  /** What the instruction may depend on: registers it reads, and what a callee may. */
  ghost predicate Uses(arch: Arch, inst: Inst, f: Family) {
    Names(arch, inst.readRegisters, f) || (inst.flow == Call && f in arch.callArguments)
  }

  /** What the instruction overwrites: registers it writes, and what a callee returns. */
  ghost predicate Defines(arch: Arch, inst: Inst, f: Family) {
    Names(arch, inst.writeRegisters, f) || (inst.flow == Call && f in arch.callReturns)
  }

  lemma EffectsAreNamed(arch: Arch, inst: Inst, f: Family)
    ensures f in Reads(arch, inst) <==> Uses(arch, inst, f)
    ensures f in Writes(arch, inst) <==> Defines(arch, inst, f)
  {}

  // ---- live along a path ----

  /** Instructions control may pass one after the other. */
  ghost predicate Path(insts: seq<Inst>, p: seq<nat>) {
    && p != [] && (forall k :: 0 <= k < |p| ==> p[k] < |insts|)
    && forall k :: 0 <= k < |p| - 1 ==> Continues(insts, p[k], p[k + 1])
  }

  /** The family matters here: it is read, or a caller sees the value it has at this return. */
  ghost predicate Observes(arch: Arch, inst: Inst, f: Family) {
    Uses(arch, inst, f) || (inst.flow == Return && f in arch.exitLive && !Defines(arch, inst, f))
  }

  /** The path leads to an observation of the family with no write of it before. */
  ghost predicate LiveAlong(arch: Arch, insts: seq<Inst>, p: seq<nat>, f: Family) {
    && Path(insts, p) && Observes(arch, insts[p[|p| - 1]], f)
    && forall k :: 0 <= k < |p| - 1 ==> !Defines(arch, insts[p[k]], f)
  }

  ghost predicate LiveFrom(arch: Arch, insts: seq<Inst>, i: nat, f: Family) {
    exists p :: LiveAlong(arch, insts, p, f) && p[0] == i
  }

  /** Live after instruction `i`: seen by a caller, or live at an instruction control may go to. */
  ghost predicate LiveAfter(arch: Arch, insts: seq<Inst>, i: nat, f: Family)
    requires i < |insts|
  {
    || (insts[i].flow == Return && f in arch.exitLive)
    || exists j: nat :: j < |insts| && Continues(insts, i, j) && LiveFrom(arch, insts, j, f)
  }

  lemma LiveHere(arch: Arch, insts: seq<Inst>, i: nat, f: Family)
    requires i < |insts| && Observes(arch, insts[i], f)
    ensures LiveFrom(arch, insts, i, f)
  {
    assert LiveAlong(arch, insts, [i], f);
  }

  lemma LiveBefore(arch: Arch, insts: seq<Inst>, i: nat, j: nat, f: Family)
    requires i < |insts| && j < |insts| && Continues(insts, i, j) && LiveFrom(arch, insts, j, f)
    requires !Defines(arch, insts[i], f)
    ensures LiveFrom(arch, insts, i, f)
  {
    var p :| LiveAlong(arch, insts, p, f) && p[0] == j;
    var q := [i] + p;
    forall k | 0 <= k < |q| - 1 ensures Continues(insts, q[k], q[k + 1]) && !Defines(arch, insts[q[k]], f) {
      if k > 0 { assert q[k] == p[k - 1] && q[k + 1] == p[k]; }
    }
    assert q[|q| - 1] == p[|p| - 1];
    assert LiveAlong(arch, insts, q, f);
  }

  // ---- the dataflow equations ----

  datatype Facts = Facts(liveIn: map<int, set<Family>>, liveOut: map<int, set<Family>>)

  ghost predicate Total(insts: seq<Inst>, x: Facts) {
    x.liveIn.Keys == Addresses(insts) && x.liveOut.Keys == Addresses(insts)
  }

  function OutOf(arch: Arch, insts: seq<Inst>, i: nat, liveIn: map<int, set<Family>>): set<Family>
    requires i < |insts|
  {
    ExitSeed(arch, insts, i) + (set a, f | a in Successors(insts, i) && a in liveIn && f in liveIn[a] :: f)
  }

  function InOf(arch: Arch, inst: Inst, liveOut: set<Family>): set<Family> {
    Reads(arch, inst) + (liveOut - Writes(arch, inst))
  }

  /** Both equations hold at instruction `i`. */
  ghost predicate Settled(arch: Arch, insts: seq<Inst>, x: Facts, i: nat)
    requires i < |insts|
  {
    var a := insts[i].address;
    && a in x.liveIn && a in x.liveOut
    && x.liveOut[a] == OutOf(arch, insts, i, x.liveIn)
    && x.liveIn[a] == InOf(arch, insts[i], x.liveOut[a])
  }

  ghost predicate Solution(arch: Arch, insts: seq<Inst>, x: Facts) {
    Total(insts, x) && forall i :: 0 <= i < |insts| ==> Settled(arch, insts, x, i)
  }

  /** At least as large as the equations ask for, everywhere. */
  ghost predicate Bounding(arch: Arch, insts: seq<Inst>, y: Facts) {
    && Total(insts, y)
    && forall i :: 0 <= i < |insts| ==>
         var a := insts[i].address;
         OutOf(arch, insts, i, y.liveIn) <= y.liveOut[a] && InOf(arch, insts[i], y.liveOut[a]) <= y.liveIn[a]
  }

  ghost predicate Below(x: Facts, y: Facts) {
    && (forall a :: a in x.liveIn ==> a in y.liveIn && x.liveIn[a] <= y.liveIn[a])
    && (forall a :: a in x.liveOut ==> a in y.liveOut && x.liveOut[a] <= y.liveOut[a])
  }

  /** Below everything that satisfies the equations, even with slack. */
  ghost predicate Least(arch: Arch, insts: seq<Inst>, x: Facts) {
    forall y: Facts :: Bounding(arch, insts, y) ==> Below(x, y)
  }

  // ---- the chaotic iteration ----

  function Universe(arch: Arch, insts: seq<Inst>): set<Family> {
    arch.exitLive + set i, f | 0 <= i < |insts| && f in Reads(arch, insts[i]) :: f
  }

  /** The facts at instruction `i` are at most what the equations give, and inside the universe. */
  ghost predicate GrowingAt(arch: Arch, insts: seq<Inst>, x: Facts, i: nat)
    requires i < |insts| && Total(insts, x)
  {
    var a := insts[i].address;
    && x.liveOut[a] <= OutOf(arch, insts, i, x.liveIn)
    && x.liveIn[a] <= InOf(arch, insts[i], x.liveOut[a])
    && x.liveIn[a] <= Universe(arch, insts) && x.liveOut[a] <= Universe(arch, insts)
  }

  ghost predicate Growing(arch: Arch, insts: seq<Inst>, x: Facts) {
    Total(insts, x) && forall i :: 0 <= i < |insts| ==> GrowingAt(arch, insts, x, i)
  }

  function Initial(arch: Arch, insts: seq<Inst>): Facts
    requires DistinctAddresses(insts)
  {
    Facts(map i | 0 <= i < |insts| :: insts[i].address := {},
          map i | 0 <= i < |insts| :: insts[i].address := ExitSeed(arch, insts, i))
  }

  function Update(arch: Arch, insts: seq<Inst>, x: Facts, i: nat): Facts
    requires i < |insts|
  {
    var out := OutOf(arch, insts, i, x.liveIn);
    Facts(x.liveIn[insts[i].address := InOf(arch, insts[i], out)], x.liveOut[insts[i].address := out])
  }

  /** What is still missing from the largest conceivable facts. */
  function Missing(insts: seq<Inst>, universe: set<Family>, x: Facts): set<(int, Family, bool)> {
    (set a, f | a in Addresses(insts) && f in universe && !(a in x.liveIn && f in x.liveIn[a]) :: (a, f, false))
    + (set a, f | a in Addresses(insts) && f in universe && !(a in x.liveOut && f in x.liveOut[a]) :: (a, f, true))
  }

  lemma InitialGrows(arch: Arch, insts: seq<Inst>)
    requires DistinctAddresses(insts)
    ensures Growing(arch, insts, Initial(arch, insts))
  {}

  lemma InitialIsLeast(arch: Arch, insts: seq<Inst>)
    requires DistinctAddresses(insts)
    ensures Least(arch, insts, Initial(arch, insts))
  {
    var x := Initial(arch, insts);
    forall y: Facts | Bounding(arch, insts, y) ensures Below(x, y) {
      forall a | a in x.liveOut ensures x.liveOut[a] <= y.liveOut[a] {
        var i :| 0 <= i < |insts| && insts[i].address == a;
        assert OutOf(arch, insts, i, y.liveIn) <= y.liveOut[a];
      }
    }
  }

  lemma OutGrows(arch: Arch, insts: seq<Inst>, i: nat, x: map<int, set<Family>>, y: map<int, set<Family>>)
    requires i < |insts|
    requires forall a :: a in x ==> a in y && x[a] <= y[a]
    ensures OutOf(arch, insts, i, x) <= OutOf(arch, insts, i, y)
  {}

  lemma UpdateGrows(arch: Arch, insts: seq<Inst>, x: Facts, i: nat)
    requires i < |insts| && Growing(arch, insts, x)
    ensures Below(x, Update(arch, insts, x, i))
  {
    assert GrowingAt(arch, insts, x, i);
  }

  lemma UpdateKeepsAt(arch: Arch, insts: seq<Inst>, x: Facts, i: nat, j: nat)
    requires i < |insts| && j < |insts| && Growing(arch, insts, x) && DistinctAddresses(insts)
    ensures Total(insts, Update(arch, insts, x, i)) && GrowingAt(arch, insts, Update(arch, insts, x, i), j)
  {
    var y := Update(arch, insts, x, i);
    assert GrowingAt(arch, insts, x, i) && GrowingAt(arch, insts, x, j);
    UpdateInUniverse(arch, insts, x, i);
    var a, b := insts[i].address, insts[j].address;
    OutGrows(arch, insts, j, x.liveIn, y.liveIn);
    if i == j {
      assert y.liveOut[b] == OutOf(arch, insts, i, x.liveIn) <= OutOf(arch, insts, j, y.liveIn);
    } else {
      assert a != b && y.liveOut[b] == x.liveOut[b] && y.liveIn[b] == x.liveIn[b];
    }
  }

  lemma UpdateKeeps(arch: Arch, insts: seq<Inst>, x: Facts, i: nat)
    requires i < |insts| && Growing(arch, insts, x) && DistinctAddresses(insts)
    ensures Growing(arch, insts, Update(arch, insts, x, i))
  {
    forall j | 0 <= j < |insts|
      ensures Total(insts, Update(arch, insts, x, i)) && GrowingAt(arch, insts, Update(arch, insts, x, i), j)
    {
      UpdateKeepsAt(arch, insts, x, i, j);
    }
  }

  lemma UpdateInUniverse(arch: Arch, insts: seq<Inst>, x: Facts, i: nat)
    requires i < |insts| && Growing(arch, insts, x)
    ensures OutOf(arch, insts, i, x.liveIn) <= Universe(arch, insts)
    ensures InOf(arch, insts[i], OutOf(arch, insts, i, x.liveIn)) <= Universe(arch, insts)
  {
    forall f | f in OutOf(arch, insts, i, x.liveIn) ensures f in Universe(arch, insts) {
      if f !in ExitSeed(arch, insts, i) {
        var a :| a in Successors(insts, i) && a in x.liveIn && f in x.liveIn[a];
        var j :| 0 <= j < |insts| && insts[j].address == a;
        assert GrowingAt(arch, insts, x, j);
      }
    }
  }

  lemma UpdateBelow(arch: Arch, insts: seq<Inst>, x: Facts, i: nat, y: Facts)
    requires i < |insts| && Total(insts, x) && Bounding(arch, insts, y) && Below(x, y)
    ensures Below(Update(arch, insts, x, i), y)
  {
    var a := insts[i].address;
    OutGrows(arch, insts, i, x.liveIn, y.liveIn);
    var out, out' := OutOf(arch, insts, i, x.liveIn), OutOf(arch, insts, i, y.liveIn);
    assert out <= out' <= y.liveOut[a];
    assert InOf(arch, insts[i], out) <= InOf(arch, insts[i], y.liveOut[a]) <= y.liveIn[a];
    BelowUpdated(x, y, a, InOf(arch, insts[i], out), out);
  }

  lemma BelowUpdated(x: Facts, y: Facts, a: int, newIn: set<Family>, newOut: set<Family>)
    requires Below(x, y) && a in y.liveIn && a in y.liveOut && newIn <= y.liveIn[a] && newOut <= y.liveOut[a]
    ensures Below(Facts(x.liveIn[a := newIn], x.liveOut[a := newOut]), y)
  {}

  lemma UpdateLeast(arch: Arch, insts: seq<Inst>, x: Facts, i: nat)
    requires i < |insts| && Total(insts, x) && Least(arch, insts, x)
    ensures Least(arch, insts, Update(arch, insts, x, i))
  {
    forall y: Facts | Bounding(arch, insts, y) ensures Below(Update(arch, insts, x, i), y) {
      UpdateBelow(arch, insts, x, i, y);
    }
  }

  lemma MissingShrinks(insts: seq<Inst>, universe: set<Family>, x: Facts, y: Facts)
    requires Total(insts, x) && Total(insts, y) && Below(x, y)
    requires forall a :: a in y.liveIn ==> y.liveIn[a] <= universe
    requires forall a :: a in y.liveOut ==> y.liveOut[a] <= universe
    ensures Missing(insts, universe, y) <= Missing(insts, universe, x)
    ensures x != y ==> Missing(insts, universe, y) < Missing(insts, universe, x)
  {
    if x.liveIn != y.liveIn {
      var a :| a in Addresses(insts) && x.liveIn[a] != y.liveIn[a];
      var f :| f in y.liveIn[a] && f !in x.liveIn[a];
      assert (a, f, false) in Missing(insts, universe, x) && (a, f, false) !in Missing(insts, universe, y);
    }
    if x.liveOut != y.liveOut {
      var a :| a in Addresses(insts) && x.liveOut[a] != y.liveOut[a];
      var f :| f in y.liveOut[a] && f !in x.liveOut[a];
      assert (a, f, true) in Missing(insts, universe, x) && (a, f, true) !in Missing(insts, universe, y);
    }
  }

  /** What every state of the iteration satisfies. */
  ghost predicate Good(arch: Arch, insts: seq<Inst>, x: Facts) {
    Growing(arch, insts, x) && Least(arch, insts, x)
  }

  ghost predicate SettledFrom(arch: Arch, insts: seq<Inst>, x: Facts, i: nat) {
    forall k :: i <= k < |insts| ==> Settled(arch, insts, x, k)
  }

  ghost function Distance(arch: Arch, insts: seq<Inst>, x: Facts): set<(int, Family, bool)> {
    Missing(insts, Universe(arch, insts), x)
  }

  /** One recomputation: what it keeps, and how it moves towards the fixpoint. */
  lemma UpdateStep(arch: Arch, insts: seq<Inst>, x: Facts, i: nat)
    requires i < |insts| && DistinctAddresses(insts) && Good(arch, insts, x)
    ensures var y := Update(arch, insts, x, i);
            && Good(arch, insts, y)
            && (x == y && SettledFrom(arch, insts, x, i + 1) ==> SettledFrom(arch, insts, x, i))
            && Distance(arch, insts, y) <= Distance(arch, insts, x)
            && (x != y ==> Distance(arch, insts, y) < Distance(arch, insts, x))
  {
    var y := Update(arch, insts, x, i);
    UpdateKeeps(arch, insts, x, i);
    UpdateLeast(arch, insts, x, i);
    UpdateGrows(arch, insts, x, i);
    InsideUniverse(arch, insts, y);
    MissingShrinks(insts, Universe(arch, insts), x, y);
    if x == y {
      var a, out := insts[i].address, OutOf(arch, insts, i, x.liveIn);
      assert y.liveOut[a] == out && y.liveIn[a] == InOf(arch, insts[i], out);
    }
  }

  lemma InsideUniverse(arch: Arch, insts: seq<Inst>, x: Facts)
    requires Growing(arch, insts, x)
    ensures forall a :: a in x.liveIn ==> x.liveIn[a] <= Universe(arch, insts)
    ensures forall a :: a in x.liveOut ==> x.liveOut[a] <= Universe(arch, insts)
  {
    forall a | a in Addresses(insts)
      ensures x.liveIn[a] <= Universe(arch, insts) && x.liveOut[a] <= Universe(arch, insts)
    {
      var i :| 0 <= i < |insts| && insts[i].address == a;
      assert GrowingAt(arch, insts, x, i);
    }
  }

  // ---- what the least solution says ----

  /** Facts at an address hold what is live on some path from there. */
  ghost predicate PathsDecide(arch: Arch, insts: seq<Inst>, x: Facts) {
    forall i: nat, f :: i < |insts| && insts[i].address in x.liveIn && insts[i].address in x.liveOut ==>
      && (f in x.liveIn[insts[i].address] <==> LiveFrom(arch, insts, i, f))
      && (f in x.liveOut[insts[i].address] <==> LiveAfter(arch, insts, i, f))
  }

  /** What a solution has after an instruction, in terms of what it has before the next ones. */
  lemma OutIsFlow(arch: Arch, insts: seq<Inst>, i: nat, liveIn: map<int, set<Family>>, f: Family)
    requires i < |insts| && liveIn.Keys == Addresses(insts)
    ensures f in OutOf(arch, insts, i, liveIn) <==>
            || (insts[i].flow == Return && f in arch.exitLive)
            || exists j: nat :: j < |insts| && Continues(insts, i, j) && f in liveIn[insts[j].address]
  {
    if a :| a in Successors(insts, i) && a in liveIn && f in liveIn[a] {
      SuccessorsAreFlow(insts, i, a);
    }
    if j: nat :| j < |insts| && Continues(insts, i, j) && f in liveIn[insts[j].address] {
      SuccessorsAreFlow(insts, i, insts[j].address);
    }
  }

  lemma {:induction false} SolutionCoversPath(arch: Arch, insts: seq<Inst>, x: Facts, p: seq<nat>, f: Family)
    requires Solution(arch, insts, x) && LiveAlong(arch, insts, p, f)
    ensures f in x.liveIn[insts[p[0]].address]
  {
    var i := p[0];
    assert Settled(arch, insts, x, i);
    EffectsAreNamed(arch, insts[i], f);
    OutIsFlow(arch, insts, i, x.liveIn, f);
    if |p| > 1 {
      var q := p[1..];
      assert LiveAlong(arch, insts, q, f) by {
        assert q[|q| - 1] == p[|p| - 1];
        forall k | 0 <= k < |q| - 1 ensures Continues(insts, q[k], q[k + 1]) && !Defines(arch, insts[q[k]], f) {
          assert q[k] == p[k + 1] && q[k + 1] == p[k + 2];
        }
      }
      SolutionCoversPath(arch, insts, x, q, f);
      assert Continues(insts, i, p[1]);
    }
  }

  ghost function LiveAt(arch: Arch, insts: seq<Inst>, i: nat): set<Family> {
    set f | f in Universe(arch, insts) && LiveFrom(arch, insts, i, f)
  }

  ghost function IndexOf(insts: seq<Inst>, a: int): (i: nat)
    requires a in Addresses(insts)
    ensures i < |insts| && insts[i].address == a
  {
    var i :| 0 <= i < |insts| && insts[i].address == a;
    i
  }

  /** What the paths make live, as facts. */
  ghost function PathFacts(arch: Arch, insts: seq<Inst>): (y: Facts)
    ensures Total(insts, y)
  {
    var liveIn := map a | a in Addresses(insts) :: LiveAt(arch, insts, IndexOf(insts, a));
    Facts(liveIn, map a | a in Addresses(insts) :: OutOf(arch, insts, IndexOf(insts, a), liveIn))
  }

  lemma PathFactsAt(arch: Arch, insts: seq<Inst>, i: nat)
    requires DistinctAddresses(insts) && i < |insts|
    ensures var y := PathFacts(arch, insts);
            && y.liveIn[insts[i].address] == LiveAt(arch, insts, i)
            && y.liveOut[insts[i].address] == OutOf(arch, insts, i, y.liveIn)
  {
    var j := IndexOf(insts, insts[i].address);
    assert j == i;
  }

  lemma PathFactsBound(arch: Arch, insts: seq<Inst>)
    requires DistinctAddresses(insts)
    ensures Bounding(arch, insts, PathFacts(arch, insts))
  {
    var y := PathFacts(arch, insts);
    forall i: nat | i < |insts|
      ensures y.liveOut[insts[i].address] == OutOf(arch, insts, i, y.liveIn)
      ensures InOf(arch, insts[i], y.liveOut[insts[i].address]) <= y.liveIn[insts[i].address]
    {
      PathFactsAt(arch, insts, i);
      forall f | f in InOf(arch, insts[i], y.liveOut[insts[i].address]) ensures f in LiveAt(arch, insts, i) {
        PathFactsBoundAt(arch, insts, i, f);
      }
    }
  }

  lemma PathFactsBoundAt(arch: Arch, insts: seq<Inst>, i: nat, f: Family)
    requires DistinctAddresses(insts) && i < |insts|
    requires f in InOf(arch, insts[i], OutOf(arch, insts, i, PathFacts(arch, insts).liveIn))
    ensures f in LiveAt(arch, insts, i)
  {
    var y := PathFacts(arch, insts);
    EffectsAreNamed(arch, insts[i], f);
    if Uses(arch, insts[i], f) {
      LiveHere(arch, insts, i, f);
    } else {
      OutIsFlow(arch, insts, i, y.liveIn, f);
      if insts[i].flow == Return && f in arch.exitLive {
        LiveHere(arch, insts, i, f);
      } else {
        var j: nat :| j < |insts| && Continues(insts, i, j) && f in y.liveIn[insts[j].address];
        PathFactsAt(arch, insts, j);
        LiveBefore(arch, insts, i, j, f);
      }
    }
  }

  /** The least solution is exactly what the paths make live. */
  lemma LeastIsPaths(arch: Arch, insts: seq<Inst>, x: Facts)
    requires DistinctAddresses(insts) && Solution(arch, insts, x) && Least(arch, insts, x)
    ensures PathsDecide(arch, insts, x)
  {
    PathFactsBound(arch, insts);
    var y := PathFacts(arch, insts);
    forall i: nat, f | i < |insts| ensures f in x.liveIn[insts[i].address] <==> LiveFrom(arch, insts, i, f) {
      PathFactsAt(arch, insts, i);
      if f in x.liveIn[insts[i].address] { assert f in y.liveIn[insts[i].address]; }
      if LiveFrom(arch, insts, i, f) {
        var p :| LiveAlong(arch, insts, p, f) && p[0] == i;
        SolutionCoversPath(arch, insts, x, p, f);
      }
    }
    forall i: nat, f | i < |insts| ensures f in x.liveOut[insts[i].address] <==> LiveAfter(arch, insts, i, f) {
      assert Settled(arch, insts, x, i);
      OutIsFlow(arch, insts, i, x.liveIn, f);
    }
  }

  // ---- targets the analysis misreads ----

  /** A printed branch target is found exactly when no number comes before it in the text, or the same one does. */
  lemma TargetFoundIff(insts: seq<Inst>, inst: Inst, before: string, numeral: string, target: nat)
    requires inst.operands == before + numeral && Separates(before) && Denotes(numeral, target)
    requires target in Addresses(insts)
    ensures DirectTarget(insts, inst) == [target] <==> !HasDigit(before) || FirstNumber(before) == Some(target)
  {
    PrintedIsReadIff(before, numeral, target);
  }

  /** The function `cbz x1, #0x8; ret; mov x0, x5; ret`. */
  const MISREAD: seq<Inst> := [
    Inst(0, Conditional, "x1, #0x8", ["x1"], [], false, false, false),
    Inst(4, Return, "", [], [], false, false, false),
    Inst(8, Straight, "x0, x5", ["x5"], ["x0"], false, false, false),
    Inst(12, Return, "", [], [], false, false, false)]

  /** The number of the register hides the target, so what the branch target reads is not live. */
  lemma RegisterHidesTarget(arch: Arch, x: Facts)
    requires arch.family("x1") == "x1" && arch.family("x5") == "x5" && !arch.isZero("x5") && arch.exitLive == {"x0"}
    requires Solution(arch, MISREAD, x) && Least(arch, MISREAD, x)
    ensures 8 in x.liveIn && "x5" in x.liveIn[8]
    ensures 0 in x.liveIn && "x5" !in x.liveIn[0]
  {
    LeastIsPaths(arch, MISREAD, x);
    assert MISREAD[0].address == 0 && MISREAD[2].address == 8;
    assert Uses(arch, MISREAD[2], "x5") by { assert MISREAD[2].readRegisters[0] == "x5"; }
    LiveHere(arch, MISREAD, 2, "x5");
    NotLiveInMisread(arch);
  }

  lemma NotLiveInMisread(arch: Arch)
    requires arch.family("x1") == "x1" && arch.exitLive == {"x0"}
    ensures !LiveFrom(arch, MISREAD, 0, "x5")
  {
    forall p: seq<nat> | Path(MISREAD, p) && p[0] == 0 ensures !Observes(arch, MISREAD[p[|p| - 1]], "x5") {
      PathsOfMisread(p);
    }
  }

  lemma PathsOfMisread(p: seq<nat>)
    requires Path(MISREAD, p) && p[0] == 0
    ensures p[|p| - 1] == 0 || p[|p| - 1] == 1
  {
    FirstOfMisread();
    forall k | 0 <= k < |p| - 1 ensures MISREAD[p[k]].flow != Return { GoesOn(MISREAD, p, k); }
    if |p| > 1 { assert Continues(MISREAD, p[0], p[1]) && MISREAD[p[1]].flow == Return; }
  }

  lemma GoesOn(insts: seq<Inst>, p: seq<nat>, k: nat)
    requires Path(insts, p) && k < |p| - 1
    ensures insts[p[k]].flow != Return
  {
    assert Continues(insts, p[k], p[k + 1]);
  }

  lemma FirstOfMisread()
    ensures FirstNumber(MISREAD[0].operands) == Some(1)
  {
    assert "x1, #0x8" == "x1, #" + "0x8" && "x1, #" == "x" + "1" + ", #";
    assert IsDigit("x1, #"[1]);
    EarlierNumberWins("x1, #", "0x8");
    assert ParseDecimal("1") == 1 by { assert "1"[..0] == ""; }
    FirstIsRead("x", "1", 1, ", #");
  }

  /** The analysis of one function terminates with the least solution of the liveness equations. */
  method Analyze(arch: Arch, insts: seq<Inst>) returns (x: Facts)
    requires DistinctAddresses(insts)
    ensures Solution(arch, insts, x) && Least(arch, insts, x) && PathsDecide(arch, insts, x)
  {
    x := Initial(arch, insts);
    InitialGrows(arch, insts);
    InitialIsLeast(arch, insts);
    var changed := true;
    while changed
      invariant Good(arch, insts, x)
      invariant !changed ==> SettledFrom(arch, insts, x, 0)
      decreases Distance(arch, insts, x), changed
    {
      x, changed := Sweep(arch, insts, x);
    }
    LeastIsPaths(arch, insts, x);
  }

  /** One pass over the instructions, last to first. */
  method Sweep(arch: Arch, insts: seq<Inst>, start: Facts) returns (x: Facts, changed: bool)
    requires DistinctAddresses(insts) && Good(arch, insts, start)
    ensures Good(arch, insts, x)
    ensures if changed then Distance(arch, insts, x) < Distance(arch, insts, start)
            else x == start && SettledFrom(arch, insts, x, 0)
  {
    x, changed := start, false;
    for i := |insts| downto 0
      invariant Good(arch, insts, x)
      invariant if changed then Distance(arch, insts, x) < Distance(arch, insts, start)
                else x == start && SettledFrom(arch, insts, x, i)
    {
      UpdateStep(arch, insts, x, i);
      var y := Update(arch, insts, x, i);
      if y != x { x, changed := y, true; }
    }
  }
}
