/** Collecting a window's memory operands relative to the stack pointer at entry, and putting them in address order. */
module StackOperands {
  import opened Wrappers
  import opened MemoryReplay
  import opened Sorting

  type Register = string

  datatype Address = Address(base: Register, index: Option<Register>, scale: int, displacement: int)

  datatype Operand = Operand(kind: Kind, width: nat, address: Address)

  /** `spDelta` is how far the instruction moves the stack pointer. */
  datatype Instruction = Instruction(operands: seq<Operand>, spDelta: int)

  /** An operand and the position of its instruction in the window. */
  datatype Collected = Collected(at: nat, operand: Operand)

  type Registers = Register -> int

  function ScaledIndex(a: Address, regs: Registers): int { if a.index.Some? then regs(a.index.value) * a.scale else 0 }

  function EffectiveAddress(a: Address, regs: Registers): int { regs(a.base) + ScaledIndex(a, regs) + a.displacement }

  // ---- collecting ----

  function Adjust(o: Operand, delta: int, isSp: Register -> bool): Operand {
    if delta == 0 || !isSp(o.address.base) then o
    else o.(address := o.address.(displacement := o.address.displacement + delta))
  }

  /** The operands as written, in order. */
  function Written(window: seq<Instruction>): seq<Collected> {
    if window == [] then [] else
    var n := |window| - 1;
    Written(window[..n]) + Tag(window[n].operands, n)
  }

  function Tag(operands: seq<Operand>, at: nat): (r: seq<Collected>)
    ensures |r| == |operands|
  {
    seq(|operands|, i requires 0 <= i < |operands| => Collected(at, operands[i]))
  }

  function Moved(window: seq<Instruction>): int {
    if window == [] then 0 else Moved(window[..|window| - 1]) + window[|window| - 1].spDelta
  }

  /** Entry-relative form of a written operand. */
  function AtEntry(window: seq<Instruction>, c: Collected, isSp: Register -> bool): Collected
    requires c.at <= |window|
  {
    c.(operand := Adjust(c.operand, Moved(window[..c.at]), isSp))
  }

  lemma {:induction false} WrittenInWindow(window: seq<Instruction>)
    ensures forall j :: 0 <= j < |Written(window)| ==> Written(window)[j].at < |window|
  {
    if window != [] { WrittenInWindow(window[..|window| - 1]); }
  }

  /** How many operands the first `k` instructions have. */
  ghost function Count(window: seq<Instruction>, k: nat): nat
    requires k <= |window|
  {
    if k == 0 then 0 else Count(window, k - 1) + |window[k - 1].operands|
  }

  lemma {:induction false} CountPrefix(window: seq<Instruction>, n: nat, k: nat)
    requires k <= n <= |window|
    ensures Count(window[..n], k) == Count(window, k)
  {
    if k > 0 { CountPrefix(window, n, k - 1); }
  }

  /** Every operand is collected at its place: after those of earlier instructions and those before it in its own. */
  lemma {:induction false} WrittenAt(window: seq<Instruction>, k: nat, i: nat)
    requires k < |window| && i < |window[k].operands|
    ensures |Written(window)| == Count(window, |window|) && Count(window, k) + i < |Written(window)|
    ensures Written(window)[Count(window, k) + i] == Collected(k, window[k].operands[i])
    decreases |window|
  {
    var n := |window| - 1;
    WrittenSize(window[..n]);
    WrittenSize(window);
    CountPrefix(window, n, n);
    if k < n {
      WrittenAt(window[..n], k, i);
      CountPrefix(window, n, k);
    }
  }

  lemma {:induction false} WrittenSize(window: seq<Instruction>)
    ensures |Written(window)| == Count(window, |window|)
  {
    if window != [] {
      var n := |window| - 1;
      WrittenSize(window[..n]);
      CountPrefix(window, n, n);
    }
  }

  /** `collected` is the written operands of the first instructions, each in entry-relative form. */
  ghost predicate CollectedSoFar(window: seq<Instruction>, n: nat, collected: seq<Collected>, isSp: Register -> bool) {
    && n <= |window| && |collected| == |Written(window[..n])|
    && forall j :: 0 <= j < |collected| ==>
         Written(window[..n])[j].at < n && collected[j] == AtEntry(window, Written(window[..n])[j], isSp)
  }

  lemma CollectOneMore(window: seq<Instruction>, n: nat, collected: seq<Collected>, more: seq<Collected>,
      isSp: Register -> bool)
    requires n < |window| && CollectedSoFar(window, n, collected, isSp)
    requires |more| == |window[n].operands|
    requires forall i :: 0 <= i < |more| ==>
             more[i] == Collected(n, Adjust(window[n].operands[i], Moved(window[..n]), isSp))
    ensures CollectedSoFar(window, n + 1, collected + more, isSp)
  {
    assert window[..n + 1][..n] == window[..n];
    var before, after := Written(window[..n]), Written(window[..n + 1]);
    assert after == before + Tag(window[n].operands, n);
    forall j | 0 <= j < |after|
      ensures after[j].at < n + 1 && (collected + more)[j] == AtEntry(window, after[j], isSp)
    {
      if j >= |before| { assert after[j] == Tag(window[n].operands, n)[j - |before|]; }
    }
  }

  method Collect(window: seq<Instruction>, isSp: Register -> bool) returns (collected: seq<Collected>)
    ensures CollectedSoFar(window, |window|, collected, isSp) && window[..|window|] == window
  {
    collected := [];
    var spDelta := 0;
    for n := 0 to |window|
      invariant CollectedSoFar(window, n, collected, isSp)
      invariant spDelta == Moved(window[..n])
    {
      var more: seq<Collected> := [];
      for i := 0 to |window[n].operands|
        invariant |more| == i
        invariant forall k :: 0 <= k < i ==>
                  more[k] == Collected(n, Adjust(window[n].operands[k], Moved(window[..n]), isSp))
      {
        more := more + [Collected(n, Adjust(window[n].operands[i], spDelta, isSp))];
      }
      CollectOneMore(window, n, collected, more, isSp);
      collected := collected + more;
      assert window[..n + 1][..n] == window[..n];
      spDelta := spDelta + window[n].spDelta;
    }
  }

  /** One run of the window: `states[k]` holds the registers before instruction `k`, and every delta is the true one. */
  ghost predicate TrueDeltas(window: seq<Instruction>, states: seq<Registers>, isSp: Register -> bool) {
    && |states| == |window| + 1
    && forall k, r :: 0 <= k < |window| && isSp(r) ==> states[k + 1](r) == states[k](r) + window[k].spDelta
  }

  lemma {:induction false} StackPointerAt(window: seq<Instruction>, states: seq<Registers>, isSp: Register -> bool,
      k: nat, r: Register)
    requires TrueDeltas(window, states, isSp) && k <= |window| && isSp(r)
    ensures states[k](r) == states[0](r) + Moved(window[..k])
  {
    if k > 0 {
      StackPointerAt(window, states, isSp, k - 1, r);
      assert window[..k][..k - 1] == window[..k - 1];
      assert states[k - 1 + 1](r) == states[k - 1](r) + window[k - 1].spDelta;
    }
  }

  /** Collected stack displacements are relative to the stack pointer at entry; other operands are as written. */
  lemma CollectedFromEntry(window: seq<Instruction>, states: seq<Registers>, isSp: Register -> bool,
      collected: seq<Collected>, j: nat)
    requires TrueDeltas(window, states, isSp) && CollectedSoFar(window, |window|, collected, isSp) && j < |collected|
    ensures window[..|window|] == window
    ensures var (now, was) := (collected[j], Written(window)[j]);
            && now.at == was.at < |window|
            && now.operand.kind == was.operand.kind && now.operand.width == was.operand.width
            && (isSp(was.operand.address.base) ==>
                  EffectiveAddress(was.operand.address, states[was.at])
                  == states[0](was.operand.address.base) + ScaledIndex(was.operand.address, states[was.at])
                      + now.operand.address.displacement)
            && (!isSp(was.operand.address.base) ==> now == was)
  {
    assert window[..|window|] == window;
    var was := Written(window)[j];
    if isSp(was.operand.address.base) { StackPointerAt(window, states, isSp, was.at, was.operand.address.base); }
  }

  // ---- reordering ----

  function Start(c: Collected): int { c.operand.address.displacement }

  function End(c: Collected): int { c.operand.address.displacement + c.operand.width }

  predicate ByDisplacement(a: Collected, b: Collected) { Start(a) <= Start(b) }

  ghost predicate AllStackBased(ops: seq<Collected>, isSp: Register -> bool) {
    forall i :: 0 <= i < |ops| ==> isSp(ops[i].operand.address.base)
  }

  predicate SameKind(ops: seq<Collected>) {
    forall i :: 0 <= i < |ops| ==> ops[i].operand.kind == ops[0].operand.kind
  }

  /** Accesses touch at least one byte. */
  predicate Wide(ops: seq<Collected>) { forall c :: c in ops ==> c.operand.width >= 1 }

  ghost predicate Reorderable(ops: seq<Collected>) { SameKind(ops) && PairwiseApart(ops, Start, End) }

  lemma SortedOperands(ops: seq<Collected>)
    ensures var t := Sort(ops, ByDisplacement);
            && multiset(t) == multiset(ops) && |t| == |ops|
            && forall i, j :: 0 <= i < j < |t| ==> Start(t[i]) <= Start(t[j])
  {
    assert TotalPreorder(ByDisplacement);
    SortSorts(ops, ByDisplacement);
    var t := Sort(ops, ByDisplacement);
    forall i, j | 0 <= i < j < |t| ensures Start(t[i]) <= Start(t[j]) { assert ByDisplacement(t[i], t[j]); }
  }

  method CanReorder(ops: seq<Collected>) returns (can: bool)
    requires Wide(ops)
    ensures can <==> Reorderable(ops)
  {
    if ops == [] { return true; }
    if exists i :: 0 <= i < |ops| && ops[i].operand.kind != ops[0].operand.kind { return false; }
    var sorted := Sort(ops, ByDisplacement);
    SortedOperands(ops);
    AdjacentIffPairwise(ops, sorted, Start, End);
    can := Neighbours(sorted);
  }

  method Neighbours(sorted: seq<Collected>) returns (apart: bool)
    ensures apart <==> AdjacentApart(sorted, Start, End)
  {
    var i := 0;
    while i < |sorted| - 1
      invariant i <= |sorted|
      invariant forall k :: 0 <= k < i && k < |sorted| - 1 ==> End(sorted[k]) <= Start(sorted[k + 1])
    {
      if End(sorted[i]) > Start(sorted[i + 1]) { return false; }
      i := i + 1;
    }
    apart := true;
  }

  method StackBased(ops: seq<Collected>, isSp: Register -> bool) returns (all: bool)
    ensures all <==> AllStackBased(ops, isSp)
  {
    for i := 0 to |ops|
      invariant forall k :: 0 <= k < i ==> isSp(ops[k].operand.address.base)
    {
      if !isSp(ops[i].operand.address.base) { return false; }
    }
    all := true;
  }

  datatype Reordered = Reordered(guest: seq<Collected>, host: seq<Collected>) | Conflict

  method ReorderStackOperands(guest: seq<Collected>, host: seq<Collected>, guestSp: Register -> bool,
      hostSp: Register -> bool)
    returns (r: Reordered)
    requires Wide(guest) && Wide(host)
    ensures |guest| <= 1 || !AllStackBased(guest, guestSp) || !AllStackBased(host, hostSp) ==>
            r == Reordered(guest, host)
    ensures |guest| > 1 && AllStackBased(guest, guestSp) && AllStackBased(host, hostSp) ==>
              if Reorderable(guest) && Reorderable(host)
              then r == Reordered(Sort(guest, ByDisplacement), Sort(host, ByDisplacement))
              else r == Conflict
  {
    if |guest| <= 1 { return Reordered(guest, host); }
    var guestBased := StackBased(guest, guestSp);
    var hostBased := StackBased(host, hostSp);
    if !guestBased || !hostBased { return Reordered(guest, host); }
    var g, h;
    g := CanReorder(guest);
    h := CanReorder(host);
    if !g || !h { return Conflict; }
    r := Reordered(Sort(guest, ByDisplacement), Sort(host, ByDisplacement));
  }

  // ---- what a reordering keeps ----

  /** The accesses one side makes: where each operand points, and the value it reads or writes. */
  function Accesses(ops: seq<Collected>, regs: Registers, value: Collected -> int): (s: seq<Access>)
    ensures |s| == |ops|
    ensures forall i :: 0 <= i < |ops| ==> s[i] == AccessOf(ops[i], regs, value)
  {
    seq(|ops|, i requires 0 <= i < |ops| => AccessOf(ops[i], regs, value))
  }

  function AccessOf(c: Collected, regs: Registers, value: Collected -> int): Access {
    Access(c.operand.kind, EffectiveAddress(c.operand.address, regs), c.operand.width, value(c))
  }

  predicate Touches(c: Collected, regs: Registers, x: int) {
    (x - EffectiveAddress(c.operand.address, regs)) % M64 < c.operand.width
  }

  /** Operand `j` is the last one to touch the byte at `x`. */
  predicate LastToTouch(ops: seq<Collected>, regs: Registers, j: nat, x: int) {
    j < |ops| && Touches(ops[j], regs, x) && forall k :: j < k < |ops| ==> !Touches(ops[k], regs, x)
  }

  /** The last operand to touch some byte is sorted before an earlier one that touches it too. */
  ghost predicate LastMoves(ops: seq<Collected>, regs: Registers) {
    exists i: nat, j: nat, x: int ::
      i < j && LastToTouch(ops, regs, j, x) && Touches(ops[i], regs, x) && Start(ops[j]) < Start(ops[i])
  }

  predicate Stores(ops: seq<Collected>) { ops != [] && ops[0].operand.kind == Write }

  lemma {:induction false} FindLast(ops: seq<Collected>, regs: Registers, i: nat, x: int) returns (j: nat)
    requires i < |ops| && Touches(ops[i], regs, x)
    ensures i <= j && LastToTouch(ops, regs, j, x)
    decreases |ops| - i
  {
    if k :| i < k < |ops| && Touches(ops[k], regs, x) { j := FindLast(ops, regs, k, x); } else { j := i; }
  }

  /** The last operand to store a byte decides it. */
  lemma LastDecides(ops: seq<Collected>, regs: Registers, value: Collected -> int, mem: Memory, j: nat, x: int)
    requires LastToTouch(ops, regs, j, x) && ops[j].operand.kind == Write
    ensures var a := AccessOf(ops[j], regs, value);
            Replay(Accesses(ops, regs, value), mem)(x) == ByteAt(a.value, Offset(a, x))
  {
    LastStoreTo(Accesses(ops, regs, value), mem, x, j);
  }

  /** What sorting the operands gives. */
  ghost predicate SortedForm(ops: seq<Collected>, t: seq<Collected>) {
    && multiset(t) == multiset(ops) && AdjacentApart(t, Start, End)
    && forall i, j :: 0 <= i < j < |t| ==> Start(t[i]) < Start(t[j])
  }

  lemma SortIsSorted(ops: seq<Collected>)
    requires Wide(ops) && Reorderable(ops)
    ensures SortedForm(ops, Sort(ops, ByDisplacement))
  {
    var t := Sort(ops, ByDisplacement);
    SortedOperands(ops);
    AdjacentIffPairwise(ops, t, Start, End);
    forall c | c in t ensures c in ops { assert c in multiset(t); }
    AdjacentIffPairwise(t, t, Start, End);
    forall i, j | 0 <= i < j < |t| ensures Start(t[i]) < Start(t[j]) { assert Apart(t[i], t[j], Start, End); }
  }

  lemma PlaceIn(ops: seq<Collected>, t: seq<Collected>, i: nat) returns (m: nat)
    requires multiset(ops) == multiset(t) && i < |ops|
    ensures m < |t| && t[m] == ops[i]
  {
    assert ops[i] in multiset(t);
    m :| m < |t| && t[m] == ops[i];
  }

  /** When no last operand moves, the last to touch a byte stays the last. */
  lemma StaysLast(ops: seq<Collected>, t: seq<Collected>, regs: Registers, j: nat, x: int) returns (m: nat)
    requires SortedForm(ops, t) && !LastMoves(ops, regs) && LastToTouch(ops, regs, j, x)
    ensures LastToTouch(t, regs, m, x) && t[m] == ops[j]
  {
    m := PlaceIn(ops, t, j);
    forall n | m < n < |t| ensures !Touches(t[n], regs, x) {
      var k := PlaceIn(t, ops, n);
      assert Start(ops[j]) < Start(ops[k]);
    }
  }

  lemma SameMembers(ops: seq<Collected>, t: seq<Collected>, regs: Registers, value: Collected -> int, e: Access)
    requires multiset(ops) == multiset(t) && e in Accesses(ops, regs, value)
    ensures e in Accesses(t, regs, value)
  {
    var i: nat :| i < |ops| && Accesses(ops, regs, value)[i] == e;
    var j := PlaceIn(ops, t, i);
    assert Accesses(t, regs, value)[j] == e;
  }

  lemma NeitherTouches(ops: seq<Collected>, t: seq<Collected>, regs: Registers, value: Collected -> int, mem: Memory,
      x: int)
    requires multiset(ops) == multiset(t) && forall i :: 0 <= i < |ops| ==> !Touches(ops[i], regs, x)
    ensures Replay(Accesses(ops, regs, value), mem)(x) == mem(x) == Replay(Accesses(t, regs, value), mem)(x)
  {
    forall n: nat | n < |t| ensures !Touches(t[n], regs, x) { var k := PlaceIn(t, ops, n); }
    UntouchedByte(Accesses(ops, regs, value), mem, x);
    UntouchedByte(Accesses(t, regs, value), mem, x);
  }

  lemma SameByte(ops: seq<Collected>, t: seq<Collected>, regs: Registers, value: Collected -> int, mem: Memory, x: int)
    requires SortedForm(ops, t) && SameKind(ops) && Stores(ops) && !LastMoves(ops, regs)
    ensures Replay(Accesses(ops, regs, value), mem)(x) == Replay(Accesses(t, regs, value), mem)(x)
  {
    if i :| 0 <= i < |ops| && Touches(ops[i], regs, x) {
      var j := FindLast(ops, regs, i, x);
      var m := StaysLast(ops, t, regs, j, x);
      LastDecides(ops, regs, value, mem, j, x);
      LastDecides(t, regs, value, mem, m, x);
    } else {
      NeitherTouches(ops, t, regs, value, mem, x);
    }
  }

  /** An accepted reordering is a rearrangement in address order that memory and every read cannot tell from the
      original. */
  lemma ReorderKeepsBehaviour(ops: seq<Collected>, regs: Registers, value: Collected -> int)
    requires Wide(ops) && Reorderable(ops) && (Stores(ops) ==> !LastMoves(ops, regs))
    ensures SortedForm(ops, Sort(ops, ByDisplacement))
    ensures SameBehaviour(Accesses(ops, regs, value), Accesses(Sort(ops, ByDisplacement), regs, value))
  {
    var t := Sort(ops, ByDisplacement);
    SortIsSorted(ops);
    var a, b := Accesses(ops, regs, value), Accesses(t, regs, value);
    forall e ensures e in a <==> e in b {
      if e in a { SameMembers(ops, t, regs, value, e); }
      if e in b { SameMembers(t, ops, regs, value, e); }
    }
    forall mem: Memory
      ensures (ReadsAgree(a, mem) <==> ReadsAgree(b, mem)) && forall x :: Replay(a, mem)(x) == Replay(b, mem)(x)
    {
      SameReads(a, b, mem);
      if Stores(ops) {
        forall x ensures Replay(a, mem)(x) == Replay(b, mem)(x) { SameByte(ops, t, regs, value, mem, x); }
      } else {
        forall i: nat | i < |b| ensures b[i].kind == Read { assert b[i] in a; }
        ReadsLeaveMemory(a, mem);
        ReadsLeaveMemory(b, mem);
      }
    }
  }

  /** All ones for one operand, zero for every other. */
  function Marking(marked: Collected): Collected -> int {
    c => if c == marked then AllOnes(marked.operand.width) else 0
  }

  lemma MarkedByte(ops: seq<Collected>, regs: Registers, marked: Collected, mem: Memory, j: nat, x: int)
    requires LastToTouch(ops, regs, j, x) && ops[j].operand.kind == Write
    ensures Replay(Accesses(ops, regs, Marking(marked)), mem)(x) == if ops[j] == marked then 255 else 0
  {
    var place := Offset(AccessOf(ops[j], regs, Marking(marked)), x);
    LastDecides(ops, regs, Marking(marked), mem, j, x);
    if ops[j] == marked { AllOnesByte(marked.operand.width, place); } else { ZeroByte(place); }
  }

  /** In the sorted order something else is the last to touch that byte. */
  lemma AnotherIsLast(ops: seq<Collected>, t: seq<Collected>, regs: Registers, i: nat, j: nat, x: int) returns (m: nat)
    requires SortedForm(ops, t) && i < |ops| && j < |ops| && Touches(ops[i], regs, x) && Start(ops[j]) < Start(ops[i])
    ensures LastToTouch(t, regs, m, x) && t[m] != ops[j]
  {
    var n := PlaceIn(ops, t, i);
    m := FindLast(t, regs, n, x);
  }

  lemma MarkedBytesDiffer(ops: seq<Collected>, t: seq<Collected>, regs: Registers, i: nat, j: nat, x: int)
    requires SortedForm(ops, t) && SameKind(ops) && Stores(ops)
    requires i < |ops| && LastToTouch(ops, regs, j, x) && Touches(ops[i], regs, x) && Start(ops[j]) < Start(ops[i])
    ensures !SameBehaviour(Accesses(ops, regs, Marking(ops[j])), Accesses(t, regs, Marking(ops[j])))
  {
    var m := AnotherIsLast(ops, t, regs, i, j, x);
    var k := PlaceIn(t, ops, m);
    MarkedByte(ops, regs, ops[j], _ => 0, j, x);
    MarkedByte(t, regs, ops[j], _ => 0, m, x);
    DifferAt(Accesses(ops, regs, Marking(ops[j])), Accesses(t, regs, Marking(ops[j])), _ => 0, x);
  }

  /** Where a last operand moves, stores of the right values tell the two orders apart. */
  lemma MovedStoreShows(ops: seq<Collected>, regs: Registers) returns (value: Collected -> int)
    requires Wide(ops) && Reorderable(ops) && Stores(ops) && LastMoves(ops, regs)
    ensures !SameBehaviour(Accesses(ops, regs, value), Accesses(Sort(ops, ByDisplacement), regs, value))
  {
    SortIsSorted(ops);
    var i: nat, j: nat, x: int :|
      i < j && LastToTouch(ops, regs, j, x) && Touches(ops[i], regs, x) && Start(ops[j]) < Start(ops[i]);
    MarkedBytesDiffer(ops, Sort(ops, ByDisplacement), regs, i, j, x);
    value := Marking(ops[j]);
  }

  /** An accepted reordering keeps behaviour for all values exactly when it reads, or moves no last store to a byte. */
  lemma ReorderKeepsBehaviourIff(ops: seq<Collected>, regs: Registers)
    requires Wide(ops) && Reorderable(ops)
    ensures (Stores(ops) ==> !LastMoves(ops, regs))
            <==> forall value :: SameBehaviour(Accesses(ops, regs, value),
                Accesses(Sort(ops, ByDisplacement), regs, value))
  {
    if Stores(ops) && LastMoves(ops, regs) {
      var value := MovedStoreShows(ops, regs);
    } else {
      forall value ensures SameBehaviour(Accesses(ops, regs, value), Accesses(Sort(ops, ByDisplacement), regs, value)) {
        ReorderKeepsBehaviour(ops, regs, value);
      }
    }
  }

  // ---- operands without an index ----

  /** All operands use one base register, and no index. */
  predicate PlainStack(ops: seq<Collected>, base: int, regs: Registers) {
    forall c :: c in ops ==> c.operand.address.index.None? && regs(c.operand.address.base) == base
  }

  /** The operands lie within one turn of the address space. */
  predicate Near(ops: seq<Collected>) { forall c, d :: c in ops && d in ops ==> End(c) - Start(d) <= M64 }

  /** Without an index, accepted operands within one turn of the address space share no byte, so none moves. */
  lemma PlainStays(ops: seq<Collected>, base: int, regs: Registers)
    requires Reorderable(ops) && PlainStack(ops, base, regs) && Near(ops)
    ensures !LastMoves(ops, regs)
  {
    forall i: nat, j: nat, x | i < j < |ops| && Touches(ops[i], regs, x) && Touches(ops[j], regs, x)
        && Start(ops[j]) < Start(ops[i])
      ensures false
    {
      assert Apart(ops[i], ops[j], Start, End) && ops[i] in ops && ops[j] in ops;
      ApartRanges(AccessOf(ops[j], regs, _ => 0), AccessOf(ops[i], regs, _ => 0), x);
    }
  }

  // ---- indexed operands ----

  /** A store above the stack pointer. */
  const DISPLACED: Collected := Collected(0, Operand(Write, 8, Address("sp", None, 1, 8)))

  /** A store at the stack pointer plus an index. */
  const INDEXED: Collected := Collected(1, Operand(Write, 8, Address("sp", Some("x0"), 1, 0)))

  lemma SortPair(a: Collected, b: Collected)
    requires Start(b) < Start(a)
    ensures Sort([a, b], ByDisplacement) == [b, a]
  {
    assert [a, b][..1] == [a] && [a][..0] == [];
    assert Sort([a], ByDisplacement) == Insert(a, [], ByDisplacement) == [a];
    assert Insert(b, [a], ByDisplacement) == Insert(b, [], ByDisplacement) + [a];
  }

  lemma PairAccesses(a: Collected, b: Collected, regs: Registers, value: Collected -> int)
    ensures Accesses([a, b], regs, value) == [AccessOf(a, regs, value), AccessOf(b, regs, value)]
  {}

  /** The overlap test ignores indexes: with one, accepted stores can overlap, and their order matters. */
  lemma IndexedReorderDiffers(regs: Registers, value: Collected -> int)
    requires regs("sp") == 0 && regs("x0") == 8 && value(DISPLACED) == 0 && value(INDEXED) == 1
    ensures Reorderable([DISPLACED, INDEXED])
    ensures !SameBehaviour(Accesses([DISPLACED, INDEXED], regs, value),
            Accesses(Sort([DISPLACED, INDEXED], ByDisplacement), regs, value))
  {
    SortPair(DISPLACED, INDEXED);
    PairAccesses(DISPLACED, INDEXED, regs, value);
    PairAccesses(INDEXED, DISPLACED, regs, value);
    StoresAtOnePlace();
  }

  lemma StoresAtOnePlace()
    ensures !SameBehaviour([Access(Write, 8, 8, 0), Access(Write, 8, 8, 1)],
            [Access(Write, 8, 8, 1), Access(Write, 8, 8, 0)])
  {
    var a, b := Access(Write, 8, 8, 0), Access(Write, 8, 8, 1);
    assert Offset(a, 8) == 0 && Offset(b, 8) == 0;
    assert ByteAt(1, 0) == 1 && ByteAt(0, 0) == 0;
    LastStoreWins(a, b, 8);
  }
}
