/** Expressing host-only immediates through guest immediates. */
module Derivation {
  import opened Wrappers
  import opened RuleAst
  import opened Semantics
  import opened OperatorLaws
  import opened ImmText

  type Values = map<int, int>

  datatype ArchPair = AArch64ToX86 | X86ToAArch64 | OtherPair

  datatype Role = Standalone | BaseRole | IndexRole | ScaleRole | ShiftRole | DisplacementRole

  /** `text` prints an operand; two operands are compared by their texts. */
  datatype Context = Context(guest: seq<Instruction>, host: seq<Instruction>, pair: ArchPair, values: Values,
      text: Operand -> string)

  // ---- concrete values ----

  function Magnitude(a: int): nat { if a < 0 then -a else a }

  /** Bitwise or of integers of any size and sign, a negative one having ones without end. */
  function OrInt(a: int, b: int): int
    decreases Magnitude(a)
  {
    if a == 0 || b == -1 then b else if b == 0 || a == -1 then a
    else 2 * OrInt(a / 2, b / 2) + Bit(BitOrKind, a % 2, b % 2)
  }

  lemma {:induction false} BitsOfConstant(k: nat)
    ensures BitAt(0, k) == 0 && BitAt(-1, k) == 1
  {
    if k > 0 { BitsOfConstant(k - 1); }
  }

  /** Each bit of the result is the or of the bits at its place. */
  lemma {:induction false} OrIntBits(a: int, b: int, k: nat)
    ensures BitAt(OrInt(a, b), k) == Bit(BitOrKind, BitAt(a, k), BitAt(b, k))
    decreases k
  {
    BitsOfConstant(k);
    BitAtIsBit(a, k);
    BitAtIsBit(b, k);
    if a != 0 && a != -1 && b != 0 && b != -1 {
      var low := Bit(BitOrKind, a % 2, b % 2);
      assert OrInt(a, b) / 2 == OrInt(a / 2, b / 2) && OrInt(a, b) % 2 == low;
      if k > 0 { OrIntBits(a / 2, b / 2, k - 1); }
    }
  }

  /** The number an expression stands for; None where Python raises. */
  function Value(e: ImmExpr, values: Values): Option<int> {
    match e
    case ImmRef(id) => if id in values then Some(values[id]) else None
    case IntLit(v) => Some(v)
    case Neg(a) => if Value(a, values).None? then None else Some(-Value(a, values).value)
    case BitOr(l, r) =>
      var x, y := Value(l, values), Value(r, values);
      if x.None? || y.None? then None else Some(OrInt(x.value, y.value))
    case ShiftLeft(l, r) =>
      var x, y := Value(l, values), Value(r, values);
      if x.None? || y.None? || y.value < 0 then None else Some(x.value * Pow2(y.value))
    case Log2(a) => if Value(a, values).None? then None else Some(FloorLog2(Value(a, values).value))
    case RawImm(_) => None
  }

  function ImmValue(op: Operand, values: Values): Option<int>
    requires op.ImmOp?
  {
    var v := if op.derived.Some? then Value(op.derived.value, values) else Value(ImmRef(op.id), values);
    if v.Some? && op.neg then Some(-v.value) else v
  }

  /** A mnemonic as the strategies compare it. */
  function Name(mnemonic: string): string { Lower(Strip(mnemonic)) }

  lemma {:induction false} LogOfPower(n: nat)
    ensures BitLength(Pow2(n)) == n + 1 && FloorLog2(Pow2(n)) == n
  {
    if n > 0 {
      LogOfPower(n - 1);
      assert Pow2(n) / 2 == Pow2(n - 1);
    } else {
      assert BitLength(1) == 1 + BitLength(0);
    }
  }

  // ---- immediates of instructions ----

  function IdsIn(ks: seq<Key>): set<int> { set i | 0 <= i < |ks| && ks[i].space.Imm? :: ks[i].id }

  function IdsOf(insts: seq<Instruction>): set<int> { IdsIn(KeysInsts(insts)) }

  lemma IdsConcat(a: seq<Key>, b: seq<Key>)
    ensures IdsIn(a + b) == IdsIn(a) + IdsIn(b)
  {
    var c := a + b;
    forall id ensures id in IdsIn(c) <==> id in IdsIn(a) + IdsIn(b) {
      if id in IdsIn(a) { var i :| 0 <= i < |a| && a[i].space.Imm? && a[i].id == id; assert c[i] == a[i]; }
      if id in IdsIn(b) { var i :| 0 <= i < |b| && b[i].space.Imm? && b[i].id == id; assert c[|a| + i] == b[i]; }
    }
  }

  lemma {:induction false} OpIdsIn(ops: seq<Operand>, k: nat)
    requires k < |ops|
    ensures IdsIn(KeysOp(ops[k])) <= IdsIn(KeysOps(ops))
    decreases |ops|
  {
    IdsConcat(KeysOp(ops[0]), KeysOps(ops[1..]));
    if k > 0 { OpIdsIn(ops[1..], k - 1); }
  }

  lemma {:induction false} InstIdsIn(insts: seq<Instruction>, i: nat, k: nat)
    requires i < |insts| && k < |insts[i].operands|
    ensures IdsIn(KeysOp(insts[i].operands[k])) <= IdsOf(insts)
    decreases |insts|
  {
    IdsConcat(KeysInst(insts[0]), KeysInsts(insts[1..]));
    if i > 0 { InstIdsIn(insts[1..], i - 1, k); } else {
      var inst := insts[0];
      OpIdsIn(inst.operands, k);
      IdsConcat(KeysMetas(inst.meta) + KeysOps(inst.operands), KeysMetas(inst.postMeta));
      IdsConcat(KeysMetas(inst.meta), KeysOps(inst.operands));
    }
  }

  // ---- strategies ----

  /** A printable expression over guest immediates worth `target`. */
  ghost predicate Worth(c: Context, e: ImmExpr, target: int) {
    Printable(e) && !e.Neg? && Value(e, c.values) == Some(target) && IdsIn(KeysExpr(e)) <= IdsOf(c.guest)
  }

  ghost predicate Derives(c: Context, t: string, target: int) { exists e :: t == Print(e) && Worth(c, e, target) }

  predicate PlainImm(op: Operand) { op.ImmOp? && op.id != 0 }

  lemma PlainImmId(c: Context, i: nat, k: nat)
    requires i < |c.guest| && k < |c.guest[i].operands| && PlainImm(c.guest[i].operands[k])
    requires ValidOp(c.guest[i].operands[k])
    ensures c.guest[i].operands[k].id in IdsOf(c.guest)
  {
    InstIdsIn(c.guest, i, k);
    assert KeysOp(c.guest[i].operands[k])[0] == ImmKey(c.guest[i].operands[k].id);
  }

  /** `1 << id` */
  lemma PowerDerives(c: Context, id: int, target: int)
    requires id >= 0 && id in c.values && c.values[id] >= 0 && Pow2(c.values[id]) == target && id in IdsOf(c.guest)
    ensures Derives(c, Print(ShiftLeft(IntLit(1), ImmRef(id))), target)
  {
    var e := ShiftLeft(IntLit(1), ImmRef(id));
    assert Printable(IntLit(1)) && Printable(ImmRef(id)) && NoShift(ImmRef(id));
    assert KeysExpr(IntLit(1)) == [] && KeysExpr(ImmRef(id)) == [ImmKey(id)] && KeysExpr(e) == [ImmKey(id)];
    assert Value(IntLit(1), c.values) == Some(1) && Value(ImmRef(id), c.values) == Some(c.values[id]);
    assert Worth(c, e, target);
  }

  lemma OneDerives(c: Context)
    ensures Derives(c, Print(ShiftLeft(IntLit(1), IntLit(0))), 1)
  {
    var e := ShiftLeft(IntLit(1), IntLit(0));
    assert Printable(IntLit(1)) && Printable(IntLit(0)) && NoShift(IntLit(0));
    assert KeysExpr(IntLit(1)) == [] && KeysExpr(IntLit(0)) == [];
    assert Value(IntLit(1), c.values) == Some(1) && Value(IntLit(0), c.values) == Some(0);
    assert Worth(c, e, 1);
  }

  /** `1 << id` is `target`. */
  ghost predicate PowerOf(c: Context, id: int, target: int) {
    id in c.values && c.values[id] >= 0 && Pow2(c.values[id]) == target
  }

  /** Python's shifts raise on a negative count. */
  ghost predicate Counts(c: Context, id: int) { id in c.values ==> c.values[id] >= 0 }

  ghost predicate IsBitTest(inst: Instruction) {
    (Name(inst.mnemonic) == "tbz" || Name(inst.mnemonic) == "tbnz") && |inst.operands| >= 2
  }

  /** The guest bit positions are not negative. */
  ghost predicate BitPositionsCount(c: Context) {
    forall i :: 0 <= i < |c.guest| && IsBitTest(c.guest[i]) && PlainImm(c.guest[i].operands[1]) ==>
      Counts(c, c.guest[i].operands[1].id)
  }

  /** A guest bit test whose mask is `target`. */
  ghost predicate TestsBit(c: Context, inst: Instruction, target: int) {
    && IsBitTest(inst)
    && var op := inst.operands[1];
       if PlainImm(op) then PowerOf(c, op.id, target)
       else op.LitOp? && (op.text == "0" || op.text == "#0") && target == 1
  }

  method DeriveTbzMask(c: Context, target: int, mnemonic: string) returns (r: Option<string>)
    requires Good(c.guest) && (Name(mnemonic) == "and" ==> BitPositionsCount(c))
    ensures r.Some? ==> Derives(c, r.value, target)
    ensures r.Some? <==> Name(mnemonic) == "and" && exists i :: 0 <= i < |c.guest| && TestsBit(c, c.guest[i], target)
  {
    if Name(mnemonic) != "and" { return None; }
    for i := 0 to |c.guest|
      invariant forall k :: 0 <= k < i ==> !TestsBit(c, c.guest[k], target)
    {
      var inst := c.guest[i];
      if (Name(inst.mnemonic) != "tbz" && Name(inst.mnemonic) != "tbnz") || |inst.operands| < 2 { continue; }
      var op := inst.operands[1];
      if PlainImm(op) {
        if op.id in c.values && Pow2(c.values[op.id]) == target {
          PlainImmId(c, i, 1);
          PowerDerives(c, op.id, target);
          return Some(Print(ShiftLeft(IntLit(1), ImmRef(op.id))));
        }
      } else if op.LitOp? && (op.text == "0" || op.text == "#0") {
        if target == 1 {
          OneDerives(c);
          return Some(Print(ShiftLeft(IntLit(1), IntLit(0))));
        }
      }
    }
    r := None;
  }

  /** Operands as their constructors build them, with positive immediate ids. */
  ghost predicate Good(insts: seq<Instruction>) {
    ValidInsts(insts) && forall id :: id in IdsOf(insts) ==> id >= 0
  }

  /** A guest move and a move-keep into one register. */
  ghost predicate Pair(c: Context, mov: Instruction, movk: Instruction) {
    && Name(mov.mnemonic) == "mov" && |mov.operands| >= 2 && PlainImm(mov.operands[1])
    && Name(movk.mnemonic) == "movk" && |movk.operands| >= 3 && PlainImm(movk.operands[1]) && PlainImm(movk.operands[2])
    && c.text(mov.operands[0]) == c.text(movk.operands[0])
    && mov.operands[1].id in c.values && movk.operands[1].id in c.values && movk.operands[2].id in c.values
  }

  ghost predicate KeepShiftsCount(c: Context) {
    forall i, j :: 0 <= i < |c.guest| && 0 <= j < |c.guest| && Pair(c, c.guest[i], c.guest[j]) ==>
      c.values[c.guest[j].operands[2].id] >= 0
  }

  /** A pair that builds `target`. */
  ghost predicate Builds(c: Context, mov: Instruction, movk: Instruction, target: int) {
    && Pair(c, mov, movk)
    && var low, high, shift := c.values[mov.operands[1].id], c.values[movk.operands[1].id],
       c.values[movk.operands[2].id];
       shift >= 0 && OrInt(high * Pow2(shift), low) == target
  }

  method DeriveMovkConstant(c: Context, target: int, mnemonic: string) returns (r: Option<string>)
    requires Good(c.guest) && (Name(mnemonic) in {"mov", "movabs"} ==> KeepShiftsCount(c))
    ensures r.Some? ==> Derives(c, r.value, target)
    ensures r.Some? <==> (Name(mnemonic) in {"mov", "movabs"}
                          && exists i :: 0 <= i < |c.guest| && BuiltFrom(c, i, target))
  {
    if Name(mnemonic) != "mov" && Name(mnemonic) != "movabs" { return None; }
    for i := 0 to |c.guest|
      invariant forall k :: 0 <= k < i ==> !BuiltFrom(c, k, target)
    {
      r := TryMovks(c, i, target);
      if r.Some? { return; }
    }
    r := None;
  }

  /** Some move-keep completes the move at `i` to `target`. */
  ghost predicate BuiltFrom(c: Context, i: nat, target: int)
    requires i < |c.guest|
  {
    exists j :: 0 <= j < |c.guest| && Builds(c, c.guest[i], c.guest[j], target)
  }

  /** The move at `i` with every move-keep. */
  method TryMovks(c: Context, i: nat, target: int) returns (r: Option<string>)
    requires Good(c.guest) && KeepShiftsCount(c) && i < |c.guest|
    ensures r.Some? ==> Derives(c, r.value, target)
    ensures r.Some? <==> BuiltFrom(c, i, target)
  {
    var mov := c.guest[i];
    if Name(mov.mnemonic) != "mov" || |mov.operands| < 2 || !PlainImm(mov.operands[1]) { return None; }
    for j := 0 to |c.guest|
      invariant forall k :: 0 <= k < j ==> !Builds(c, mov, c.guest[k], target)
    {
      var movk := c.guest[j];
      if Name(movk.mnemonic) != "movk" || |movk.operands| < 3 || !PlainImm(movk.operands[1])
         || !PlainImm(movk.operands[2]) {
        continue;
      }
      if c.text(mov.operands[0]) != c.text(movk.operands[0]) { continue; }
      var low, high, shift := mov.operands[1].id, movk.operands[1].id, movk.operands[2].id;
      if low in c.values && high in c.values && shift in c.values {
        assert Pair(c, mov, movk);
        if OrInt(c.values[high] * Pow2(c.values[shift]), c.values[low]) == target {
          PairIds(c, i, j);
          ConstantDerives(c, low, high, shift, target);
          return Some(Print(BitOr(ShiftLeft(ImmRef(high), ImmRef(shift)), ImmRef(low))));
        }
      }
    }
    r := None;
  }

  lemma PairIds(c: Context, i: nat, j: nat)
    requires Good(c.guest) && i < |c.guest| && j < |c.guest| && Pair(c, c.guest[i], c.guest[j])
    ensures var ids := {c.guest[i].operands[1].id, c.guest[j].operands[1].id, c.guest[j].operands[2].id};
            ids <= IdsOf(c.guest) && forall id :: id in ids ==> id >= 0
  {
    PlainImmId(c, i, 1);
    PlainImmId(c, j, 1);
    PlainImmId(c, j, 2);
  }

  lemma ConstantDerives(c: Context, low: int, high: int, shift: int, target: int)
    requires {low, high, shift} <= IdsOf(c.guest) && low >= 0 && high >= 0 && shift >= 0
    requires low in c.values && high in c.values && shift in c.values && c.values[shift] >= 0
    requires OrInt(c.values[high] * Pow2(c.values[shift]), c.values[low]) == target
    ensures Derives(c, Print(BitOr(ShiftLeft(ImmRef(high), ImmRef(shift)), ImmRef(low))), target)
  {
    var a := ShiftLeft(ImmRef(high), ImmRef(shift));
    RefWorth(c, low);
    RefWorth(c, high);
    RefWorth(c, shift);
    ShiftWorth(c, high, shift);
    BitOrWorth(c, a, ImmRef(low), c.values[high] * Pow2(c.values[shift]), c.values[low]);
  }

  lemma RefWorth(c: Context, id: int)
    requires id >= 0 && id in c.values && id in IdsOf(c.guest)
    ensures Worth(c, ImmRef(id), c.values[id])
  {
    assert KeysExpr(ImmRef(id)) == [ImmKey(id)];
  }

  lemma ShiftWorth(c: Context, high: int, shift: int)
    requires high in c.values && shift in c.values && c.values[shift] >= 0
    requires Worth(c, ImmRef(high), c.values[high]) && Worth(c, ImmRef(shift), c.values[shift])
    ensures Worth(c, ShiftLeft(ImmRef(high), ImmRef(shift)), c.values[high] * Pow2(c.values[shift]))
  {
    IdsConcat(KeysExpr(ImmRef(high)), KeysExpr(ImmRef(shift)));
  }

  lemma BitOrWorth(c: Context, l: ImmExpr, r: ImmExpr, x: int, y: int)
    requires Worth(c, l, x) && Worth(c, r, y) && !l.BitOr?
    ensures Worth(c, BitOr(l, r), OrInt(x, y))
  {
    IdsConcat(KeysExpr(l), KeysExpr(r));
  }

  /** The immediate used as an index scale or shift of a guest memory operand. */
  function AddressImm(op: Operand, role: Role): Option<int> {
    if !op.MemoryOp? then None else
    var part := if role == ShiftRole then op.address.shift else op.address.scale;
    if part.Some? && PlainImm(part.value) then Some(part.value.id) else None
  }

  lemma AddressImmId(c: Context, i: nat, k: nat, role: Role)
    requires i < |c.guest| && k < |c.guest[i].operands| && ValidOp(c.guest[i].operands[k])
    requires AddressImm(c.guest[i].operands[k], role).Some?
    ensures AddressImm(c.guest[i].operands[k], role).value in IdsOf(c.guest)
  {
    var op := c.guest[i].operands[k];
    var a, id := op.address, AddressImm(op, role).value;
    InstIdsIn(c.guest, i, k);
    AddressIds(a);
    var part := if role == ShiftRole then a.shift else a.scale;
    assert ValidOpt(a.shift) && ValidOpt(a.scale) && ValidOp(part.value);
    assert KeysOpt(part)[0] == ImmKey(id);
  }

  lemma AddressIds(a: Address)
    ensures IdsIn(KeysAddress(a)) == IdsIn(KeysOpt(a.base)) + IdsIn(KeysOpt(a.index)) + IdsIn(KeysOpt(a.scale))
            + IdsIn(KeysOpt(a.shift)) + IdsIn(KeysOpt(a.displacement))
  {
    var one, two := KeysOpt(a.base), KeysOpt(a.index);
    var three, four, five := KeysOpt(a.scale), KeysOpt(a.shift), KeysOpt(a.displacement);
    IdsConcat(one, two);
    IdsConcat(one + two, three);
    IdsConcat(one + two + three, four);
    IdsConcat(one + two + three + four, five);
  }

  /** A guest memory operand whose index shift scales by `target`. */
  ghost predicate ShiftsTo(c: Context, op: Operand, target: int) {
    AddressImm(op, ShiftRole).Some? && PowerOf(c, AddressImm(op, ShiftRole).value, target)
  }

  ghost predicate IndexShiftsCount(c: Context) {
    forall i, k |
      0 <= i < |c.guest| && 0 <= k < |c.guest[i].operands| && AddressImm(c.guest[i].operands[k], ShiftRole).Some? ::
      Counts(c, AddressImm(c.guest[i].operands[k], ShiftRole).value)
  }

  /** A host scale is one shifted by a guest index shift. */
  method DeriveIndexScale(c: Context, target: int, role: Role) returns (r: Option<string>)
    requires Good(c.guest) && (role == ScaleRole ==> IndexShiftsCount(c))
    ensures r.Some? ==> Derives(c, r.value, target)
    ensures r.Some? <==> role == ScaleRole &&
                         exists i, k :: 0 <= i < |c.guest| && 0 <= k < |c.guest[i].operands|
                             && ShiftsTo(c, c.guest[i].operands[k], target)
  {
    if role != ScaleRole { return None; }
    for i := 0 to |c.guest|
      invariant forall j, k :: 0 <= j < i && 0 <= k < |c.guest[j].operands| ==>
                !ShiftsTo(c, c.guest[j].operands[k], target)
    {
      for k := 0 to |c.guest[i].operands|
        invariant forall m :: 0 <= m < k ==> !ShiftsTo(c, c.guest[i].operands[m], target)
      {
        var id := AddressImm(c.guest[i].operands[k], ShiftRole);
        if id.Some? && id.value in c.values {
          if Pow2(c.values[id.value]) == target {
            AddressImmId(c, i, k, ShiftRole);
            PowerDerives(c, id.value, target);
            return Some(Print(ShiftLeft(IntLit(1), ImmRef(id.value))));
          }
        }
      }
    }
    r := None;
  }

  /** A guest memory operand whose scale is two to the `target`. */
  ghost predicate ScalesTo(c: Context, op: Operand, target: int) {
    AddressImm(op, ScaleRole).Some? && AddressImm(op, ScaleRole).value in c.values && target >= 0
        && Pow2(target) == c.values[AddressImm(op, ScaleRole).value]
  }

  /** A host index shift is the logarithm of a guest scale. */
  method DeriveReverseIndexScale(c: Context, target: int, role: Role) returns (r: Option<string>)
    requires Good(c.guest) && (role == ShiftRole ==> target >= 0)
    ensures r.Some? ==> Derives(c, r.value, target)
    ensures r.Some? <==> role == ShiftRole &&
                         exists i, k :: 0 <= i < |c.guest| && 0 <= k < |c.guest[i].operands|
                             && ScalesTo(c, c.guest[i].operands[k], target)
  {
    if role != ShiftRole { return None; }
    for i := 0 to |c.guest|
      invariant forall j, k :: 0 <= j < i && 0 <= k < |c.guest[j].operands| ==>
                !ScalesTo(c, c.guest[j].operands[k], target)
    {
      for k := 0 to |c.guest[i].operands|
        invariant forall m :: 0 <= m < k ==> !ScalesTo(c, c.guest[i].operands[m], target)
      {
        var id := AddressImm(c.guest[i].operands[k], ScaleRole);
        if id.Some? && id.value in c.values {
          if Pow2(target) == c.values[id.value] {
            AddressImmId(c, i, k, ScaleRole);
            LogDerives(c, id.value, target);
            return Some(Print(Log2(ImmRef(id.value))));
          }
        }
      }
    }
    r := None;
  }

  lemma LogDerives(c: Context, id: int, target: nat)
    requires id >= 0 && id in c.values && c.values[id] == Pow2(target) && id in IdsOf(c.guest)
    ensures Derives(c, Print(Log2(ImmRef(id))), target)
  {
    LogOfPower(target);
    var e := Log2(ImmRef(id));
    assert Printable(ImmRef(id)) && KeysExpr(ImmRef(id)) == [ImmKey(id)] && KeysExpr(e) == [ImmKey(id)];
    assert Value(ImmRef(id), c.values) == Some(Pow2(target));
    assert Worth(c, e, target);
  }

  /** Some strategy applies to an immediate at its place in a host instruction. */
  ghost predicate Derivable(c: Context, id: int, mnemonic: string, role: Role) {
    id in c.values &&
    var target := c.values[id];
    match c.pair
    case AArch64ToX86 =>
      || (Name(mnemonic) == "and" && exists i :: 0 <= i < |c.guest| && TestsBit(c, c.guest[i], target))
      || (Name(mnemonic) in {"mov", "movabs"} &&
          exists i :: 0 <= i < |c.guest| && BuiltFrom(c, i, target))
      || (role == ScaleRole &&
          exists i, k :: 0 <= i < |c.guest| && 0 <= k < |c.guest[i].operands|
              && ShiftsTo(c, c.guest[i].operands[k], target))
    case X86ToAArch64 =>
      role == ShiftRole &&
      exists i, k :: 0 <= i < |c.guest| && 0 <= k < |c.guest[i].operands| && ScalesTo(c, c.guest[i].operands[k], target)
    case OtherPair => false
  }

  /** No shift the strategies may evaluate for an immediate has a negative count. */
  ghost predicate ShiftsCount(c: Context, id: int, mnemonic: string, role: Role) {
    id in c.values ==>
      match c.pair
      case AArch64ToX86 =>
        && (Name(mnemonic) == "and" ==> BitPositionsCount(c))
        && (Name(mnemonic) in {"mov", "movabs"} ==> KeepShiftsCount(c))
        && (role == ScaleRole ==> IndexShiftsCount(c))
      case X86ToAArch64 => role == ShiftRole ==> c.values[id] >= 0
      case OtherPair => true
  }

  method TryStrategies(c: Context, id: int, mnemonic: string, role: Role) returns (r: Option<string>)
    requires Good(c.guest) && ShiftsCount(c, id, mnemonic, role)
    ensures r.Some? ==> id in c.values && Derives(c, r.value, c.values[id])
    ensures r.Some? <==> Derivable(c, id, mnemonic, role)
  {
    r := None;
    if id !in c.values { return; }
    match c.pair
    case AArch64ToX86 =>
      r := DeriveTbzMask(c, c.values[id], mnemonic);
      if r.None? { r := DeriveMovkConstant(c, c.values[id], mnemonic); }
      if r.None? { r := DeriveIndexScale(c, c.values[id], role); }
    case X86ToAArch64 => r := DeriveReverseIndexScale(c, c.values[id], role);
    case OtherPair =>
  }

  // ---- rewriting the host ----

  /** The derived operand, as its constructor builds it from text: a negative sign moves into the expression. */
  function DerivedOp(op: Operand, t: string): Option<Operand>
    requires op.ImmOp?
  {
    var e := Parse("${" + t + "}");
    if e.None? then None
    else Some(ImmOp(0, Some(if op.neg && !e.value.Neg? then Neg(e.value) else e.value), op.hash, false))
  }

  /** The same operand up to the way its immediates are written. */
  ghost predicate SameMeaning(a: Operand, b: Operand, values: Values) {
    a == b ||
    (a.ImmOp? && b.ImmOp? && a.hash == b.hash && ImmValue(a, values).Some?
        && ImmValue(b, values) == ImmValue(a, values)) ||
    (a.MemoryOp? && b.MemoryOp? && b == a.(address := b.address) && SameAddress(a.address, b.address, values))
  }

  ghost predicate SamePart(a: Option<Operand>, b: Option<Operand>, values: Values) {
    a == b || (a.Some? && b.Some? && a.value.ImmOp? && b.value.ImmOp? && a.value.hash == b.value.hash
               && ImmValue(a.value, values).Some? && ImmValue(b.value, values) == ImmValue(a.value, values))
  }

  ghost predicate SameAddress(a: Address, b: Address, values: Values) {
    && SamePart(a.base, b.base, values) && SamePart(a.index, b.index, values) && SamePart(a.scale, b.scale, values)
    && SamePart(a.shift, b.shift, values) && SamePart(a.displacement, b.displacement, values)
       && a.writeback == b.writeback
  }

  lemma DerivedIs(op: Operand, t: string, e: ImmExpr)
    requires op.ImmOp? && Printable(e) && !e.Neg? && t == Print(e)
    ensures DerivedOp(op, t) == Some(ImmOp(0, Some(if op.neg then Neg(e) else e), op.hash, false))
  {
    WrappedReadsBack(e);
  }

  lemma DerivedKeepsValue(c: Context, op: Operand, t: string)
    requires op.ImmOp? && ValidOp(op) && op.id != 0 && op.id in c.values && Derives(c, t, c.values[op.id])
    ensures var d := DerivedOp(op, t);
            && d.Some? && d.value.ImmOp? && ValidOp(d.value) && d.value.hash == op.hash
            && ImmValue(op, c.values).Some? && ImmValue(d.value, c.values) == ImmValue(op, c.values)
            && IdsIn(KeysOp(d.value)) <= IdsOf(c.guest)
  {
    var e :| t == Print(e) && Worth(c, e, c.values[op.id]);
    DerivedIs(op, t, e);
    SignWorth(c, op, e);
  }

  lemma SignWorth(c: Context, op: Operand, e: ImmExpr)
    requires op.ImmOp? && ValidOp(op) && op.id != 0 && op.id in c.values && Worth(c, e, c.values[op.id])
    ensures var d := ImmOp(0, Some(if op.neg then Neg(e) else e), op.hash, false);
            && ImmValue(op, c.values).Some? && ImmValue(d, c.values) == ImmValue(op, c.values)
               && KeysOp(d) == KeysExpr(e)
  {}

  /** An immediate is replaced exactly where it is host-only and a strategy applies. */
  ghost predicate RewrittenPart(c: Context, hostOnly: set<int>, a: Option<Operand>, b: Option<Operand>,
      mnemonic: string, role: Role)
  {
    if a.Some? && a.value.ImmOp? && a.value.id in hostOnly && Derivable(c, a.value.id, mnemonic, role)
    then b.Some? && b.value.ImmOp? && b.value.derived.Some?
    else b == a
  }

  ghost predicate RewrittenAddress(c: Context, hostOnly: set<int>, a: Address, b: Address, mnemonic: string) {
    && RewrittenPart(c, hostOnly, a.base, b.base, mnemonic, BaseRole)
    && RewrittenPart(c, hostOnly, a.index, b.index, mnemonic, IndexRole)
    && RewrittenPart(c, hostOnly, a.scale, b.scale, mnemonic, ScaleRole)
    && RewrittenPart(c, hostOnly, a.shift, b.shift, mnemonic, ShiftRole)
    && RewrittenPart(c, hostOnly, a.displacement, b.displacement, mnemonic, DisplacementRole)
  }

  ghost predicate RewrittenOp(c: Context, hostOnly: set<int>, a: Operand, b: Operand, mnemonic: string) {
    if a.ImmOp? then RewrittenPart(c, hostOnly, Some(a), Some(b), mnemonic, Standalone)
    else if a.MemoryOp? then
      b.MemoryOp? && b == a.(address := b.address) && RewrittenAddress(c, hostOnly, a.address, b.address, mnemonic)
    else b == a
  }

  method DeriveImm(c: Context, hostOnly: set<int>, op: Operand, mnemonic: string, role: Role) returns (r: Operand)
    requires Good(c.guest) && op.ImmOp? && ValidOp(op) && 0 !in hostOnly
    requires op.id in hostOnly ==> ShiftsCount(c, op.id, mnemonic, role)
    ensures SamePart(Some(op), Some(r), c.values) && r.ImmOp? && ValidOp(r)
    ensures if op.id in hostOnly && Derivable(c, op.id, mnemonic, role)
            then r.derived.Some? && IdsIn(KeysOp(r)) <= IdsOf(c.guest) else r == op
  {
    r := op;
    if op.id !in hostOnly { return; }
    var t := TryStrategies(c, op.id, mnemonic, role);
    if t.Some? {
      DerivedKeepsValue(c, op, t.value);
      r := DerivedOp(op, t.value).value;
    }
  }

  ghost predicate PartCounts(c: Context, hostOnly: set<int>, part: Option<Operand>, mnemonic: string, role: Role) {
    part.Some? && part.value.ImmOp? && part.value.id in hostOnly ==> ShiftsCount(c, part.value.id, mnemonic, role)
  }

  ghost predicate AddressCounts(c: Context, hostOnly: set<int>, a: Address, mnemonic: string) {
    && PartCounts(c, hostOnly, a.base, mnemonic, BaseRole) && PartCounts(c, hostOnly, a.index, mnemonic, IndexRole)
    && PartCounts(c, hostOnly, a.scale, mnemonic, ScaleRole) && PartCounts(c, hostOnly, a.shift, mnemonic, ShiftRole)
    && PartCounts(c, hostOnly, a.displacement, mnemonic, DisplacementRole)
  }

  ghost predicate OperandCounts(c: Context, hostOnly: set<int>, op: Operand, mnemonic: string) {
    if op.MemoryOp? then AddressCounts(c, hostOnly, op.address, mnemonic)
    else PartCounts(c, hostOnly, Some(op), mnemonic, Standalone)
  }

  ghost predicate InstCounts(c: Context, hostOnly: set<int>, inst: Instruction) {
    forall k :: 0 <= k < |inst.operands| ==> OperandCounts(c, hostOnly, inst.operands[k], inst.mnemonic)
  }

  method DerivePart(c: Context, hostOnly: set<int>, part: Option<Operand>, mnemonic: string, role: Role)
    returns (r: Option<Operand>)
    requires Good(c.guest) && ValidOpt(part) && 0 !in hostOnly && PartCounts(c, hostOnly, part, mnemonic, role)
    ensures SamePart(part, r, c.values) && ValidOpt(r) && RewrittenPart(c, hostOnly, part, r, mnemonic, role)
    ensures IdsIn(KeysOpt(r)) <= IdsIn(KeysOpt(part)) + IdsOf(c.guest)
  {
    if part.None? || !part.value.ImmOp? { return part; }
    var op := DeriveImm(c, hostOnly, part.value, mnemonic, role);
    r := Some(op);
  }

  ghost predicate ValidParts(a: Address) {
    ValidOpt(a.base) && ValidOpt(a.index) && ValidOpt(a.scale) && ValidOpt(a.shift) && ValidOpt(a.displacement)
  }

  method DeriveAddress(c: Context, hostOnly: set<int>, a: Address, mnemonic: string) returns (b: Address)
    requires Good(c.guest) && ValidParts(a) && 0 !in hostOnly && AddressCounts(c, hostOnly, a, mnemonic)
    ensures SameAddress(a, b, c.values) && ValidParts(b) && RewrittenAddress(c, hostOnly, a, b, mnemonic)
    ensures IdsIn(KeysAddress(b)) <= IdsIn(KeysAddress(a)) + IdsOf(c.guest)
  {
    var base := DerivePart(c, hostOnly, a.base, mnemonic, BaseRole);
    var index := DerivePart(c, hostOnly, a.index, mnemonic, IndexRole);
    var scale := DerivePart(c, hostOnly, a.scale, mnemonic, ScaleRole);
    var shift := DerivePart(c, hostOnly, a.shift, mnemonic, ShiftRole);
    var displacement := DerivePart(c, hostOnly, a.displacement, mnemonic, DisplacementRole);
    b := Address(base, index, scale, shift, displacement, a.writeback);
    AddressIds(a);
    AddressIds(b);
  }

  method DeriveOperand(c: Context, hostOnly: set<int>, op: Operand, mnemonic: string) returns (r: Operand)
    requires Good(c.guest) && ValidOp(op) && 0 !in hostOnly && OperandCounts(c, hostOnly, op, mnemonic)
    ensures SameMeaning(op, r, c.values) && ValidOp(r) && RewrittenOp(c, hostOnly, op, r, mnemonic)
    ensures IdsIn(KeysOp(r)) <= IdsIn(KeysOp(op)) + IdsOf(c.guest)
  {
    match op
    case ImmOp(_, _, _, _) => r := DeriveImm(c, hostOnly, op, mnemonic, Standalone);
    case MemoryOp(a, _, _, _) =>
      var b := DeriveAddress(c, hostOnly, a, mnemonic);
      r := op.(address := b);
    case _ => r := op;
  }

  /** Instruction `b` is `a` with some immediates rewritten, each worth what it was. */
  ghost predicate SameInst(a: Instruction, b: Instruction, values: Values) {
    && a.mnemonic == b.mnemonic && a.meta == b.meta && a.postMeta == b.postMeta && |a.operands| == |b.operands|
    && forall k :: 0 <= k < |a.operands| ==> SameMeaning(a.operands[k], b.operands[k], values)
  }

  ghost predicate RewrittenInst(c: Context, hostOnly: set<int>, a: Instruction, b: Instruction) {
    |a.operands| == |b.operands| && forall k :: 0 <= k < |a.operands| ==>
        RewrittenOp(c, hostOnly, a.operands[k], b.operands[k], a.mnemonic)
  }

  ghost predicate SameInsts(a: seq<Instruction>, b: seq<Instruction>, values: Values) {
    |a| == |b| && forall i :: 0 <= i < |a| ==> SameInst(a[i], b[i], values)
  }

  lemma {:induction false} OpsIdsFrom(a: seq<Operand>, b: seq<Operand>, extra: set<int>)
    requires |a| == |b| && forall k :: 0 <= k < |a| ==> IdsIn(KeysOp(b[k])) <= IdsIn(KeysOp(a[k])) + extra
    ensures IdsIn(KeysOps(b)) <= IdsIn(KeysOps(a)) + extra
    decreases |a|
  {
    if a != [] {
      OpsIdsFrom(a[1..], b[1..], extra);
      IdsConcat(KeysOp(a[0]), KeysOps(a[1..]));
      IdsConcat(KeysOp(b[0]), KeysOps(b[1..]));
    }
  }

  lemma InstIds(i: Instruction)
    ensures IdsIn(KeysInst(i)) == IdsIn(KeysMetas(i.meta)) + IdsIn(KeysOps(i.operands)) + IdsIn(KeysMetas(i.postMeta))
  {
    IdsConcat(KeysMetas(i.meta) + KeysOps(i.operands), KeysMetas(i.postMeta));
    IdsConcat(KeysMetas(i.meta), KeysOps(i.operands));
  }

  lemma {:induction false} InstsSnocIds(insts: seq<Instruction>, i: Instruction)
    ensures IdsOf(insts + [i]) == IdsOf(insts) + IdsIn(KeysInst(i))
    decreases |insts|
  {
    var all := insts + [i];
    IdsConcat(KeysInst(all[0]), KeysInsts(all[1..]));
    if insts == [] {
      assert all[1..] == [];
    } else {
      assert all[1..] == insts[1..] + [i];
      InstsSnocIds(insts[1..], i);
      IdsConcat(KeysInst(insts[0]), KeysInsts(insts[1..]));
    }
  }

  /** One operand done: same meaning, rewritten where possible, guest immediates only. */
  ghost predicate OperandDone(c: Context, hostOnly: set<int>, a: Operand, b: Operand, mnemonic: string) {
    SameMeaning(a, b, c.values) && RewrittenOp(c, hostOnly, a, b, mnemonic)
        && IdsIn(KeysOp(b)) <= IdsIn(KeysOp(a)) + IdsOf(c.guest)
  }

  ghost predicate OperandsDone(c: Context, hostOnly: set<int>, a: seq<Operand>, b: seq<Operand>, mnemonic: string) {
    |b| <= |a| && forall k :: 0 <= k < |b| ==> OperandDone(c, hostOnly, a[k], b[k], mnemonic)
  }

  lemma OneMoreDone(c: Context, hostOnly: set<int>, a: seq<Operand>, b: seq<Operand>, op: Operand, mnemonic: string)
    requires OperandsDone(c, hostOnly, a, b, mnemonic) && |b| < |a| && OperandDone(c, hostOnly, a[|b|], op, mnemonic)
    ensures OperandsDone(c, hostOnly, a, b + [op], mnemonic)
  {}

  lemma AllDone(c: Context, hostOnly: set<int>, inst: Instruction, operands: seq<Operand>)
    requires OperandsDone(c, hostOnly, inst.operands, operands, inst.mnemonic) && |operands| == |inst.operands|
    ensures var r := inst.(operands := operands);
            RewrittenInst(c, hostOnly, inst, r) && SameInst(inst, r, c.values)
                && IdsIn(KeysInst(r)) <= IdsIn(KeysInst(inst)) + IdsOf(c.guest)
  {
    forall k | 0 <= k < |operands|
      ensures SameMeaning(inst.operands[k], operands[k], c.values)
      ensures RewrittenOp(c, hostOnly, inst.operands[k], operands[k], inst.mnemonic)
      ensures IdsIn(KeysOp(operands[k])) <= IdsIn(KeysOp(inst.operands[k])) + IdsOf(c.guest)
    {
      assert OperandDone(c, hostOnly, inst.operands[k], operands[k], inst.mnemonic);
    }
    OpsIdsFrom(inst.operands, operands, IdsOf(c.guest));
    InstIds(inst);
    InstIds(inst.(operands := operands));
  }

  method DeriveInstruction(c: Context, hostOnly: set<int>, inst: Instruction) returns (r: Instruction)
    requires Good(c.guest) && ValidInst(inst) && 0 !in hostOnly && InstCounts(c, hostOnly, inst)
    ensures RewrittenInst(c, hostOnly, inst, r)
    ensures SameInst(inst, r, c.values) && IdsIn(KeysInst(r)) <= IdsIn(KeysInst(inst)) + IdsOf(c.guest)
  {
    var operands: seq<Operand> := [];
    for k := 0 to |inst.operands|
      invariant |operands| == k && OperandsDone(c, hostOnly, inst.operands, operands, inst.mnemonic)
    {
      var op := DeriveOperand(c, hostOnly, inst.operands[k], inst.mnemonic);
      OneMoreDone(c, hostOnly, inst.operands, operands, op, inst.mnemonic);
      operands := operands + [op];
    }
    AllDone(c, hostOnly, inst, operands);
    r := inst.(operands := operands);
  }

  /** The first `i` instructions of the host are rewritten. */
  ghost predicate HostDone(c: Context, hostOnly: set<int>, i: nat, host: seq<Instruction>)
    requires i <= |c.host|
  {
    && SameInsts(c.host[..i], host, c.values) && IdsOf(host) <= IdsOf(c.host[..i]) + IdsOf(c.guest)
    && forall j :: 0 <= j < i ==> RewrittenInst(c, hostOnly, c.host[j], host[j])
  }

  lemma OneMoreInst(c: Context, hostOnly: set<int>, i: nat, host: seq<Instruction>, inst: Instruction)
    requires i < |c.host| && HostDone(c, hostOnly, i, host) && RewrittenInst(c, hostOnly, c.host[i], inst)
    requires SameInst(c.host[i], inst, c.values) && IdsIn(KeysInst(inst)) <= IdsIn(KeysInst(c.host[i])) + IdsOf(c.guest)
    ensures HostDone(c, hostOnly, i + 1, host + [inst])
  {
    assert c.host[..i + 1] == c.host[..i] + [c.host[i]];
    AppendInst(c, c.host[..i], host, c.host[i], inst);
  }

  lemma SameInstsReflexive(insts: seq<Instruction>, values: Values)
    ensures SameInsts(insts, insts, values)
  {}

  /** Deriving keeps the meaning of every operand under the recorded values, and brings in guest immediates only. */
  method DeriveHostExpressions(c: Context) returns (host: seq<Instruction>)
    requires Good(c.guest) && Good(c.host) && 0 !in IdsOf(c.host)
    requires forall i :: 0 <= i < |c.host| ==> InstCounts(c, IdsOf(c.host) - IdsOf(c.guest), c.host[i])
    ensures SameInsts(c.host, host, c.values) && IdsOf(host) <= IdsOf(c.host) + IdsOf(c.guest)
    ensures !(IdsOf(c.host) <= IdsOf(c.guest)) ==> forall i :: 0 <= i < |c.host| ==>
              RewrittenInst(c, IdsOf(c.host) - IdsOf(c.guest), c.host[i], host[i])
    ensures IdsOf(c.host) <= IdsOf(c.guest) ==> host == c.host
  {
    var hostOnly := IdsOf(c.host) - IdsOf(c.guest);
    if hostOnly == {} {
      SameInstsReflexive(c.host, c.values);
      return c.host;
    }
    host := [];
    assert c.host[..0] == [];
    for i := 0 to |c.host|
      invariant HostDone(c, hostOnly, i, host)
    {
      var inst := DeriveInstruction(c, hostOnly, c.host[i]);
      OneMoreInst(c, hostOnly, i, host, inst);
      host := host + [inst];
    }
    assert c.host[..|c.host|] == c.host;
  }

  lemma AppendInst(c: Context, a: seq<Instruction>, b: seq<Instruction>, i: Instruction, j: Instruction)
    requires SameInsts(a, b, c.values) && IdsOf(b) <= IdsOf(a) + IdsOf(c.guest)
    requires SameInst(i, j, c.values) && IdsIn(KeysInst(j)) <= IdsIn(KeysInst(i)) + IdsOf(c.guest)
    ensures SameInsts(a + [i], b + [j], c.values) && IdsOf(b + [j]) <= IdsOf(a + [i]) + IdsOf(c.guest)
  {
    InstsSnocIds(a, i);
    InstsSnocIds(b, j);
  }
}
