/** Direct evaluation of a kernel schema, its lowering to LLVM instructions, and their agreement. */
module KernelLowering {
  import opened Wrappers
  import opened KernelSchema
  import opened Numerals
  import Bv = Semantics

  const M64: nat := 0x1_0000_0000_0000_0000

  function Modulus(t: Ty): (m: nat)
    ensures m > 0
  {
    match t
    case I1 => 2
    case I8 => 0x100
    case I16 => 0x1_0000
    case I32 => 0x1_0000_0000
    case I64 => M64
    case Ptr => M64
  }

  // ---- values and memory ----

  datatype Typed = Typed(ty: Ty, bits: nat)

  type Values = map<string, Typed>

  /** The byte at each address. */
  type Memory = nat -> nat

  function SignedOf(t: Ty, a: nat): int { if 2 * a >= Modulus(t) then a - Modulus(t) else a }

  function Reduce(t: Ty, v: int): nat { v % Modulus(t) }

  /** Division that rounds toward zero, as in LLVM. */
  function TruncDiv(a: int, b: int): int
    requires b != 0
  {
    if a >= 0 then a / b else -((-a) / b)
  }

  /** None where LLVM has undefined behaviour or poison. */
  function Apply(opcode: Opcode, t: Ty, a: nat, b: nat): Option<nat> {
    match opcode
    case Add => Some(Reduce(t, a + b))
    case Sub => Some(Reduce(t, a - b))
    case Mul => Some(Reduce(t, a * b))
    case UDiv => if b == 0 then None else Some(Reduce(t, a / b))
    case URem => if b == 0 then None else Some(Reduce(t, a % b))
    case SDiv =>
      var x, y := SignedOf(t, a), SignedOf(t, b);
      if y == 0 || (y == -1 && 2 * a == Modulus(t)) then None else Some(Reduce(t, TruncDiv(x, y)))
    case SRem =>
      var x, y := SignedOf(t, a), SignedOf(t, b);
      if y == 0 || (y == -1 && 2 * a == Modulus(t)) then None else Some(Reduce(t, x - TruncDiv(x, y) * y))
    case Shl => if b >= Bits(t) then None else Some(Reduce(t, a * Bv.Pow2(b)))
    case LShr => if b >= Bits(t) then None else Some(Reduce(t, a / Bv.Pow2(b)))
    case AShr => if b >= Bits(t) then None else Some(Reduce(t, SignedOf(t, a) / Bv.Pow2(b)))
    case And => Some(Reduce(t, Bv.Bitwise(Bv.BitAnd, a, b, Bits(t))))
    case Or => Some(Reduce(t, Bv.Bitwise(Bv.BitOrKind, a, b, Bits(t))))
    case Xor => Some(Reduce(t, Bv.Bitwise(Bv.BitXor, a, b, Bits(t))))
  }

  function Compare(p: Predicate, t: Ty, a: nat, b: nat): nat {
    var x, y := SignedOf(t, a), SignedOf(t, b);
    var holds := match p
      case Eq => a == b
      case Ne => a != b
      case Ugt => a > b
      case Uge => a >= b
      case Ult => a < b
      case Ule => a <= b
      case Sgt => x > y
      case Sge => x >= y
      case Slt => x < y
      case Sle => x <= y;
    if holds then 1 else 0
  }

  function Convert(c: CastOp, from: Ty, to: Ty, a: nat): nat {
    if c.SExt? then Reduce(to, SignedOf(from, a)) else Reduce(to, a)
  }

  /** Little-endian bytes; addresses wrap at 64 bits. */
  function ReadBytes(mem: Memory, addr: nat, n: nat): nat
    decreases n
  {
    if n == 0 then 0 else mem(addr % M64) % 256 + 256 * ReadBytes(mem, addr + 1, n - 1)
  }

  function WriteBytes(mem: Memory, addr: nat, n: nat, v: nat): Memory
    decreases n
  {
    if n == 0 then mem else
    WriteBytes((x: nat) => if x == addr % M64 then v % 256 else mem(x), addr + 1, n - 1, v / 256)
  }

  datatype Result = Ok(vals: Values, mem: Memory) | Stuck | Undefined

  // ---- direct evaluation of the schema ----

  function OperandValue(o: Operand, t: Ty, vals: Values): Option<nat> {
    match o
    case Ref(n) => if n in vals && vals[n].ty == t then Some(vals[n].bits) else None
    case Const(c) => Some(Reduce(t, c))
  }

  function TypeOf(o: Operand, vals: Values): Option<Ty> {
    if o.Ref? && o.name in vals then Some(vals[o.name].ty) else None
  }

  /** Base plus scaled index plus displacement, modulo 2^64. */
  function AddressValue(a: AddressSpec, vals: Values): Option<nat> {
    if a.base !in vals || vals[a.base].ty != Ptr then None
    else if a.index.None? then Some((vals[a.base].bits + a.displacement) % M64)
    else if a.index.value !in vals || vals[a.index.value].ty != I64 then None
    else Some((vals[a.base].bits + vals[a.index.value].bits * a.scale + a.displacement) % M64)
  }

  function Bind(vals: Values, mem: Memory, r: Value, bits: nat): Result { Ok(vals[r.name := Typed(r.ty, bits)], mem) }

  function EvalOp(op: Operation, vals: Values, mem: Memory): Result {
    match op
    case Binary(r, opcode, x, y) =>
      var a, b := OperandValue(x, r.ty, vals), OperandValue(y, r.ty, vals);
      if a.None? || b.None? then Stuck else
      var v := Apply(opcode, r.ty, a.value, b.value);
      if v.None? then Undefined else Bind(vals, mem, r, v.value)
    case Icmp(r, p, x, y) =>
      var t := if x.Ref? then TypeOf(x, vals) else TypeOf(y, vals);
      if t.None? then Stuck else
      var a, b := OperandValue(x, t.value, vals), OperandValue(y, t.value, vals);
      if a.None? || b.None? then Stuck else Bind(vals, mem, r, Compare(p, t.value, a.value, b.value))
    case Cast(r, c, n) =>
      if n !in vals then Stuck else Bind(vals, mem, r, Convert(c, vals[n].ty, r.ty, vals[n].bits))
    case Select(r, c, x, y) =>
      var k, a, b := OperandValue(Ref(c), I1, vals), OperandValue(x, r.ty, vals), OperandValue(y, r.ty, vals);
      if k.None? || a.None? || b.None? then Stuck
      else Bind(vals, mem, r, if k.value == 1 then a.value else b.value)
    case Load(r, _, address) =>
      var addr := AddressValue(address, vals);
      if addr.None? then Stuck else Bind(vals, mem, r, Reduce(r.ty, ReadBytes(mem, addr.value, Bits(r.ty) / 8)))
    case Store(v, _, address) =>
      var addr := AddressValue(address, vals);
      if addr.None? || v !in vals then Stuck
      else Ok(vals, WriteBytes(mem, addr.value, Bits(vals[v].ty) / 8, vals[v].bits))
  }

  function EvalOps(ops: seq<Operation>, vals: Values, mem: Memory): Result
    decreases |ops|
  {
    if ops == [] then Ok(vals, mem) else
    var next := EvalOp(ops[0], vals, mem);
    if next.Ok? then EvalOps(ops[1..], next.vals, next.mem) else next
  }

  datatype Final = Returned(value: Option<Typed>, mem: Memory) | FailedStuck | FailedUndefined

  function Finish(r: Result, returnValue: Option<string>): Final {
    match r
    case Stuck => FailedStuck
    case Undefined => FailedUndefined
    case Ok(vals, mem) =>
      if returnValue.None? then Returned(None, mem)
      else if returnValue.value in vals then Returned(Some(vals[returnValue.value]), mem)
      else FailedStuck
  }

  function RunSchema(s: Schema, args: Values, mem: Memory): Final {
    Finish(EvalOps(s.operations, args, mem), s.returnValue)
  }

  // ---- the LLVM instructions a schema becomes ----

  datatype Inst =
    | LBinary(dst: string, opcode: Opcode, ty: Ty, x: Operand, y: Operand)
    | LIcmp(dst: string, predicate_: Predicate, ty: Ty, x: Operand, y: Operand)
    | LCast(dst: string, cast: CastOp, from: Ty, src: string, to: Ty)
    | LSelect(dst: string, condition: string, ty: Ty, x: Operand, y: Operand)
    | LGep(dst: string, elementBits: int, base: string, index: Operand)
    | LLoad(dst: string, ty: Ty, pointer: string)
    | LStore(ty: Ty, src: string, pointer: string)

  /** A local name is assigned once; a second assignment is not a program. */
  function Define(vals: Values, mem: Memory, dst: string, t: Ty, bits: nat): Result {
    if dst in vals then Stuck else Ok(vals[dst := Typed(t, bits)], mem)
  }

  function Exec(i: Inst, vals: Values, mem: Memory): Result {
    match i
    case LBinary(dst, opcode, t, x, y) =>
      var a, b := OperandValue(x, t, vals), OperandValue(y, t, vals);
      if a.None? || b.None? then Stuck else
      var v := Apply(opcode, t, a.value, b.value);
      if v.None? then Undefined else Define(vals, mem, dst, t, v.value)
    case LIcmp(dst, p, t, x, y) =>
      var a, b := OperandValue(x, t, vals), OperandValue(y, t, vals);
      if a.None? || b.None? then Stuck else Define(vals, mem, dst, I1, Compare(p, t, a.value, b.value))
    case LCast(dst, c, from, src, to) =>
      var a := OperandValue(Ref(src), from, vals);
      if a.None? then Stuck else Define(vals, mem, dst, to, Convert(c, from, to, a.value))
    case LSelect(dst, c, t, x, y) =>
      var k, a, b := OperandValue(Ref(c), I1, vals), OperandValue(x, t, vals), OperandValue(y, t, vals);
      if k.None? || a.None? || b.None? then Stuck
      else Define(vals, mem, dst, t, if k.value == 1 then a.value else b.value)
    case LGep(dst, elementBits, base, index) =>
      var p, k := OperandValue(Ref(base), Ptr, vals), OperandValue(index, I64, vals);
      if p.None? || k.None? then Stuck
      else Define(vals, mem, dst, Ptr, (p.value + k.value * (elementBits / 8)) % M64)
    case LLoad(dst, t, pointer) =>
      var p := OperandValue(Ref(pointer), Ptr, vals);
      if p.None? then Stuck else Define(vals, mem, dst, t, Reduce(t, ReadBytes(mem, p.value, Bits(t) / 8)))
    case LStore(t, src, pointer) =>
      var p, v := OperandValue(Ref(pointer), Ptr, vals), OperandValue(Ref(src), t, vals);
      if p.None? || v.None? then Stuck else Ok(vals, WriteBytes(mem, p.value, Bits(t) / 8, v.value))
  }

  function ExecAll(insts: seq<Inst>, vals: Values, mem: Memory): Result
    decreases |insts|
  {
    if insts == [] then Ok(vals, mem) else
    var next := Exec(insts[0], vals, mem);
    if next.Ok? then ExecAll(insts[1..], next.vals, next.mem) else next
  }

  // ---- lowering ----

  /** The names made up for the `k`-th memory access. */
  function AddressName(k: nat): string { if k == 1 then "q" else "q" + Decimal(k) }

  function AdjustedName(k: nat): string { if k == 1 then "idx_plus" else "idx_plus" + Decimal(k) }

  /** The instructions computing an address, and the name that holds it. */
  function LowerAddress(a: AddressSpec, o: MemoryObject, k: nat): (seq<Inst>, string)
    requires o.elementBits / 8 != 0
  {
    var offset := a.displacement / (o.elementBits / 8);
    if a.index.None? && a.displacement == 0 then ([], a.base)
    else if a.index.None? then ([LGep(AddressName(k), o.elementBits, a.base, Const(offset))], AddressName(k))
    else if a.displacement == 0 then ([LGep(AddressName(k), o.elementBits, a.base, Ref(a.index.value))], AddressName(k))
    else ([LBinary(AdjustedName(k), Add, I64, Ref(a.index.value), Const(offset)),
           LGep(AddressName(k), o.elementBits, a.base, Ref(AdjustedName(k)))], AddressName(k))
  }

  /** `env` holds the type of every value of the schema; `k` numbers the memory accesses. */
  function LowerOp(op: Operation, env: Env, objects: Objects, k: nat): seq<Inst> {
    match op
    case Binary(r, opcode, x, y) => [LBinary(r.name, opcode, r.ty, x, y)]
    case Icmp(r, p, x, y) =>
      var t := ComparedType(x, y, env);
      if t.None? then [] else [LIcmp(r.name, p, t.value, x, y)]
    case Cast(r, c, n) => if n !in env then [] else [LCast(r.name, c, env[n], n, r.ty)]
    case Select(r, c, x, y) => [LSelect(r.name, c, r.ty, x, y)]
    case Load(r, o, a) =>
      if o !in objects || objects[o].elementBits / 8 == 0 then [] else
      var address := LowerAddress(a, objects[o], k);
      address.0 + [LLoad(r.name, r.ty, address.1)]
    case Store(v, o, a) =>
      if o !in objects || objects[o].elementBits / 8 == 0 || v !in env then [] else
      var address := LowerAddress(a, objects[o], k);
      address.0 + [LStore(env[v], v, address.1)]
  }

  /** `k` memory accesses came before these operations. */
  function LowerOps(ops: seq<Operation>, env: Env, objects: Objects, k: nat): seq<Inst>
    decreases |ops|
  {
    if ops == [] then [] else
    var k' := if Touches(ops[0]) then k + 1 else k;
    LowerOp(ops[0], env, objects, k') + LowerOps(ops[1..], env, objects, k')
  }

  function Lowered(s: Schema): seq<Inst> {
    LowerOps(s.operations, DefineAll(InputEnv(s.inputs), s.operations), ObjectMap(s.objects), 0)
  }

  function RunLlvm(s: Schema, args: Values, mem: Memory): Final {
    Finish(ExecAll(Lowered(s), args, mem), s.returnValue)
  }

  lemma LowerStep(ops: seq<Operation>, env: Env, objects: Objects, k: nat, i: nat, done: seq<Inst>)
    requires i < |ops|
    ensures var k' := if Touches(ops[i]) then k + 1 else k;
            done + LowerOps(ops[i..], env, objects, k)
            == (done + LowerOp(ops[i], env, objects, k')) + LowerOps(ops[i + 1..], env, objects, k')
  {
    var k' := if Touches(ops[i]) then k + 1 else k;
    var rest, head := ops[i..], LowerOp(ops[i], env, objects, k');
    assert rest[0] == ops[i] && rest[1..] == ops[i + 1..];
    var tail := LowerOps(ops[i + 1..], env, objects, k');
    assert done + (head + tail) == (done + head) + tail;
  }

  /** The emission loop. */
  method Materialize(s: Schema) returns (insts: seq<Inst>)
    ensures insts == Lowered(s)
  {
    var ops, env, objects := s.operations, DefineAll(InputEnv(s.inputs), s.operations), ObjectMap(s.objects);
    var memoryIndex: nat := 0;
    insts := [];
    ghost var target := LowerOps(ops, env, objects, 0);
    for i := 0 to |ops|
      invariant target == insts + LowerOps(ops[i..], env, objects, memoryIndex)
    {
      LowerStep(ops, env, objects, memoryIndex, i, insts);
      if Touches(ops[i]) { memoryIndex := memoryIndex + 1; }
      insts := insts + LowerOp(ops[i], env, objects, memoryIndex);
    }
  }
}
