/** Accepted schemas never get stuck, and lowering them preserves what they compute. */
module KernelCorrectness {
  import opened Wrappers
  import S = KernelSchema
  import C = Closure
  import opened KernelSchema
  import opened KernelLowering
  import opened Numerals

  // ---- accepted operations never get stuck ----

  /** One value of the right type and range for every name in scope. */
  ghost predicate TypedAs(env: Env, vals: Values) {
    && vals.Keys == env.Keys
    && forall n :: n in env ==> vals[n].ty == env[n] && vals[n].bits < Modulus(env[n])
  }

  predicate OpConstructed(op: Operation) {
    match op
    case Store(_, _, a) => a.scale in {1, 2, 4, 8}
    case Load(r, _, a) => r.ty != Ptr && a.scale in {1, 2, 4, 8}
    case Icmp(r, _, _, _) => r.ty == I1
    case _ => op.result.ty != Ptr
  }

  lemma OperandDefined(o: Operand, t: Ty, env: Env, vals: Values)
    requires OperandTyped(o, t, env) && TypedAs(env, vals)
    ensures OperandValue(o, t, vals).Some? && OperandValue(o, t, vals).value < Modulus(t)
  {}

  lemma ApplyInRange(opcode: Opcode, t: Ty, a: nat, b: nat)
    ensures Apply(opcode, t, a, b).Some? ==> Apply(opcode, t, a, b).value < Modulus(t)
  {
    match opcode
    case _ =>
  }

  lemma BindTyped(env: Env, vals: Values, r: Value, bits: nat)
    requires TypedAs(env, vals) && bits < Modulus(r.ty)
    ensures TypedAs(env[r.name := r.ty], vals[r.name := Typed(r.ty, bits)])
  {}

  /** An admitted operation runs to a result of the declared type, or to undefined behaviour. */
  lemma OpRuns(op: Operation, env: Env, objects: Objects, vals: Values, mem: Memory)
    requires OpConstructed(op) && Admits(env, objects, op) && TypedAs(env, vals)
    ensures !EvalOp(op, vals, mem).Stuck?
    ensures EvalOp(op, vals, mem).Ok? ==> TypedAs(S.Define(env, op), EvalOp(op, vals, mem).vals)
  {
    match op
    case Binary(r, opcode, x, y) =>
      OperandDefined(x, r.ty, env, vals);
      OperandDefined(y, r.ty, env, vals);
      var a, b := OperandValue(x, r.ty, vals).value, OperandValue(y, r.ty, vals).value;
      ApplyInRange(opcode, r.ty, a, b);
      var v := Apply(opcode, r.ty, a, b);
      if v.Some? { BindTyped(env, vals, r, v.value); }
    case Icmp(r, p, x, y) =>
      var t := ComparedType(x, y, env).value;
      OperandDefined(x, t, env, vals);
      OperandDefined(y, t, env, vals);
      BindTyped(env, vals, r, Compare(p, t, OperandValue(x, t, vals).value, OperandValue(y, t, vals).value));
    case Cast(r, c, n) => BindTyped(env, vals, r, Convert(c, vals[n].ty, r.ty, vals[n].bits));
    case Select(r, c, x, y) =>
      OperandDefined(x, r.ty, env, vals);
      OperandDefined(y, r.ty, env, vals);
      BindTyped(env, vals, r, OperandValue(x, r.ty, vals).value);
      BindTyped(env, vals, r, OperandValue(y, r.ty, vals).value);
    case Load(r, o, a) =>
      BindTyped(env, vals, r, Reduce(r.ty, ReadBytes(mem, AddressValue(a, vals).value, Bits(r.ty) / 8)));
    case Store(_, _, _) =>
  }

  lemma {:induction false} OpsRun(ops: seq<Operation>, env: Env, objects: Objects, vals: Values, mem: Memory)
    requires (forall i :: 0 <= i < |ops| ==> OpConstructed(ops[i])) && Ssa(env, objects, ops) && TypedAs(env, vals)
    ensures !EvalOps(ops, vals, mem).Stuck?
    ensures EvalOps(ops, vals, mem).Ok? ==> TypedAs(DefineAll(env, ops), EvalOps(ops, vals, mem).vals)
    decreases |ops|
  {
    if ops != [] {
      OpRuns(ops[0], env, objects, vals, mem);
      var next := EvalOp(ops[0], vals, mem);
      if next.Ok? { OpsRun(ops[1..], S.Define(env, ops[0]), objects, next.vals, next.mem); }
    }
  }

  /** An accepted schema never gets stuck and returns a value of its declared output type. */
  lemma AcceptedNeverStuck(s: Schema, args: Values, mem: Memory)
    requires Constructed(s) && Accepted(s) && TypedAs(InputEnv(s.inputs), args)
    ensures var r := RunSchema(s, args, mem);
            && !r.FailedStuck?
            && (r.Returned? ==> (r.value.Some? <==> s.outputs != []))
            && (r.Returned? && r.value.Some? ==>
               r.value.value.ty == s.outputs[0].ty && r.value.value.bits < Modulus(s.outputs[0].ty))
  {
    assert forall i :: 0 <= i < |s.operations| ==> OpConstructed(s.operations[i]);
    OpsRun(s.operations, InputEnv(s.inputs), ObjectMap(s.objects), args, mem);
  }

  // ---- generated names ----

  lemma NamesDiffer(j: nat, k: nat)
    ensures AddressName(j) != AdjustedName(k)
    ensures j != k ==> AddressName(j) != AddressName(k) && AdjustedName(j) != AdjustedName(k)
  {
    DecimalReadsBack(j);
    DecimalReadsBack(k);
    assert AddressName(j)[0] == 'q' && AdjustedName(k)[0] == 'i';
    assert j != 1 ==> AddressName(j)[1..] == Decimal(j) && AdjustedName(j)[8..] == Decimal(j);
    assert k != 1 ==> AddressName(k)[1..] == Decimal(k) && AdjustedName(k)[8..] == Decimal(k);
    if j != k { DecimalInjective(j, k); }
  }

  /** The local names the `k`-th memory access defines besides the schema's own. */
  function MadeUp(a: AddressSpec, k: nat): set<string> {
    if a.index.None? && a.displacement == 0 then {}
    else {AddressName(k)} + if a.index.Some? && a.displacement != 0 then {AdjustedName(k)} else {}
  }

  function MadeUpBy(op: Operation, k: nat): set<string> { if Touches(op) then MadeUp(op.address, k) else {} }

  function MadeUpByAll(ops: seq<Operation>, k: nat): set<string>
    decreases |ops|
  {
    if ops == [] then {} else
    var k' := if Touches(ops[0]) then k + 1 else k;
    MadeUpBy(ops[0], k') + MadeUpByAll(ops[1..], k')
  }

  /** No value of the schema has a name that lowering makes up. */
  predicate NoClash(s: Schema) {
    DefineAll(InputEnv(s.inputs), s.operations).Keys !! MadeUpByAll(s.operations, 0)
  }

  /** Names made up for accesses after the `k`-th. */
  ghost predicate Later(name: string, k: nat) {
    exists j: nat :: j > k && (name == AddressName(j) || name == AdjustedName(j))
  }

  lemma {:induction false} MadeUpLater(ops: seq<Operation>, k: nat)
    ensures forall n :: n in MadeUpByAll(ops, k) ==> Later(n, k)
    decreases |ops|
  {
    if ops != [] {
      var k' := if Touches(ops[0]) then k + 1 else k;
      MadeUpLater(ops[1..], k');
      forall n | n in MadeUpByAll(ops, k) ensures Later(n, k) {
        if n in MadeUpBy(ops[0], k') {
          assert n == AddressName(k') || n == AdjustedName(k');
        } else {
          assert Later(n, k');
          var j: nat :| j > k' && (n == AddressName(j) || n == AdjustedName(j));
          assert j > k;
        }
      }
    }
  }

  lemma LaterDiffers(name: string, k: nat)
    requires Later(name, k)
    ensures name != AddressName(k) && name != AdjustedName(k)
  {
    var j: nat :| j > k && (name == AddressName(j) || name == AdjustedName(j));
    NamesDiffer(j, k);
    NamesDiffer(k, j);
  }

  lemma StillNotLater(name: string, k: nat, k': nat)
    requires k <= k' && !Later(name, k)
    ensures !Later(name, k')
  {}

  // ---- address arithmetic ----

  lemma ModScale(bytes: nat, base: nat, v: int)
    requires bytes in {1, 2, 4, 8}
    ensures (base + (v % M64) * bytes) % M64 == (base + v * bytes) % M64
  {
    var q := v / M64;
    assert v == q * M64 + v % M64;
    if bytes == 1 { DropMultiple(base + v % M64, q); }
    else if bytes == 2 { DropMultiple(base + (v % M64) * 2, 2 * q); }
    else if bytes == 4 { DropMultiple(base + (v % M64) * 4, 4 * q); }
    else { DropMultiple(base + (v % M64) * 8, 8 * q); }
  }

  lemma DropMultiple(x: int, q: int)
    ensures (x + q * M64) % M64 == x % M64
  {}

  lemma {:induction false} ExecConcat(a: seq<Inst>, b: seq<Inst>, vals: Values, mem: Memory)
    ensures var first := ExecAll(a, vals, mem);
            ExecAll(a + b, vals, mem) == if first.Ok? then ExecAll(b, first.vals, first.mem) else first
    decreases |a|
  {
    if a == [] { assert a + b == b; } else {
      assert (a + b)[1..] == a[1..] + b;
      var next := Exec(a[0], vals, mem);
      if next.Ok? { ExecConcat(a[1..], b, next.vals, next.mem); }
    }
  }

  /** The LLVM locals hold every schema value, and possibly more. */
  ghost predicate Extends(vals: Values, locals: Values) {
    forall n :: n in vals ==> n in locals && locals[n] == vals[n]
  }

  /** Widths that a load or store of an integer value can have. */
  lemma ElementBytes(a: AddressSpec, o: MemoryObject, env: Env, t: Ty)
    requires AddressTyped(a, o, env) && Bits(t) == o.elementBits
    ensures o.elementBits / 8 in {1, 2, 4, 8}
    ensures (a.displacement / (o.elementBits / 8)) * (o.elementBits / 8) == a.displacement
  {}

  /** The two-instruction form computes the same address as the sum it stands for. */
  lemma AdjustedAddress(bytes: nat, base: nat, index: nat, offset: int)
    requires bytes in {1, 2, 4, 8}
    ensures (base + ((index + offset % M64) % M64) * bytes) % M64 == (base + index * bytes + offset * bytes) % M64
  {
    var q := offset / M64;
    assert index + offset == index + offset % M64 + q * M64;
    DropMultiple(index + offset % M64, q);
    assert (index + offset % M64) % M64 == (index + offset) % M64;
    ModScale(bytes, base, index + offset);
    assert (index + offset) * bytes == index * bytes + offset * bytes;
  }

  /** Only the made-up names are defined, and the last of them holds base + index * scale + displacement modulo 2^64. */
  ghost predicate AddressReached(a: AddressSpec, k: nat, insts: seq<Inst>, name: string, vals: Values, locals: Values,
      mem: Memory)
  {
    var r := ExecAll(insts, locals, mem);
    && AddressValue(a, vals).Some?
    && r.Ok? && r.mem == mem && Extends(vals, r.vals) && r.vals.Keys == locals.Keys + MadeUp(a, k)
    && OperandValue(Ref(name), Ptr, r.vals) == AddressValue(a, vals)
  }

  lemma GepRuns(dst: string, bits: nat, base: string, index: Operand, locals: Values, mem: Memory, p: nat, i: nat)
    requires OperandValue(Ref(base), Ptr, locals) == Some(p) && OperandValue(index, I64, locals) == Some(i)
    ensures ExecAll([LGep(dst, bits, base, index)], locals, mem)
            == KernelLowering.Define(locals, mem, dst, Ptr, (p + i * (bits / 8)) % M64)
  {
    OneGep(LGep(dst, bits, base, index), locals, mem);
  }

  lemma DisplacedAddress(a: AddressSpec, o: MemoryObject, k: nat, env: Env, vals: Values, locals: Values, mem: Memory,
      t: Ty)
    requires AddressTyped(a, o, env) && Bits(t) == o.elementBits && a.index.None? && a.displacement != 0
    requires TypedAs(env, vals) && Extends(vals, locals) && MadeUp(a, k) !! locals.Keys
    ensures AddressReached(a, k, LowerAddress(a, o, k).0, LowerAddress(a, o, k).1, vals, locals, mem)
  {
    ElementBytes(a, o, env, t);
    var bytes, base := o.elementBits / 8, vals[a.base].bits;
    var offset := a.displacement / bytes;
    ModScale(bytes, base, offset);
    GepRuns(AddressName(k), o.elementBits, a.base, Const(offset), locals, mem, base, offset % M64);
  }

  lemma UnindexedAddress(a: AddressSpec, o: MemoryObject, k: nat, env: Env, vals: Values, locals: Values, mem: Memory,
      t: Ty)
    requires AddressTyped(a, o, env) && Bits(t) == o.elementBits && a.index.None?
    requires TypedAs(env, vals) && Extends(vals, locals) && MadeUp(a, k) !! locals.Keys
    ensures AddressReached(a, k, LowerAddress(a, o, k).0, LowerAddress(a, o, k).1, vals, locals, mem)
  {
    ElementBytes(a, o, env, t);
    if a.displacement != 0 { DisplacedAddress(a, o, k, env, vals, locals, mem, t); }
  }

  lemma IndexedAddress(a: AddressSpec, o: MemoryObject, k: nat, env: Env, vals: Values, locals: Values, mem: Memory,
      t: Ty)
    requires AddressTyped(a, o, env) && Bits(t) == o.elementBits && a.index.Some? && a.displacement == 0
    requires TypedAs(env, vals) && Extends(vals, locals) && MadeUp(a, k) !! locals.Keys
    ensures AddressReached(a, k, LowerAddress(a, o, k).0, LowerAddress(a, o, k).1, vals, locals, mem)
  {
    OneGep(LowerAddress(a, o, k).0[0], locals, mem);
  }

  /** The first of the two instructions adds the offset to the index. */
  lemma AdjustRuns(name: string, index: string, offset: int, locals: Values, mem: Memory, i: nat)
    requires OperandValue(Ref(index), I64, locals) == Some(i)
    ensures Exec(LBinary(name, Add, I64, Ref(index), Const(offset)), locals, mem)
            == KernelLowering.Define(locals, mem, name, I64, (i + offset % M64) % M64)
  {}

  lemma AdjustedGepRuns(adjusted: string, dst: string, bits: nat, base: string, index: string, offset: int,
      locals: Values, mem: Memory, p: nat, i: nat)
    requires OperandValue(Ref(base), Ptr, locals) == Some(p) && OperandValue(Ref(index), I64, locals) == Some(i)
    requires adjusted !in locals
    ensures var sum := (i + offset % M64) % M64;
            var insts := [LBinary(adjusted, Add, I64, Ref(index), Const(offset)), LGep(dst, bits, base, Ref(adjusted))];
            ExecAll(insts, locals, mem) == KernelLowering.Define(locals[adjusted := Typed(I64, sum)], mem, dst, Ptr,
                                             (p + sum * (bits / 8)) % M64)
  {
    var sum := (i + offset % M64) % M64;
    var insts := [LBinary(adjusted, Add, I64, Ref(index), Const(offset)), LGep(dst, bits, base, Ref(adjusted))];
    AdjustRuns(adjusted, index, offset, locals, mem, i);
    assert insts[1..] == [insts[1]];
    GepRuns(dst, bits, base, Ref(adjusted), locals[adjusted := Typed(I64, sum)], mem, p, sum);
  }

  lemma AdjustedValue(a: AddressSpec, o: MemoryObject, env: Env, vals: Values, t: Ty)
    requires AddressTyped(a, o, env) && Bits(t) == o.elementBits && a.index.Some? && TypedAs(env, vals)
    ensures var bytes := o.elementBits / 8;
            var sum := (vals[a.index.value].bits + (a.displacement / bytes) % M64) % M64;
            AddressValue(a, vals) == Some((vals[a.base].bits + sum * bytes) % M64)
  {
    ElementBytes(a, o, env, t);
    var bytes := o.elementBits / 8;
    AdjustedAddress(bytes, vals[a.base].bits, vals[a.index.value].bits, a.displacement / bytes);
  }

  lemma AdjustedIndexAddress(a: AddressSpec, o: MemoryObject, k: nat, env: Env, vals: Values, locals: Values,
      mem: Memory, t: Ty)
    requires AddressTyped(a, o, env) && Bits(t) == o.elementBits && a.index.Some? && a.displacement != 0
    requires TypedAs(env, vals) && Extends(vals, locals) && MadeUp(a, k) !! locals.Keys
    ensures AddressReached(a, k, LowerAddress(a, o, k).0, LowerAddress(a, o, k).1, vals, locals, mem)
  {
    NamesDiffer(k, k);
    AdjustedValue(a, o, env, vals, t);
    AdjustedGepRuns(AdjustedName(k), AddressName(k), o.elementBits, a.base, a.index.value,
      a.displacement / (o.elementBits / 8), locals, mem, vals[a.base].bits, vals[a.index.value].bits);
  }

  lemma AddressLowered(a: AddressSpec, o: MemoryObject, k: nat, env: Env, vals: Values, locals: Values, mem: Memory,
      t: Ty)
    requires AddressTyped(a, o, env) && Bits(t) == o.elementBits
    requires TypedAs(env, vals) && Extends(vals, locals) && MadeUp(a, k) !! locals.Keys
    ensures AddressReached(a, k, LowerAddress(a, o, k).0, LowerAddress(a, o, k).1, vals, locals, mem)
  {
    if a.index.None? { UnindexedAddress(a, o, k, env, vals, locals, mem, t); }
    else if a.displacement == 0 { IndexedAddress(a, o, k, env, vals, locals, mem, t); }
    else { AdjustedIndexAddress(a, o, k, env, vals, locals, mem, t); }
  }

  lemma OneGep(i: Inst, vals: Values, mem: Memory)
    ensures ExecAll([i], vals, mem) == Exec(i, vals, mem)
  {
    assert [i][1..] == [];
  }

  // ---- one operation ----

  /** The environment of the whole schema says the same of every name already in scope. */
  ghost predicate Agrees(env: Env, full: Env) { forall n :: n in env ==> n in full && full[n] == env[n] }

  /** Lowered instructions do what the operation does, defining its result and the made-up names. */
  ghost predicate SameStep(op: Operation, k: nat, want: Result, got: Result, locals: Values) {
    match want
    case Ok(vals, mem) =>
      && got.Ok? && got.mem == mem && Extends(vals, got.vals)
      && got.vals.Keys == locals.Keys + MadeUpBy(op, k) + (if op.Store? then {} else {op.result.name})
    case _ => got == want
  }

  lemma ExtendsOperand(o: Operand, t: Ty, vals: Values, locals: Values)
    requires Extends(vals, locals) && OperandValue(o, t, vals).Some?
    ensures OperandValue(o, t, locals) == OperandValue(o, t, vals)
  {}

  lemma BinaryLowered(op: Operation, env: Env, full: Env, objects: Objects, k: nat, vals: Values, locals: Values,
      mem: Memory)
    requires OpConstructed(op) && Admits(env, objects, op) && TypedAs(env, vals) && Agrees(env, full)
    requires !Touches(op) && Extends(vals, locals) && op.result.name !in locals
    requires op.Binary?
    ensures SameStep(op, k, EvalOp(op, vals, mem), ExecAll(LowerOp(op, full, objects, k), locals, mem), locals)
  {
    match op
    case Binary(r, opcode, x, y) =>
      OperandDefined(x, r.ty, env, vals);
      OperandDefined(y, r.ty, env, vals);
      ExtendsOperand(x, r.ty, vals, locals);
      ExtendsOperand(y, r.ty, vals, locals);
      OneGep(LowerOp(op, full, objects, k)[0], locals, mem);
  }

  lemma IcmpLowered(op: Operation, env: Env, full: Env, objects: Objects, k: nat, vals: Values, locals: Values,
      mem: Memory)
    requires OpConstructed(op) && Admits(env, objects, op) && TypedAs(env, vals) && Agrees(env, full)
    requires !Touches(op) && Extends(vals, locals) && op.result.name !in locals
    requires op.Icmp?
    ensures SameStep(op, k, EvalOp(op, vals, mem), ExecAll(LowerOp(op, full, objects, k), locals, mem), locals)
  {
    match op
    case Icmp(r, p, x, y) =>
      var t := ComparedType(x, y, env).value;
      OperandDefined(x, t, env, vals);
      OperandDefined(y, t, env, vals);
      ExtendsOperand(x, t, vals, locals);
      ExtendsOperand(y, t, vals, locals);
      OneGep(LowerOp(op, full, objects, k)[0], locals, mem);
  }

  lemma SelectLowered(op: Operation, env: Env, full: Env, objects: Objects, k: nat, vals: Values, locals: Values,
      mem: Memory)
    requires OpConstructed(op) && Admits(env, objects, op) && TypedAs(env, vals) && Agrees(env, full)
    requires !Touches(op) && Extends(vals, locals) && op.result.name !in locals
    requires op.Select?
    ensures SameStep(op, k, EvalOp(op, vals, mem), ExecAll(LowerOp(op, full, objects, k), locals, mem), locals)
  {
    match op
    case Select(r, c, x, y) =>
      OperandDefined(x, r.ty, env, vals);
      OperandDefined(y, r.ty, env, vals);
      ExtendsOperand(x, r.ty, vals, locals);
      ExtendsOperand(y, r.ty, vals, locals);
      OneGep(LowerOp(op, full, objects, k)[0], locals, mem);
  }

  lemma PlainLowered(op: Operation, env: Env, full: Env, objects: Objects, k: nat, vals: Values, locals: Values,
      mem: Memory)
    requires OpConstructed(op) && Admits(env, objects, op) && TypedAs(env, vals) && Agrees(env, full)
    requires !Touches(op) && Extends(vals, locals) && op.result.name !in locals
    ensures SameStep(op, k, EvalOp(op, vals, mem), ExecAll(LowerOp(op, full, objects, k), locals, mem), locals)
  {
    match op
    case Binary(_, _, _, _) => BinaryLowered(op, env, full, objects, k, vals, locals, mem);
    case Icmp(_, _, _, _) => IcmpLowered(op, env, full, objects, k, vals, locals, mem);
    case Select(_, _, _, _) => SelectLowered(op, env, full, objects, k, vals, locals, mem);
    case Cast(_, _, _) => OneGep(LowerOp(op, full, objects, k)[0], locals, mem);
  }

  lemma LoadLowered(op: Operation, env: Env, full: Env, objects: Objects, k: nat, vals: Values, locals: Values,
      mem: Memory)
    requires OpConstructed(op) && Admits(env, objects, op) && TypedAs(env, vals) && Agrees(env, full)
    requires op.Load? && Extends(vals, locals) && op.result.name !in locals
    requires MadeUpBy(op, k) !! locals.Keys + {op.result.name}
    ensures SameStep(op, k, EvalOp(op, vals, mem), ExecAll(LowerOp(op, full, objects, k), locals, mem), locals)
  {
    var o := objects[op.object_];
    AddressLowered(op.address, o, k, env, vals, locals, mem, op.result.ty);
    var (insts, name) := LowerAddress(op.address, o, k);
    var last := LLoad(op.result.name, op.result.ty, name);
    ExecConcat(insts, [last], locals, mem);
    OneGep(last, ExecAll(insts, locals, mem).vals, mem);
  }

  lemma StoreLowered(op: Operation, env: Env, full: Env, objects: Objects, k: nat, vals: Values, locals: Values,
      mem: Memory)
    requires OpConstructed(op) && Admits(env, objects, op) && TypedAs(env, vals) && Agrees(env, full)
    requires op.Store? && Extends(vals, locals) && MadeUpBy(op, k) !! locals.Keys
    ensures SameStep(op, k, EvalOp(op, vals, mem), ExecAll(LowerOp(op, full, objects, k), locals, mem), locals)
  {
    var o := objects[op.object_];
    AddressLowered(op.address, o, k, env, vals, locals, mem, env[op.value]);
    var (insts, name) := LowerAddress(op.address, o, k);
    var last := LStore(env[op.value], op.value, name);
    ExecConcat(insts, [last], locals, mem);
    OneGep(last, ExecAll(insts, locals, mem).vals, mem);
  }

  lemma OpLowered(op: Operation, env: Env, full: Env, objects: Objects, k: nat, vals: Values, locals: Values,
      mem: Memory)
    requires OpConstructed(op) && Admits(env, objects, op) && TypedAs(env, vals) && Agrees(env, full)
    requires Extends(vals, locals) && (!op.Store? ==> op.result.name !in locals)
    requires MadeUpBy(op, k) !! locals.Keys + (if op.Store? then {} else {op.result.name})
    ensures SameStep(op, k, EvalOp(op, vals, mem), ExecAll(LowerOp(op, full, objects, k), locals, mem), locals)
  {
    if op.Load? { LoadLowered(op, env, full, objects, k, vals, locals, mem); }
    else if op.Store? { StoreLowered(op, env, full, objects, k, vals, locals, mem); }
    else { PlainLowered(op, env, full, objects, k, vals, locals, mem); }
  }

  // ---- a whole schema ----

  lemma {:induction false} DefineAllGrows(env: Env, objects: Objects, ops: seq<Operation>)
    requires Ssa(env, objects, ops)
    ensures Agrees(env, DefineAll(env, ops))
    decreases |ops|
  {
    if ops != [] { DefineAllGrows(S.Define(env, ops[0]), objects, ops[1..]); }
  }

  /** Every local that is no schema value was made up, for one of the first `k` accesses. */
  ghost predicate OnlyMadeUp(env: Env, full: Env, locals: Values, k: nat) {
    forall n :: n in locals && n !in env ==> n !in full && !Later(n, k)
  }

  lemma MadeUpIsFresh(op: Operation, env: Env, full: Env, locals: Values, k: nat)
    requires OnlyMadeUp(env, full, locals, k) && Agrees(env, full)
    requires MadeUpBy(op, k + 1) !! full.Keys
    ensures MadeUpBy(op, k + 1) !! locals.Keys
  {
    assert Later(AddressName(k + 1), k) && Later(AdjustedName(k + 1), k);
  }

  lemma StillOnlyMadeUp(op: Operation, env: Env, full: Env, locals: Values, k: nat, k': nat, after: Values)
    requires OnlyMadeUp(env, full, locals, k) && MadeUpBy(op, k') !! full.Keys && k' >= k
    requires after.Keys == locals.Keys + MadeUpBy(op, k') + (if op.Store? then {} else {op.result.name})
    ensures OnlyMadeUp(S.Define(env, op), full, after, k')
  {
    forall n | n in after && n !in S.Define(env, op) ensures n !in full && !Later(n, k') {
      if n in MadeUpBy(op, k') {
        if Later(n, k') { LaterDiffers(n, k'); }
      } else {
        StillNotLater(n, k, k');
      }
    }
  }

  /** Direct evaluation and execution end the same way. */
  ghost predicate SameEnd(want: Result, got: Result) {
    match want
    case Ok(vals, mem) => got.Ok? && got.mem == mem && Extends(vals, got.vals)
    case _ => got == want
  }

  /** The first operation of a lowered list. */
  lemma FirstLowered(ops: seq<Operation>, env: Env, full: Env, objects: Objects, k: nat, k': nat, vals: Values,
      locals: Values, mem: Memory)
    requires ops != [] && OpConstructed(ops[0]) && Ssa(env, objects, ops) && TypedAs(env, vals)
    requires full == DefineAll(env, ops) && full.Keys !! MadeUpByAll(ops, k)
    requires Extends(vals, locals) && OnlyMadeUp(env, full, locals, k)
    requires k' == if Touches(ops[0]) then k + 1 else k
    ensures SameStep(ops[0], k', EvalOp(ops[0], vals, mem), ExecAll(LowerOp(ops[0], full, objects, k'), locals, mem),
              locals)
  {
    DefineAllGrows(env, objects, ops);
    DefineAllGrows(S.Define(env, ops[0]), objects, ops[1..]);
    if Touches(ops[0]) { MadeUpIsFresh(ops[0], env, full, locals, k); }
    OpLowered(ops[0], env, full, objects, k', vals, locals, mem);
  }

  lemma {:induction false} OpsLowered(ops: seq<Operation>, env: Env, full: Env, objects: Objects, k: nat, vals: Values,
      locals: Values, mem: Memory)
    requires (forall i :: 0 <= i < |ops| ==> OpConstructed(ops[i])) && Ssa(env, objects, ops) && TypedAs(env, vals)
    requires full == DefineAll(env, ops) && full.Keys !! MadeUpByAll(ops, k)
    requires Extends(vals, locals) && OnlyMadeUp(env, full, locals, k)
    ensures SameEnd(EvalOps(ops, vals, mem), ExecAll(LowerOps(ops, full, objects, k), locals, mem))
    decreases |ops|
  {
    DefineAllGrows(env, objects, ops);
    if ops != [] {
      var op, rest := ops[0], ops[1..];
      var k' := if Touches(op) then k + 1 else k;
      var env' := S.Define(env, op);
      DefineAllGrows(env', objects, rest);
      FirstLowered(ops, env, full, objects, k, k', vals, locals, mem);
      var head := LowerOp(op, full, objects, k');
      ExecConcat(head, LowerOps(rest, full, objects, k'), locals, mem);
      OpRuns(op, env, objects, vals, mem);
      var want, got := EvalOp(op, vals, mem), ExecAll(head, locals, mem);
      if want.Ok? {
        StillOnlyMadeUp(op, env, full, locals, k, k', got.vals);
        OpsLowered(rest, env', full, objects, k', want.vals, got.vals, want.mem);
      }
    }
  }

  /** Unless a value carries a made-up name, lowering an accepted schema preserves its result, its memory and its
      undefined behaviour. */
  lemma LoweringPreservesMeaning(s: Schema, args: Values, mem: Memory)
    requires Constructed(s) && Accepted(s) && NoClash(s) && TypedAs(InputEnv(s.inputs), args)
    ensures RunLlvm(s, args, mem) == RunSchema(s, args, mem)
  {
    var env := InputEnv(s.inputs);
    assert forall i :: 0 <= i < |s.operations| ==> OpConstructed(s.operations[i]);
    OpsRun(s.operations, env, ObjectMap(s.objects), args, mem);
    OpsLowered(s.operations, env, DefineAll(env, s.operations), ObjectMap(s.objects), 0, args, args, mem);
  }

  // ---- clashes ----

  function Assigned(insts: seq<Inst>): set<string>
    decreases |insts|
  {
    if insts == [] then {} else (if insts[0].LStore? then {} else {insts[0].dst}) + Assigned(insts[1..])
  }

  /** LLVM's rule for local names: none is assigned twice, and none that is already a parameter. */
  predicate SingleAssignment(names: set<string>, insts: seq<Inst>)
    decreases |insts|
  {
    insts != [] ==>
      if insts[0].LStore? then SingleAssignment(names, insts[1..])
      else insts[0].dst !in names && SingleAssignment(names + {insts[0].dst}, insts[1..])
  }

  lemma {:induction false} SingleAssignmentConcat(names: set<string>, a: seq<Inst>, b: seq<Inst>)
    ensures Assigned(a + b) == Assigned(a) + Assigned(b)
    ensures SingleAssignment(names, a + b) <==> SingleAssignment(names, a) && SingleAssignment(names + Assigned(a), b)
    decreases |a|
  {
    if a == [] {
      assert a + b == b && names + Assigned(a) == names;
    } else {
      assert (a + b)[1..] == a[1..] + b;
      var here := if a[0].LStore? then names else names + {a[0].dst};
      assert here + Assigned(a[1..]) == names + Assigned(a);
      SingleAssignmentConcat(here, a[1..], b);
    }
  }

  lemma OneAssignment(names: set<string>, i: Inst)
    ensures Assigned([i]) == if i.LStore? then {} else {i.dst}
    ensures SingleAssignment(names, [i]) <==> i.LStore? || i.dst !in names
  {
    assert [i][1..] == [];
  }

  lemma AddressAssigns(names: set<string>, a: AddressSpec, o: MemoryObject, k: nat)
    requires o.elementBits / 8 != 0
    ensures Assigned(LowerAddress(a, o, k).0) == MadeUp(a, k)
    ensures SingleAssignment(names, LowerAddress(a, o, k).0) <==> MadeUp(a, k) !! names
  {
    var insts := LowerAddress(a, o, k).0;
    if |insts| == 1 { OneAssignment(names, insts[0]); }
    else if |insts| == 2 {
      NamesDiffer(k, k);
      assert insts == [insts[0]] + [insts[1]];
      OneAssignment(names, insts[0]);
      OneAssignment(names + {AdjustedName(k)}, insts[1]);
      SingleAssignmentConcat(names, [insts[0]], [insts[1]]);
    }
  }

  function ResultName(op: Operation): set<string> { if op.Store? then {} else {op.result.name} }

  lemma OpAssigns(names: set<string>, op: Operation, env: Env, full: Env, objects: Objects, k: nat)
    requires Admits(env, objects, op) && Agrees(env, full)
    ensures Assigned(LowerOp(op, full, objects, k)) == MadeUpBy(op, k) + ResultName(op)
    ensures SingleAssignment(names, LowerOp(op, full, objects, k))
            <==> MadeUpBy(op, k) !! names && ResultName(op) !! names + MadeUpBy(op, k)
  {
    var insts := LowerOp(op, full, objects, k);
    if Touches(op) {
      var o := objects[op.object_];
      AddressAssigns(names, op.address, o, k);
      var address, last := LowerAddress(op.address, o, k).0, insts[|insts| - 1];
      assert insts == address + [last];
      OneAssignment(names + MadeUp(op.address, k), last);
      SingleAssignmentConcat(names, address, [last]);
    } else {
      assert insts == [insts[0]];
      OneAssignment(names, insts[0]);
    }
  }

  /** Set algebra of one operation: `made` and `result` join the names already there. */
  lemma ClashStep(names: set<string>, env: set<string>, full: set<string>, made: set<string>, result: set<string>,
      rest: set<string>)
    requires env <= names && env + result <= full && result !! env && made !! names - env
    ensures (made !! names && result !! names + made && rest !! full
            && names + (made + result) - (env + result) !! full)
            <==> made + rest !! full && names - env !! full
  {
    if made + rest !! full && names - env !! full {
      assert result !! names && made !! names;
      assert names + (made + result) - (env + result) !! full;
    }
    if made !! names && result !! names + made && names + (made + result) - (env + result) !! full {
      assert names - env <= names + (made + result) - (env + result);
      assert made <= names + (made + result) - (env + result);
    }
  }

  /** The lowering of the first operation, and of the rest with its names taken. */
  lemma ClashInFirst(names: set<string>, ops: seq<Operation>, env: Env, full: Env, objects: Objects, k: nat, k': nat)
    requires ops != [] && Admits(env, objects, ops[0]) && Agrees(env, full)
    requires k' == if Touches(ops[0]) then k + 1 else k
    ensures var made, result := MadeUpBy(ops[0], k'), ResultName(ops[0]);
            SingleAssignment(names, LowerOps(ops, full, objects, k))
            <==> (made !! names && result !! names + made
                  && SingleAssignment(names + (made + result), LowerOps(ops[1..], full, objects, k')))
  {
    OpAssigns(names, ops[0], env, full, objects, k');
    SingleAssignmentConcat(names, LowerOp(ops[0], full, objects, k'), LowerOps(ops[1..], full, objects, k'));
  }

  lemma {:induction false} ClashInOps(names: set<string>, ops: seq<Operation>, env: Env, full: Env, objects: Objects,
      k: nat)
    requires Ssa(env, objects, ops) && full == DefineAll(env, ops) && env.Keys <= names
    requires forall n :: n in names && n !in env ==> !Later(n, k)
    ensures SingleAssignment(names, LowerOps(ops, full, objects, k))
            <==> MadeUpByAll(ops, k) !! full.Keys && names - env.Keys !! full.Keys
    decreases |ops|
  {
    if ops != [] {
      var op, rest := ops[0], ops[1..];
      var k' := if Touches(op) then k + 1 else k;
      var env' := S.Define(env, op);
      DefineAllGrows(env, objects, ops);
      DefineAllGrows(env', objects, rest);
      var made, result := MadeUpBy(op, k'), ResultName(op);
      ClashInFirst(names, ops, env, full, objects, k, k');
      NamesGrow(names, op, env, k, k');
      ClashInOps(names + (made + result), rest, env', full, objects, k');
      assert env'.Keys == env.Keys + result;
      ClashStep(names, env.Keys, full.Keys, made, result, MadeUpByAll(rest, k'));
    }
  }

  lemma NamesGrow(names: set<string>, op: Operation, env: Env, k: nat, k': nat)
    requires forall n :: n in names && n !in env ==> !Later(n, k)
    requires k' == if Touches(op) then k + 1 else k
    ensures MadeUpBy(op, k') !! names - env.Keys
    ensures forall n :: n in names + (MadeUpBy(op, k') + ResultName(op)) && n !in S.Define(env, op) ==> !Later(n, k')
  {
    if Touches(op) { assert Later(AddressName(k'), k) && Later(AdjustedName(k'), k); }
    forall n | n in names + (MadeUpBy(op, k') + ResultName(op)) && n !in S.Define(env, op) ensures !Later(n, k') {
      if n in MadeUpBy(op, k') {
        if Later(n, k') { LaterDiffers(n, k'); }
      } else {
        StillNotLater(n, k, k');
      }
    }
  }

  /** The lowering of an accepted schema is a well-formed LLVM function exactly when no value carries a made-up name. */
  lemma LoweringIsSingleAssignmentIff(s: Schema)
    requires Accepted(s)
    ensures SingleAssignment(InputEnv(s.inputs).Keys, Lowered(s)) <==> NoClash(s)
  {
    var env := InputEnv(s.inputs);
    ClashInOps(env.Keys, s.operations, env, DefineAll(env, s.operations), ObjectMap(s.objects), 0);
    assert env.Keys - env.Keys == {};
  }

  /** A parameter named `q` beside an access whose address needs the made-up name `q`. */
  function ClashingSchema(): Schema {
    Schema([Value("q", Ptr)], [Value("r", I64)], [Load(Value("r", I64), "o", AddressSpec("q", None, 1, 8))], Some("r"),
           [MemoryObject("o", "q", 64)], true)
  }

  lemma ClashingSsa(s: Schema, op: Operation)
    requires s == ClashingSchema() && op == s.operations[0]
    ensures InputEnv(s.inputs) == map["q" := Ptr] && ObjectMap(s.objects) == map["o" := s.objects[0]]
    ensures Ssa(InputEnv(s.inputs), ObjectMap(s.objects), s.operations)
    ensures DefineAll(InputEnv(s.inputs), s.operations) == map["q" := Ptr, "r" := I64]
  {
    assert s.operations == [op] && [op][1..] == [] && s.inputs[..0] == [] && s.objects[..0] == [];
    assert InputEnv([]) == map[] && ObjectMap([]) == map[];
    assert Refs(op) == ["q"];
    assert Admits(InputEnv(s.inputs), ObjectMap(s.objects), op);
  }

  lemma ClashingLive(s: Schema, op: Operation)
    requires s == ClashingSchema() && op == s.operations[0]
    ensures AllLive(s) && "o" in UsedObjects(s.operations)
  {
    assert s.operations == [op] && [op][..0] == [];
    var g := DependencyGraph(s.operations);
    assert DependencyGraph([]) == map[] && Refs(op) == ["q"];
    assert Refs(op)[0] in RefSet(op) && g == map["r" := RefSet(op)];
    C.RootIsReachable(g, Roots(s), "r");
    C.DependencyIsReachable(g, Roots(s), "r", "q");
    assert s.operations[0].object_ in UsedObjects(s.operations);
  }

  lemma ClashingNames(s: Schema, op: Operation)
    requires s == ClashingSchema() && op == s.operations[0]
    ensures "q" in MadeUpByAll(s.operations, 0)
  {
    assert s.operations == [op] && [op][1..] == [];
    assert MadeUpByAll(s.operations, 0) == MadeUpBy(op, 1) + MadeUpByAll([], 1);
  }

  /** Validation accepts a schema that lowers to an ill-formed function. */
  lemma AcceptedSchemaCanClash(s: Schema)
    requires s == ClashingSchema()
    ensures Constructed(s) && Accepted(s) && !SingleAssignment(InputEnv(s.inputs).Keys, Lowered(s))
  {
    var op := s.operations[0];
    ClashingSsa(s, op);
    ClashingLive(s, op);
    ClashingNames(s, op);
    LoweringIsSingleAssignmentIff(s);
  }
}
