/** Typed straight-line kernel schemas and their validation. */
module KernelSchema {
  import opened Wrappers
  import opened Closure

  datatype Ty = I1 | I8 | I16 | I32 | I64 | Ptr

  function Bits(t: Ty): nat {
    match t
    case I1 => 1
    case I8 => 8
    case I16 => 16
    case I32 => 32
    case I64 => 64
    case Ptr => 64
  }

  datatype Value = Value(name: string, ty: Ty)

  datatype Operand = Ref(name: string) | Const(value: int)

  datatype Opcode = Add | Sub | Mul | UDiv | SDiv | URem | SRem | Shl | LShr | AShr | And | Or | Xor

  datatype Predicate = Eq | Ne | Ugt | Uge | Ult | Ule | Sgt | Sge | Slt | Sle

  datatype CastOp = Trunc | ZExt | SExt

  datatype AddressSpec = AddressSpec(base: string, index: Option<string>, scale: int, displacement: int)

  datatype Operation =
    | Binary(result: Value, opcode: Opcode, x: Operand, y: Operand)
    | Icmp(result: Value, predicate_: Predicate, x: Operand, y: Operand)
    | Cast(result: Value, cast: CastOp, operand: string)
    | Select(result: Value, condition: string, x: Operand, y: Operand)
    | Load(result: Value, object_: string, address: AddressSpec)
    | Store(value: string, object_: string, address: AddressSpec)

  datatype MemoryObject = MemoryObject(name: string, base: string, elementBits: int)

  datatype Schema = Schema(inputs: seq<Value>, outputs: seq<Value>, operations: seq<Operation>,
      returnValue: Option<string>,
                           objects: seq<MemoryObject>, hasMemory: bool)

  /** What the constructors of operations, addresses and memory objects enforce before a schema exists. */
  predicate Constructed(s: Schema) {
    && (forall i :: 0 <= i < |s.operations| ==>
         match s.operations[i]
         case Store(_, _, a) => a.scale in {1, 2, 4, 8}
         case Load(r, _, a) => r.ty != Ptr && a.scale in {1, 2, 4, 8}
         case Icmp(r, _, _, _) => r.ty == I1
         case op => op.result.ty != Ptr)
    && (forall i :: 0 <= i < |s.objects| ==> s.objects[i].elementBits > 0)
  }

  // ---- references and results ----

  function OperandRefs(o: Operand): seq<string> { if o.Ref? then [o.name] else [] }

  function AddressRefs(a: AddressSpec): seq<string> { [a.base] + if a.index.Some? then [a.index.value] else [] }

  function Refs(op: Operation): seq<string> {
    match op
    case Binary(_, _, x, y) => OperandRefs(x) + OperandRefs(y)
    case Icmp(_, _, x, y) => OperandRefs(x) + OperandRefs(y)
    case Cast(_, _, operand) => [operand]
    case Select(_, c, x, y) => [c] + (OperandRefs(x) + OperandRefs(y))
    case Load(_, _, a) => AddressRefs(a)
    case Store(v, _, a) => [v] + AddressRefs(a)
  }

  predicate Touches(op: Operation) { op.Load? || op.Store? }

  // ---- typing ----

  type Env = map<string, Ty>
  type Objects = map<string, MemoryObject>

  /** A literal fits any type; a reference must have the expected one. */
  predicate OperandTyped(o: Operand, expected: Ty, env: Env) {
    o.Ref? ==> o.name in env && env[o.name] == expected
  }

  /** The type of a comparison is the type of its first reference. */
  function ComparedType(x: Operand, y: Operand, env: Env): Option<Ty> {
    if x.Ref? && x.name in env then Some(env[x.name])
    else if !x.Ref? && y.Ref? && y.name in env then Some(env[y.name])
    else None
  }

  predicate AddressTyped(a: AddressSpec, o: MemoryObject, env: Env) {
    var bytes := o.elementBits / 8;
    && a.base == o.base && a.base in env && env[a.base] == Ptr
    && o.elementBits % 8 == 0 && bytes > 0
    && (a.index.Some? ==> a.index.value in env && env[a.index.value] == I64 && a.scale == bytes)
    && a.displacement % bytes == 0
  }

  predicate WellTyped(op: Operation, env: Env, objects: Objects) {
    match op
    case Binary(r, _, x, y) => OperandTyped(x, r.ty, env) && OperandTyped(y, r.ty, env)
    case Icmp(_, _, x, y) =>
      var t := ComparedType(x, y, env);
      t.Some? && t.value != Ptr && OperandTyped(x, t.value, env) && OperandTyped(y, t.value, env)
    case Cast(r, c, operand) =>
      && operand in env && env[operand] != Ptr
      && if c.Trunc? then Bits(r.ty) < Bits(env[operand]) else Bits(r.ty) > Bits(env[operand])
    case Select(r, c, x, y) =>
      c in env && env[c] == I1 && OperandTyped(x, r.ty, env) && OperandTyped(y, r.ty, env)
    case Load(r, o, a) => o in objects && AddressTyped(a, objects[o], env) && Bits(r.ty) == objects[o].elementBits
    case Store(v, o, a) =>
      && o in objects && AddressTyped(a, objects[o], env)
      && v in env && env[v] != Ptr && Bits(env[v]) == objects[o].elementBits
  }

  function Define(env: Env, op: Operation): Env {
    if op.Store? then env else env[op.result.name := op.result.ty]
  }

  /** Every reference is to an earlier value of the right type, and every result is a new name. */
  predicate Admits(env: Env, objects: Objects, op: Operation) {
    && (forall i :: 0 <= i < |Refs(op)| ==> Refs(op)[i] in env)
    && WellTyped(op, env, objects)
    && (!op.Store? ==> op.result.name !in env)
  }

  predicate Ssa(env: Env, objects: Objects, ops: seq<Operation>)
    decreases |ops|
  {
    ops != [] ==> Admits(env, objects, ops[0]) && Ssa(Define(env, ops[0]), objects, ops[1..])
  }

  function DefineAll(env: Env, ops: seq<Operation>): Env
    decreases |ops|
  {
    if ops == [] then env else DefineAll(Define(env, ops[0]), ops[1..])
  }

  function InputEnv(inputs: seq<Value>): Env {
    if inputs == [] then map[] else
    var last := inputs[|inputs| - 1];
    InputEnv(inputs[..|inputs| - 1])[last.name := last.ty]
  }

  function ObjectMap(objects: seq<MemoryObject>): Objects {
    if objects == [] then map[] else
    var last := objects[|objects| - 1];
    ObjectMap(objects[..|objects| - 1])[last.name := last]
  }

  predicate DistinctInputs(inputs: seq<Value>) {
    forall i, j :: 0 <= i < j < |inputs| ==> inputs[i].name != inputs[j].name
  }

  predicate DistinctObjects(objects: seq<MemoryObject>) {
    forall i, j :: 0 <= i < j < |objects| ==> objects[i].name != objects[j].name
  }

  // ---- liveness of results ----

  function RefSet(op: Operation): set<string> { set i | 0 <= i < |Refs(op)| :: Refs(op)[i] }

  function DependencyGraph(ops: seq<Operation>): Graph {
    if ops == [] then map[] else
    var g := DependencyGraph(ops[..|ops| - 1]);
    var op := ops[|ops| - 1];
    if op.Store? then g else g[op.result.name := RefSet(op)]
  }

  function EffectRoots(ops: seq<Operation>): set<string> {
    if ops == [] then {} else
    EffectRoots(ops[..|ops| - 1]) + if ops[|ops| - 1].Store? then RefSet(ops[|ops| - 1]) else {}
  }

  function Roots(s: Schema): set<string> {
    EffectRoots(s.operations) + if s.returnValue.Some? then {s.returnValue.value} else {}
  }

  function UsedObjects(ops: seq<Operation>): set<string> {
    set i | 0 <= i < |ops| && Touches(ops[i]) :: ops[i].object_
  }

  ghost predicate Live(s: Schema, n: string) { Reachable(DependencyGraph(s.operations), Roots(s), n) }

  // ---- the accepted schemas ----

  predicate ShapeOk(s: Schema) {
    && s.operations != [] && |s.outputs| <= 1
    && (s.outputs != [] ==> s.returnValue.Some? && s.returnValue.value != "")
    && (s.outputs == [] ==> s.returnValue.None?)
    && (s.hasMemory <==> exists i :: 0 <= i < |s.operations| && Touches(s.operations[i]))
    && DistinctInputs(s.inputs) && DistinctObjects(s.objects)
  }

  predicate ReturnOk(s: Schema)
    requires s.returnValue.Some? ==> s.outputs != []
  {
    s.returnValue.Some? ==>
      var env := DefineAll(InputEnv(s.inputs), s.operations);
      && s.returnValue.value in env
      && s.outputs[0].name == s.returnValue.value && s.outputs[0].ty == env[s.returnValue.value]
  }

  ghost predicate AllLive(s: Schema) {
    && (forall i :: 0 <= i < |s.operations| && !s.operations[i].Store? ==> Live(s, s.operations[i].result.name))
    && (forall i :: 0 <= i < |s.inputs| ==> Live(s, s.inputs[i].name))
  }

  ghost predicate Accepted(s: Schema) {
    && ShapeOk(s)
    && Ssa(InputEnv(s.inputs), ObjectMap(s.objects), s.operations)
    && ObjectMap(s.objects).Keys <= UsedObjects(s.operations)
    && ReturnOk(s)
    && AllLive(s)
  }

  // ---- the validator ----

  lemma {:induction false} SsaSnoc(env: Env, objects: Objects, ops: seq<Operation>, i: nat)
    requires i < |ops|
    ensures DefineAll(env, ops[..i + 1]) == Define(DefineAll(env, ops[..i]), ops[i])
    ensures Ssa(env, objects, ops[..i + 1])
            <==> Ssa(env, objects, ops[..i]) && Admits(DefineAll(env, ops[..i]), objects, ops[i])
    decreases i
  {
    var p, q := ops[..i], ops[..i + 1];
    if i > 0 {
      SsaSnoc(Define(env, ops[0]), objects, ops[1..], i - 1);
      assert q[1..] == ops[1..][..i] && p[1..] == ops[1..][..i - 1] && ops[1..][i - 1] == ops[i];
    } else {
      assert q[1..] == [];
    }
  }

  lemma {:induction false} SsaPrefix(env: Env, objects: Objects, ops: seq<Operation>, i: nat)
    requires i <= |ops| && Ssa(env, objects, ops)
    ensures Ssa(env, objects, ops[..i])
    decreases |ops| - i
  {
    if i == |ops| { assert ops[..i] == ops; } else {
      SsaPrefix(env, objects, ops, i + 1);
      SsaSnoc(env, objects, ops, i);
    }
  }

  /** What the pass has gathered after some operations. */
  ghost predicate Gathered(s: Schema, objects: Objects, ops: seq<Operation>, env: Env, dependencies: Graph,
      roots: set<string>, used: set<string>)
  {
    && Ssa(InputEnv(s.inputs), objects, ops)
    && env == DefineAll(InputEnv(s.inputs), ops)
    && dependencies == DependencyGraph(ops) && roots == EffectRoots(ops) && used == UsedObjects(ops)
  }

  lemma GatherMore(s: Schema, objects: Objects, i: nat, env: Env, dependencies: Graph, roots: set<string>,
      used: set<string>)
    requires i < |s.operations| && Gathered(s, objects, s.operations[..i], env, dependencies, roots, used)
    ensures var op := s.operations[i];
            if Admits(env, objects, op) then
              Gathered(s, objects, s.operations[..i + 1], Define(env, op),
                       if op.Store? then dependencies else dependencies[op.result.name := RefSet(op)],
                       roots + (if op.Store? then RefSet(op) else {}),
                           used + (if Touches(op) then {op.object_} else {}))
            else !Ssa(InputEnv(s.inputs), objects, s.operations)
  {
    var start, p, q := InputEnv(s.inputs), s.operations[..i], s.operations[..i + 1];
    SsaSnoc(start, objects, s.operations, i);
    assert q[..i] == p;
    if Admits(env, objects, s.operations[i]) {
      assert UsedObjects(q) == UsedObjects(p) + (if Touches(q[i]) then {q[i].object_} else {}) by {
        assert forall k :: 0 <= k < i ==> q[k] == p[k];
      }
    } else if Ssa(start, objects, s.operations) {
      SsaPrefix(start, objects, s.operations, i + 1);
    }
  }

  /** The single pass over the operations: either the first offence, or the environment, dependencies and roots. */
  method CheckOperations(s: Schema, objects: Objects)
    returns (ok: bool, env: Env, dependencies: Graph, roots: set<string>, used: set<string>)
    requires objects == ObjectMap(s.objects)
    ensures ok <==> Ssa(InputEnv(s.inputs), objects, s.operations)
    ensures ok ==> Gathered(s, objects, s.operations, env, dependencies, roots, used)
  {
    env, dependencies, roots, used := InputEnv(s.inputs), map[], {}, {};
    for i := 0 to |s.operations|
      invariant Gathered(s, objects, s.operations[..i], env, dependencies, roots, used)
    {
      var op := s.operations[i];
      GatherMore(s, objects, i, env, dependencies, roots, used);
      if !Admits(env, objects, op) { return false, env, dependencies, roots, used; }
      if op.Store? {
        roots := roots + RefSet(op);
      } else {
        dependencies := dependencies[op.result.name := RefSet(op)];
        env := env[op.result.name := op.result.ty];
      }
      if Touches(op) { used := used + {op.object_}; }
    }
    assert s.operations[..|s.operations|] == s.operations;
    ok := true;
  }

  method CheckReturn(s: Schema, env: Env) returns (error: Option<string>)
    requires s.returnValue.Some? ==> s.outputs != []
    requires env == DefineAll(InputEnv(s.inputs), s.operations)
    ensures error.None? <==> ReturnOk(s)
    ensures error.Some? ==> s.returnValue.Some?
    ensures error.Some? ==>
              error.value == if s.returnValue.value !in env then "unknown return value" else "output mismatch"
  {
    error := None;
    if s.returnValue.Some? {
      var name := s.returnValue.value;
      if name !in env { return Some("unknown return value"); }
      if s.outputs[0].name != name || s.outputs[0].ty != env[name] { return Some("output mismatch"); }
    }
  }

  method CheckLive(s: Schema, dependencies: Graph, roots: set<string>) returns (error: Option<string>)
    requires dependencies == DependencyGraph(s.operations) && roots == Roots(s)
    ensures error.None? <==> AllLive(s)
    ensures error.Some? ==> error == Some(
              if exists i :: 0 <= i < |s.operations| && !s.operations[i].Store? && !Live(s, s.operations[i].result.name)
              then "dead instruction results" else "unused inputs")
  {
    var live := TransitiveDependencies(roots, dependencies);
    assert forall n :: n in live <==> Live(s, n);
    if exists i :: 0 <= i < |s.operations| && !s.operations[i].Store? && s.operations[i].result.name !in live {
      return Some("dead instruction results");
    }
    if exists i :: 0 <= i < |s.inputs| && s.inputs[i].name !in live { return Some("unused inputs"); }
    error := None;
  }

  /** Construction of a schema succeeds exactly on the accepted schemas; otherwise it names the kind of offence. */
  method Validate(s: Schema) returns (error: Option<string>)
    requires Constructed(s)
    ensures error.None? <==> Accepted(s)
    ensures error == Some("shape") <==> !ShapeOk(s)
    ensures error == Some("operation") <==> ShapeOk(s) && !Ssa(InputEnv(s.inputs), ObjectMap(s.objects), s.operations)
    ensures error == Some("unused memory objects") ==> !(ObjectMap(s.objects).Keys <= UsedObjects(s.operations))
  {
    if !ShapeOk(s) { return Some("shape"); }
    var objects := ObjectMap(s.objects);
    var ok, env, dependencies, roots, used := CheckOperations(s, objects);
    if !ok { return Some("operation"); }
    if !(objects.Keys <= used) { return Some("unused memory objects"); }
    error := CheckReturn(s, env);
    if error.Some? { return; }
    error := CheckLive(s, dependencies, roots + if s.returnValue.Some? then {s.returnValue.value} else {});
  }
}
