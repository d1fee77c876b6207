/**
 The rules a kernel schema keeps, said about its values, instructions and objects directly; validation accepts exactly
 the schemas that keep them. The rules about casts speak of the values a cast keeps or loses.
 */
module KernelRules {
  import opened Wrappers
  import opened KernelSchema
  import opened KernelLowering
  import opened Closure
  import Laws = OperatorLaws
  import Bv = Semantics

  // ---- casts ----

  /** Two values of the source type have one result. */
  ghost predicate Loses(c: CastOp, from: Ty, to: Ty) {
    exists a: nat, b: nat :: a < b < Modulus(from) && Convert(c, from, to, a) == Convert(c, from, to, b)
  }

  ghost predicate KeepsValues(c: CastOp, from: Ty, to: Ty) {
    forall a: nat :: a < Modulus(from) ==> Convert(c, from, to, a) == a
  }

  ghost predicate KeepsSigned(c: CastOp, from: Ty, to: Ty) {
    forall a: nat :: a < Modulus(from) ==> SignedOf(to, Convert(c, from, to, a)) == SignedOf(from, a)
  }

  /** The result type has a value the source type does not have. */
  ghost predicate Roomier(from: Ty, to: Ty) { exists b :: IsValue(to, b) && !IsValue(from, b) }

  ghost predicate IsValue(t: Ty, b: nat) { b < Modulus(t) }

  /** A truncation loses values; an extension keeps every value, or signed value, and makes room for more. */
  ghost predicate CastFits(c: CastOp, from: Ty, to: Ty) {
    match c
    case Trunc => Loses(c, from, to)
    case ZExt => KeepsValues(c, from, to) && Roomier(from, to)
    case SExt => KeepsSigned(c, from, to) && Roomier(from, to)
  }

  lemma ModulusIsPower(t: Ty)
    ensures Modulus(t) == Bv.Pow2(Bits(t)) && Modulus(t) == 2 * Bv.Pow2(Bits(t) - 1)
  {
    Laws.Pow2Byte();
    Laws.Pow2Words();
    Laws.Pow2Sum(8, 8);
  }

  lemma WidthsOrder(s: Ty, t: Ty)
    ensures Bits(s) < Bits(t) <==> Modulus(s) < Modulus(t)
    ensures Bits(s) == Bits(t) <==> Modulus(s) == Modulus(t)
  {}

  /** Signed values lie in the two's complement range and stand for the same residue. */
  lemma SignedOfMeans(t: Ty, a: nat)
    requires a < Modulus(t)
    ensures SignedOf(t, a) == Bv.Signed(Bv.Bv(Bits(t), a))
  {
    ModulusIsPower(t);
  }

  lemma CastLoses(from: Ty, to: Ty)
    ensures Loses(Trunc, from, to) <==> Bits(to) < Bits(from)
  {
    WidthsOrder(to, from);
    if Bits(to) < Bits(from) {
      var m := Modulus(to);
      Laws.DivisionIs(0, 0, 0, m);
      Laws.DivisionIs(m, 1, 0, m);
      assert Convert(Trunc, from, to, 0) == Convert(Trunc, from, to, m);
    } else {
      forall a: nat, b: nat | a < b < Modulus(from) ensures Convert(Trunc, from, to, a) != Convert(Trunc, from, to, b) {
        Laws.DivisionIs(a, 0, a, Modulus(to));
        Laws.DivisionIs(b, 0, b, Modulus(to));
      }
    }
  }

  lemma WiderIsRoomier(from: Ty, to: Ty)
    ensures Roomier(from, to) <==> Bits(to) > Bits(from)
  {
    WidthsOrder(from, to);
    if Bits(to) > Bits(from) { assert IsValue(to, Modulus(from)) && !IsValue(from, Modulus(from)); }
  }

  lemma WiderKeepsValues(from: Ty, to: Ty)
    requires Bits(to) > Bits(from)
    ensures KeepsValues(ZExt, from, to)
  {
    WidthsOrder(from, to);
    forall a: nat | a < Modulus(from) ensures Convert(ZExt, from, to, a) == a {
      Laws.DivisionIs(a, 0, a, Modulus(to));
    }
  }

  lemma WiderKeepsSigned(from: Ty, to: Ty)
    requires Bits(to) > Bits(from)
    ensures KeepsSigned(SExt, from, to)
  {
    WidthsOrder(from, to);
    forall a: nat | a < Modulus(from) ensures SignedOf(to, Convert(SExt, from, to, a)) == SignedOf(from, a) {
      SignExtends(from, to, a);
    }
  }

  lemma SignExtends(from: Ty, to: Ty, a: nat)
    requires Bits(to) > Bits(from) && a < Modulus(from)
    ensures SignedOf(to, Convert(SExt, from, to, a)) == SignedOf(from, a)
  {
    var s, m := SignedOf(from, a), Modulus(to);
    assert 2 * Modulus(from) <= m;
    if s >= 0 { Laws.DivisionIs(s, 0, s, m); } else { Laws.DivisionIs(s, -1, s + m, m); }
  }

  /** The width test of the validator decides what a cast does to values. */
  lemma CastFitsIff(c: CastOp, from: Ty, to: Ty)
    ensures CastFits(c, from, to) <==> if c.Trunc? then Bits(to) < Bits(from) else Bits(to) > Bits(from)
  {
    match c
    case Trunc => CastLoses(from, to);
    case ZExt =>
      WiderIsRoomier(from, to);
      if Bits(to) > Bits(from) { WiderKeepsValues(from, to); }
    case SExt =>
      WiderIsRoomier(from, to);
      if Bits(to) > Bits(from) { WiderKeepsSigned(from, to); }
  }

  // ---- names and their types ----

  /** Before instruction `i` the name stands for an input or an earlier result of this type. */
  ghost predicate Known(s: Schema, i: nat, name: string, ty: Ty) {
    || Value(name, ty) in s.inputs
    || exists j :: 0 <= j < i && j < |s.operations| && !s.operations[j].Store?
                   && s.operations[j].result == Value(name, ty)
  }

  /** The instruction refers to the name. */
  ghost predicate Mentions(op: Operation, name: string) {
    match op
    case Binary(_, _, x, y) => x == Ref(name) || y == Ref(name)
    case Icmp(_, _, x, y) => x == Ref(name) || y == Ref(name)
    case Cast(_, _, n) => n == name
    case Select(_, c, x, y) => c == name || x == Ref(name) || y == Ref(name)
    case Load(_, _, a) => a.base == name || a.index == Some(name)
    case Store(v, _, a) => v == name || a.base == name || a.index == Some(name)
  }

  /** Literals fit every type, references the one they have. */
  ghost predicate Fits(s: Schema, i: nat, o: Operand, ty: Ty) { o.Ref? ==> Known(s, i, o.name, ty) }

  /** The address lies a whole number of elements away from the base of the object. */
  ghost predicate Reaches(s: Schema, i: nat, a: AddressSpec, o: MemoryObject) {
    exists bytes: nat ::
      && bytes > 0 && o.elementBits == 8 * bytes
      && a.base == o.base && Known(s, i, a.base, Ptr)
      && (exists n :: a.displacement == Laws.Times(n, bytes))
      && (a.index.Some? ==> Known(s, i, a.index.value, I64) && a.scale == bytes)
  }

  /** An integer type whose values are exactly those of an element of the object. */
  ghost predicate HoldsElement(o: MemoryObject, ty: Ty) {
    o.elementBits >= 0 && Modulus(ty) == Bv.Pow2(o.elementBits)
  }

  ghost predicate Typed(s: Schema, i: nat)
    requires i < |s.operations|
  {
    match s.operations[i]
    case Binary(r, _, x, y) => Fits(s, i, x, r.ty) && Fits(s, i, y, r.ty)
    case Icmp(_, _, x, y) => (x.Ref? || y.Ref?) && exists t :: t != Ptr && Fits(s, i, x, t) && Fits(s, i, y, t)
    case Cast(r, c, n) => exists t :: t != Ptr && Known(s, i, n, t) && CastFits(c, t, r.ty)
    case Select(r, c, x, y) => Known(s, i, c, I1) && Fits(s, i, x, r.ty) && Fits(s, i, y, r.ty)
    case Load(r, n, a) =>
      exists o :: o in s.objects && o.name == n && Reaches(s, i, a, o) && HoldsElement(o, r.ty)
    case Store(v, n, a) =>
      exists o, t :: o in s.objects && o.name == n && Reaches(s, i, a, o) && t != Ptr && Known(s, i, v, t)
                     && HoldsElement(o, t)
  }

  /** References are to known names of the right types, and a result is a new name. */
  ghost predicate WellPlaced(s: Schema, i: nat)
    requires i < |s.operations|
  {
    && (forall name :: Mentions(s.operations[i], name) ==> exists ty :: Known(s, i, name, ty))
    && Typed(s, i)
    && (!s.operations[i].Store? ==> forall ty :: !Known(s, i, s.operations[i].result.name, ty))
  }

  // ---- names and types as the pass keeps them ----

  ghost predicate Has(env: Env, name: string, ty: Ty) { name in env && env[name] == ty }

  ghost predicate EnvIs(s: Schema, i: nat, env: Env) {
    forall name, ty :: Has(env, name, ty) <==> Known(s, i, name, ty)
  }

  lemma {:induction false} InputEnvIs(inputs: seq<Value>, name: string, ty: Ty)
    requires DistinctInputs(inputs)
    ensures Has(InputEnv(inputs), name, ty) <==> Value(name, ty) in inputs
    decreases |inputs|
  {
    if inputs != [] {
      var front, last := inputs[..|inputs| - 1], inputs[|inputs| - 1];
      assert inputs == front + [last];
      InputEnvIs(front, name, ty);
      forall k | 0 <= k < |front| ensures front[k].name != last.name {
        assert inputs[k].name != inputs[|inputs| - 1].name;
      }
    }
  }

  lemma DefineKeepsEnv(s: Schema, i: nat, env: Env)
    requires i < |s.operations| && EnvIs(s, i, env)
    requires !s.operations[i].Store? ==> s.operations[i].result.name !in env
    ensures EnvIs(s, i + 1, KernelSchema.Define(env, s.operations[i]))
  {
    var op := s.operations[i];
    var next := KernelSchema.Define(env, op);
    forall name, ty ensures Has(next, name, ty) <==> Known(s, i + 1, name, ty) {
      assert Has(env, name, ty) <==> Known(s, i, name, ty);
      if Known(s, i + 1, name, ty) && !Known(s, i, name, ty) { assert !op.Store? && op.result == Value(name, ty); }
      if !op.Store? && op.result == Value(name, ty) { assert Known(s, i + 1, name, ty); }
    }
  }

  lemma {:induction false} ObjectsAre(objects: seq<MemoryObject>, name: string, o: MemoryObject)
    requires DistinctObjects(objects)
    ensures (name in ObjectMap(objects) && ObjectMap(objects)[name] == o) <==> o in objects && o.name == name
    decreases |objects|
  {
    if objects != [] {
      var front, last := objects[..|objects| - 1], objects[|objects| - 1];
      assert objects == front + [last];
      ObjectsAre(front, name, o);
      forall k | 0 <= k < |front| ensures front[k].name != last.name {
        assert objects[k].name != objects[|objects| - 1].name;
      }
    }
  }

  lemma MentionsIff(op: Operation, name: string)
    ensures name in Refs(op) <==> Mentions(op, name)
  {}

  // ---- one instruction ----

  lemma FitsIff(s: Schema, i: nat, env: Env, o: Operand, ty: Ty)
    requires EnvIs(s, i, env)
    ensures OperandTyped(o, ty, env) <==> Fits(s, i, o, ty)
  {}

  lemma ReachesIff(s: Schema, i: nat, env: Env, a: AddressSpec, o: MemoryObject)
    requires EnvIs(s, i, env) && o.elementBits > 0
    ensures AddressTyped(a, o, env) <==> Reaches(s, i, a, o)
  {
    var bytes := o.elementBits / 8;
    assert Known(s, i, a.base, Ptr) <==> Has(env, a.base, Ptr);
    if a.index.Some? { assert Known(s, i, a.index.value, I64) <==> Has(env, a.index.value, I64); }
    if AddressTyped(a, o, env) {
      assert a.displacement == Laws.Times(a.displacement / bytes, bytes);
      assert o.elementBits == 8 * bytes;
    }
    if Reaches(s, i, a, o) {
      var n :| a.displacement == Laws.Times(n, bytes);
      Laws.DivisionIs(a.displacement, n, 0, bytes);
    }
  }

  lemma HoldsElementIff(o: MemoryObject, ty: Ty)
    requires o.elementBits > 0
    ensures HoldsElement(o, ty) <==> Bits(ty) == o.elementBits
  {
    ModulusIsPower(ty);
    if Bits(ty) < o.elementBits { PowersDiffer(Bits(ty), o.elementBits); }
    if o.elementBits < Bits(ty) { PowersDiffer(o.elementBits, Bits(ty)); }
  }

  lemma PowersDiffer(a: nat, b: nat)
    requires a < b
    ensures Bv.Pow2(a) < Bv.Pow2(b)
  {
    Laws.Pow2Grows(a + 1, b);
  }

  lemma IcmpTypedIff(s: Schema, i: nat, env: Env, objects: Objects)
    requires i < |s.operations| && EnvIs(s, i, env) && s.operations[i].Icmp?
    ensures WellTyped(s.operations[i], env, objects) <==> Typed(s, i)
  {
    var x, y := s.operations[i].x, s.operations[i].y;
    forall t ensures OperandTyped(x, t, env) <==> Fits(s, i, x, t) { FitsIff(s, i, env, x, t); }
    forall t ensures OperandTyped(y, t, env) <==> Fits(s, i, y, t) { FitsIff(s, i, env, y, t); }
  }

  lemma AccessTypedIff(s: Schema, i: nat, env: Env, objects: Objects)
    requires i < |s.operations| && EnvIs(s, i, env) && Touches(s.operations[i])
    requires DistinctObjects(s.objects) && objects == ObjectMap(s.objects)
    requires forall k :: 0 <= k < |s.objects| ==> s.objects[k].elementBits > 0
    ensures WellTyped(s.operations[i], env, objects) <==> Typed(s, i)
  {
    var op := s.operations[i];
    forall o | o in s.objects
      ensures (AddressTyped(op.address, o, env) <==> Reaches(s, i, op.address, o))
              && forall t :: HoldsElement(o, t) <==> Bits(t) == o.elementBits
    {
      ReachesIff(s, i, env, op.address, o);
      forall t ensures HoldsElement(o, t) <==> Bits(t) == o.elementBits { HoldsElementIff(o, t); }
    }
    forall o ensures (op.object_ in objects && objects[op.object_] == o) <==> o in s.objects && o.name == op.object_ {
      ObjectsAre(s.objects, op.object_, o);
    }
    if op.object_ in objects { assert objects[op.object_] in s.objects; }
  }

  lemma CastTypedIff(s: Schema, i: nat, env: Env, objects: Objects)
    requires i < |s.operations| && EnvIs(s, i, env) && s.operations[i].Cast?
    ensures WellTyped(s.operations[i], env, objects) <==> Typed(s, i)
  {
    var op := s.operations[i];
    forall t ensures CastFits(op.cast, t, op.result.ty) <==>
                     if op.cast.Trunc? then Bits(op.result.ty) < Bits(t) else Bits(op.result.ty) > Bits(t)
    {
      CastFitsIff(op.cast, t, op.result.ty);
    }
    if op.operand in env { assert Has(env, op.operand, env[op.operand]); }
  }

  lemma TypedIff(s: Schema, i: nat, env: Env, objects: Objects)
    requires i < |s.operations| && EnvIs(s, i, env) && DistinctObjects(s.objects) && objects == ObjectMap(s.objects)
    requires forall k :: 0 <= k < |s.objects| ==> s.objects[k].elementBits > 0
    ensures WellTyped(s.operations[i], env, objects) <==> Typed(s, i)
  {
    match s.operations[i]
    case Icmp(_, _, _, _) => IcmpTypedIff(s, i, env, objects);
    case Cast(_, _, _) => CastTypedIff(s, i, env, objects);
    case Load(_, _, _) => AccessTypedIff(s, i, env, objects);
    case Store(_, _, _) => AccessTypedIff(s, i, env, objects);
    case Binary(r, _, x, y) =>
      FitsIff(s, i, env, x, r.ty);
      FitsIff(s, i, env, y, r.ty);
    case Select(r, c, x, y) =>
      FitsIff(s, i, env, x, r.ty);
      FitsIff(s, i, env, y, r.ty);
      assert Known(s, i, c, I1) <==> Has(env, c, I1);
  }

  lemma AdmitsIff(s: Schema, i: nat, env: Env, objects: Objects)
    requires i < |s.operations| && EnvIs(s, i, env) && DistinctObjects(s.objects) && objects == ObjectMap(s.objects)
    requires forall k :: 0 <= k < |s.objects| ==> s.objects[k].elementBits > 0
    ensures Admits(env, objects, s.operations[i]) <==> WellPlaced(s, i)
  {
    var op := s.operations[i];
    TypedIff(s, i, env, objects);
    forall name ensures name in env <==> exists ty :: Known(s, i, name, ty) {
      if name in env { assert Has(env, name, env[name]); }
    }
    forall name ensures name in Refs(op) <==> Mentions(op, name) { MentionsIff(op, name); }
    assert forall k :: 0 <= k < |Refs(op)| ==> Refs(op)[k] in Refs(op);
  }

  // ---- the whole schema ----

  /** Every instruction is well placed after those before it. */
  ghost predicate AllPlaced(s: Schema) { forall i :: 0 <= i < |s.operations| ==> WellPlaced(s, i) }

  ghost predicate ElementsPositive(s: Schema) {
    forall k :: 0 <= k < |s.objects| ==> s.objects[k].elementBits > 0
  }

  lemma {:induction false} SsaIff(s: Schema, i: nat)
    requires i <= |s.operations| && DistinctInputs(s.inputs) && DistinctObjects(s.objects) && ElementsPositive(s)
    ensures var env, p := InputEnv(s.inputs), s.operations[..i];
            && (Ssa(env, ObjectMap(s.objects), p) <==> forall k :: 0 <= k < i ==> WellPlaced(s, k))
            && (Ssa(env, ObjectMap(s.objects), p) ==> EnvIs(s, i, DefineAll(env, p)))
    decreases i
  {
    var start, objects := InputEnv(s.inputs), ObjectMap(s.objects);
    if i == 0 {
      forall name, ty ensures Has(start, name, ty) <==> Known(s, 0, name, ty) { InputEnvIs(s.inputs, name, ty); }
    } else {
      SsaIff(s, i - 1);
      SsaSnoc(start, objects, s.operations, i - 1);
      var env := DefineAll(start, s.operations[..i - 1]);
      if Ssa(start, objects, s.operations[..i - 1]) {
        AdmitsIff(s, i - 1, env, objects);
        if Admits(env, objects, s.operations[i - 1]) { DefineKeepsEnv(s, i - 1, env); }
      }
    }
  }

  /** A name the schema hands out: the returned one, or one a store refers to. */
  ghost predicate HandedOut(s: Schema, name: string) {
    s.returnValue == Some(name)
    || exists i :: 0 <= i < |s.operations| && s.operations[i].Store? && Mentions(s.operations[i], name)
  }

  /** The instruction that defines `user` refers to `name`. */
  ghost predicate Feeds(s: Schema, name: string, user: string) {
    exists i :: 0 <= i < |s.operations| && !s.operations[i].Store? && s.operations[i].result.name == user
                && Mentions(s.operations[i], name)
  }

  /** From a name that is handed out, each name feeds the one before it. */
  ghost predicate Chain(s: Schema, p: seq<string>) {
    p != [] && HandedOut(s, p[0]) && forall k :: 0 <= k < |p| - 1 ==> Feeds(s, p[k + 1], p[k])
  }

  ghost predicate Contributes(s: Schema, name: string) { exists p :: Chain(s, p) && p[|p| - 1] == name }

  /** No value is computed or passed in for nothing. */
  ghost predicate NothingIdle(s: Schema) {
    && (forall i :: 0 <= i < |s.operations| && !s.operations[i].Store? ==> Contributes(s, s.operations[i].result.name))
    && (forall i :: 0 <= i < |s.inputs| ==> Contributes(s, s.inputs[i].name))
  }

  /** Results have different names. */
  ghost predicate ResultsDiffer(ops: seq<Operation>) {
    forall i, j :: 0 <= i < j < |ops| && !ops[i].Store? && !ops[j].Store? ==> ops[i].result.name != ops[j].result.name
  }

  lemma PlacedResultsDiffer(s: Schema)
    requires AllPlaced(s)
    ensures ResultsDiffer(s.operations)
  {
    forall i, j | 0 <= i < j < |s.operations| && !s.operations[i].Store? && !s.operations[j].Store?
      ensures s.operations[i].result.name != s.operations[j].result.name
    {
      assert WellPlaced(s, j);
      assert Known(s, j, s.operations[i].result.name, s.operations[i].result.ty);
    }
  }

  lemma {:induction false} DependenciesIff(ops: seq<Operation>, name: string, user: string)
    requires ResultsDiffer(ops)
    ensures name in Dependencies(DependencyGraph(ops), user) <==>
            exists i :: 0 <= i < |ops| && !ops[i].Store? && ops[i].result.name == user && Mentions(ops[i], name)
    decreases |ops|
  {
    if ops != [] {
      var front, op := ops[..|ops| - 1], ops[|ops| - 1];
      assert ops == front + [op];
      DependenciesIff(front, name, user);
      MentionsIff(op, name);
      if !op.Store? {
        forall i | 0 <= i < |front| && !front[i].Store? ensures front[i].result.name != op.result.name {
          assert ops[i].result.name != ops[|ops| - 1].result.name;
        }
      }
      if i :| 0 <= i < |front| && !front[i].Store? && front[i].result.name == user && Mentions(front[i], name) {
        assert ops[i] == front[i];
      }
      if i :| 0 <= i < |ops| && !ops[i].Store? && ops[i].result.name == user && Mentions(ops[i], name) {
        assert i < |front| ==> ops[i] == front[i];
      }
    }
  }

  lemma {:induction false} EffectRootsIff(ops: seq<Operation>, name: string)
    ensures name in EffectRoots(ops) <==> exists i :: 0 <= i < |ops| && ops[i].Store? && Mentions(ops[i], name)
    decreases |ops|
  {
    if ops != [] {
      var front, op := ops[..|ops| - 1], ops[|ops| - 1];
      assert ops == front + [op];
      EffectRootsIff(front, name);
      MentionsIff(op, name);
      if i :| 0 <= i < |front| && front[i].Store? && Mentions(front[i], name) { assert ops[i] == front[i]; }
      if i :| 0 <= i < |ops| && ops[i].Store? && Mentions(ops[i], name) { assert i < |front| ==> ops[i] == front[i]; }
    }
  }

  lemma ChainIff(s: Schema, p: seq<string>)
    requires ResultsDiffer(s.operations)
    ensures Path(DependencyGraph(s.operations), Roots(s), p) <==> Chain(s, p)
  {
    if p != [] { EffectRootsIff(s.operations, p[0]); }
    forall k | 0 <= k < |p| - 1
      ensures p[k + 1] in Dependencies(DependencyGraph(s.operations), p[k]) <==> Feeds(s, p[k + 1], p[k])
    {
      DependenciesIff(s.operations, p[k + 1], p[k]);
    }
  }

  lemma LiveIff(s: Schema, name: string)
    requires ResultsDiffer(s.operations)
    ensures Live(s, name) <==> Contributes(s, name)
  {
    forall p ensures Path(DependencyGraph(s.operations), Roots(s), p) <==> Chain(s, p) { ChainIff(s, p); }
  }

  ghost predicate Accesses(op: Operation, object_: string) {
    match op
    case Load(_, o, _) => o == object_
    case Store(_, o, _) => o == object_
    case _ => false
  }

  ghost predicate Accessed(s: Schema, object_: string) {
    exists i :: 0 <= i < |s.operations| && Accesses(s.operations[i], object_)
  }

  /** Nothing is returned and no output declared, or the returned value is the declared output. */
  ghost predicate Returns(s: Schema) {
    match s.returnValue
    case None => s.outputs == []
    case Some(name) => name != "" && exists ty :: s.outputs == [Value(name, ty)] && Known(s, |s.operations|, name, ty)
  }

  ghost predicate NamesDiffer(s: Schema) {
    && (forall i, j :: 0 <= i < j < |s.inputs| ==> s.inputs[i].name != s.inputs[j].name)
    && (forall i, j :: 0 <= i < j < |s.objects| ==> s.objects[i].name != s.objects[j].name)
  }

  /** The rules of a schema. */
  ghost predicate WellFormed(s: Schema) {
    && s.operations != [] && NamesDiffer(s) && AllPlaced(s) && Returns(s) && NothingIdle(s)
    && (s.hasMemory <==> exists o :: Accessed(s, o))
    && forall k :: 0 <= k < |s.objects| ==> Accessed(s, s.objects[k].name)
  }

  lemma {:induction false} ObjectNames(objects: seq<MemoryObject>, name: string)
    ensures name in ObjectMap(objects) <==> exists k :: 0 <= k < |objects| && objects[k].name == name
    decreases |objects|
  {
    if objects != [] {
      var front := objects[..|objects| - 1];
      ObjectNames(front, name);
      if k :| 0 <= k < |front| && front[k].name == name { assert objects[k] == front[k]; }
      if k :| 0 <= k < |objects| && objects[k].name == name { assert k < |front| ==> objects[k] == front[k]; }
    }
  }

  lemma UsedIff(s: Schema)
    ensures ObjectMap(s.objects).Keys <= UsedObjects(s.operations) <==>
            forall k :: 0 <= k < |s.objects| ==> Accessed(s, s.objects[k].name)
  {
    forall name ensures name in UsedObjects(s.operations) <==> Accessed(s, name) {}
    forall name ensures name in ObjectMap(s.objects) <==>
                        exists k :: 0 <= k < |s.objects| && s.objects[k].name == name
    {
      ObjectNames(s.objects, name);
    }
    forall k | 0 <= k < |s.objects| ensures s.objects[k].name in ObjectMap(s.objects) {}
  }

  lemma MemoryIff(s: Schema)
    ensures (exists i :: 0 <= i < |s.operations| && Touches(s.operations[i])) <==> exists o :: Accessed(s, o)
  {
    if i :| 0 <= i < |s.operations| && Touches(s.operations[i]) {
      assert Accesses(s.operations[i], s.operations[i].object_) && Accessed(s, s.operations[i].object_);
    }
  }

  lemma ReturnsIff(s: Schema)
    requires EnvIs(s, |s.operations|, DefineAll(InputEnv(s.inputs), s.operations))
    ensures Returns(s) <==>
            && |s.outputs| <= 1 && (s.outputs != [] ==> s.returnValue.Some? && s.returnValue.value != "")
            && (s.outputs == [] ==> s.returnValue.None?) && ReturnOk(s)
  {
    var env := DefineAll(InputEnv(s.inputs), s.operations);
    if s.returnValue.Some? && s.returnValue.value in env {
      assert Has(env, s.returnValue.value, env[s.returnValue.value]);
    }
    if Returns(s) && s.returnValue.Some? {
      var ty :| s.outputs == [Value(s.returnValue.value, ty)] && Known(s, |s.operations|, s.returnValue.value, ty);
      assert Has(env, s.returnValue.value, ty);
    }
  }

  /** The validator accepts exactly the schemas that keep the rules. */
  lemma AcceptedIff(s: Schema)
    requires Constructed(s)
    ensures Accepted(s) <==> WellFormed(s)
  {
    MemoryIff(s);
    UsedIff(s);
    if NamesDiffer(s) {
      SsaIff(s, |s.operations|);
      assert s.operations[..|s.operations|] == s.operations;
      if AllPlaced(s) {
        ReturnsIff(s);
        IdleIff(s);
      }
    }
  }

  lemma IdleIff(s: Schema)
    requires AllPlaced(s)
    ensures AllLive(s) <==> NothingIdle(s)
  {
    PlacedResultsDiffer(s);
    forall name ensures Live(s, name) <==> Contributes(s, name) { LiveIff(s, name); }
  }
}
