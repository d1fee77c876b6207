/** The fingerprint builder: four id maps and four counters, updated while a rule is walked. */
module FingerprintBuilding {
  import opened Wrappers
  import opened RuleAst
  import opened Fingerprint

  // ---- a longer walk does not change what an earlier part of it produced ----

  ghost predicate Settled(n: Numbering, m: Numbering, ks: seq<Key>) {
    forall i :: 0 <= i < |ks| ==> NewId(n.ids, ks[i]) == NewId(m.ids, ks[i])
  }

  lemma LaterSettles(n: Numbering, ks: seq<Key>, later: seq<Key>)
    ensures n.VisitAll(ks + later) == n.VisitAll(ks).VisitAll(later)
    ensures Settled(n.VisitAll(ks).VisitAll(later), n.VisitAll(ks), ks)
  {
    VisitAllConcat(n, ks, later);
    VisitAllGrows(n, ks);
    VisitAllGrows(n.VisitAll(ks), later);
  }

  lemma StableExpr(n: Numbering, e: ImmExpr, later: seq<Key>)
    ensures n.VisitAll(KeysExpr(e) + later) == n.VisitAll(KeysExpr(e)).VisitAll(later)
    ensures RenameExpr(n.VisitAll(KeysExpr(e)).VisitAll(later).ids, e) == RenameExpr(n.VisitAll(KeysExpr(e)).ids, e)
  {
    LaterSettles(n, KeysExpr(e), later);
    FuseExpr(n.VisitAll(KeysExpr(e)).VisitAll(later).ids, map[], n.VisitAll(KeysExpr(e)).ids, e);
    IdentityExpr(e);
  }

  lemma StableOp(n: Numbering, op: Operand, later: seq<Key>)
    ensures n.VisitAll(KeysOp(op) + later) == n.VisitAll(KeysOp(op)).VisitAll(later)
    ensures RenameOp(n.VisitAll(KeysOp(op)).VisitAll(later).ids, op) == RenameOp(n.VisitAll(KeysOp(op)).ids, op)
  {
    LaterSettles(n, KeysOp(op), later);
    FuseOp(n.VisitAll(KeysOp(op)).VisitAll(later).ids, map[], n.VisitAll(KeysOp(op)).ids, op);
    IdentityOp(op);
  }

  lemma StableOps(n: Numbering, ops: seq<Operand>, later: seq<Key>)
    ensures n.VisitAll(KeysOps(ops) + later) == n.VisitAll(KeysOps(ops)).VisitAll(later)
    ensures RenameOps(n.VisitAll(KeysOps(ops)).VisitAll(later).ids, ops) == RenameOps(n.VisitAll(KeysOps(ops)).ids, ops)
  {
    LaterSettles(n, KeysOps(ops), later);
    FuseOps(n.VisitAll(KeysOps(ops)).VisitAll(later).ids, map[], n.VisitAll(KeysOps(ops)).ids, ops);
    IdentityOps(ops);
  }

  lemma StableMetas(n: Numbering, ms: seq<MetaOp>, later: seq<Key>)
    ensures n.VisitAll(KeysMetas(ms) + later) == n.VisitAll(KeysMetas(ms)).VisitAll(later)
    ensures RenameMetas(n.VisitAll(KeysMetas(ms)).VisitAll(later).ids, ms)
            == RenameMetas(n.VisitAll(KeysMetas(ms)).ids, ms)
  {
    LaterSettles(n, KeysMetas(ms), later);
    FuseMetas(n.VisitAll(KeysMetas(ms)).VisitAll(later).ids, map[], n.VisitAll(KeysMetas(ms)).ids, ms);
    IdentityMetas(ms);
  }

  lemma StableInst(n: Numbering, inst: Instruction, later: seq<Key>)
    ensures n.VisitAll(KeysInst(inst) + later) == n.VisitAll(KeysInst(inst)).VisitAll(later)
    ensures RenameInst(n.VisitAll(KeysInst(inst)).VisitAll(later).ids, inst)
            == RenameInst(n.VisitAll(KeysInst(inst)).ids, inst)
  {
    LaterSettles(n, KeysInst(inst), later);
    FuseInst(n.VisitAll(KeysInst(inst)).VisitAll(later).ids, map[], n.VisitAll(KeysInst(inst)).ids, inst);
    IdentityMetas(inst.meta);
    IdentityOps(inst.operands);
    IdentityMetas(inst.postMeta);
  }

  lemma StableInsts(n: Numbering, insts: seq<Instruction>, later: seq<Key>)
    ensures n.VisitAll(KeysInsts(insts) + later) == n.VisitAll(KeysInsts(insts)).VisitAll(later)
    ensures RenameInsts(n.VisitAll(KeysInsts(insts)).VisitAll(later).ids, insts)
            == RenameInsts(n.VisitAll(KeysInsts(insts)).ids, insts)
  {
    LaterSettles(n, KeysInsts(insts), later);
    FuseInsts(n.VisitAll(KeysInsts(insts)).VisitAll(later).ids, map[], n.VisitAll(KeysInsts(insts)).ids, insts);
    IdentityInsts(insts);
  }

  // ---- lists grow at the end inside the loops ----

  lemma {:induction false} KeysOpsSnoc(ops: seq<Operand>, op: Operand)
    ensures KeysOps(ops + [op]) == KeysOps(ops) + KeysOp(op)
  {
    if ops == [] { assert ops + [op] == [op]; assert KeysOps([op]) == KeysOp(op) + KeysOps([]); }
    else { assert (ops + [op])[1..] == ops[1..] + [op]; KeysOpsSnoc(ops[1..], op); }
  }

  lemma {:induction false} EncodeFlatSnoc(ops: seq<Operand>, op: Operand)
    ensures EncodeFlat(ops + [op]) == EncodeFlat(ops) + EncodeOp(op)
  {
    if ops == [] { assert ops + [op] == [op]; assert EncodeFlat([op]) == EncodeOp(op) + EncodeFlat([]); }
    else {
      assert (ops + [op])[1..] == ops[1..] + [op];
      EncodeFlatSnoc(ops[1..], op);
      Reassociate(EncodeOp(ops[0]), EncodeFlat(ops[1..]), EncodeOp(op));
    }
  }

  // ---- the four id maps as one ----

  function Merged(reg: map<Key, int>, tmp: map<Key, int>, imm: map<Key, int>, lab: map<Key, int>): Renaming {
    reg + tmp + imm + lab
  }

  ghost predicate Separate(reg: map<Key, int>, tmp: map<Key, int>, imm: map<Key, int>, lab: map<Key, int>) {
    forall k :: (k in reg ==> k.space == Reg) && (k in tmp ==> k.space == Tmp)
             && (k in imm ==> k.space == Imm) && (k in lab ==> k.space == Label)
  }

  lemma UpdateLeft(a: map<Key, int>, b: map<Key, int>, k: Key, v: int)
    requires k !in b
    ensures a[k := v] + b == (a + b)[k := v]
  {}

  lemma UpdateRight(a: map<Key, int>, b: map<Key, int>, k: Key, v: int)
    ensures a + b[k := v] == (a + b)[k := v]
  {}

  lemma UpdateMerged(reg: map<Key, int>, tmp: map<Key, int>, imm: map<Key, int>, lab: map<Key, int>, k: Key, v: int)
    requires Separate(reg, tmp, imm, lab)
    ensures k.space == Reg ==> Merged(reg[k := v], tmp, imm, lab) == Merged(reg, tmp, imm, lab)[k := v]
    ensures k.space == Tmp ==> Merged(reg, tmp[k := v], imm, lab) == Merged(reg, tmp, imm, lab)[k := v]
    ensures k.space == Imm ==> Merged(reg, tmp, imm[k := v], lab) == Merged(reg, tmp, imm, lab)[k := v]
    ensures k.space == Label ==> Merged(reg, tmp, imm, lab[k := v]) == Merged(reg, tmp, imm, lab)[k := v]
  {
    match k.space
    case Reg =>
      UpdateLeft(reg, tmp, k, v);
      UpdateLeft(reg + tmp, imm, k, v);
      UpdateLeft(reg + tmp + imm, lab, k, v);
    case Tmp =>
      UpdateRight(reg, tmp, k, v);
      UpdateLeft(reg + tmp, imm, k, v);
      UpdateLeft(reg + tmp + imm, lab, k, v);
    case Imm =>
      UpdateRight(reg + tmp, imm, k, v);
      UpdateLeft(reg + tmp + imm, lab, k, v);
    case Label => UpdateRight(reg + tmp + imm, lab, k, v);
  }

  // ---- the builder ----

  class FingerprintBuilder {
    var regMap: map<Key, int>
    var tmpMap: map<Key, int>
    var immMap: map<Key, int>
    var labelMap: map<Key, int>
    var regNext: nat
    var tmpNext: nat
    var immNext: nat
    var labelNext: nat

    ghost predicate Valid()
      reads this
    {
      Separate(regMap, tmpMap, immMap, labelMap)
    }

    ghost function State(): Numbering
      reads this
    {
      Numbering(Merged(regMap, tmpMap, immMap, labelMap), regNext, tmpNext, immNext, labelNext)
    }

    constructor ()
      ensures Valid() && State() == START
    {
      regMap, tmpMap, immMap, labelMap := map[], map[], map[], map[];
      regNext, tmpNext, immNext, labelNext := 1, 1, 1, 1;
    }

    method CidReg(key: Key) returns (cid: int)
      requires Valid() && key.space == Reg
      modifies this
      ensures Valid() && State() == old(State()).Visit(key) && cid == NewId(State().ids, key)
    {
      if key !in regMap {
        UpdateMerged(regMap, tmpMap, immMap, labelMap, key, regNext);
        regMap := regMap[key := regNext];
        regNext := regNext + 1;
      }
      cid := regMap[key];
    }

    method CidTmp(key: Key) returns (cid: int)
      requires Valid() && key.space == Tmp
      modifies this
      ensures Valid() && State() == old(State()).Visit(key) && cid == NewId(State().ids, key)
    {
      if key !in tmpMap {
        UpdateMerged(regMap, tmpMap, immMap, labelMap, key, tmpNext);
        tmpMap := tmpMap[key := tmpNext];
        tmpNext := tmpNext + 1;
      }
      cid := tmpMap[key];
    }

    method CidImm(id: int) returns (cid: int)
      requires Valid()
      modifies this
      ensures Valid() && State() == old(State()).Visit(ImmKey(id)) && cid == NewId(State().ids, ImmKey(id))
    {
      if ImmKey(id) !in immMap {
        UpdateMerged(regMap, tmpMap, immMap, labelMap, ImmKey(id), immNext);
        immMap := immMap[ImmKey(id) := immNext];
        immNext := immNext + 1;
      }
      cid := immMap[ImmKey(id)];
    }

    method CidLabel(id: int) returns (cid: int)
      requires Valid()
      modifies this
      ensures Valid() && State() == old(State()).Visit(LabelKey(id)) && cid == NewId(State().ids, LabelKey(id))
    {
      if LabelKey(id) !in labelMap {
        UpdateMerged(regMap, tmpMap, immMap, labelMap, LabelKey(id), labelNext);
        labelMap := labelMap[LabelKey(id) := labelNext];
        labelNext := labelNext + 1;
      }
      cid := labelMap[LabelKey(id)];
    }

    method FingerprintImmExpr(e: ImmExpr) returns (fp: Fp)
      requires Valid()
      modifies this
      ensures Valid() && State() == old(State()).VisitAll(KeysExpr(e))
      ensures fp == EncodeExpr(RenameExpr(State().ids, e))
      decreases e
    {
      ghost var n := State();
      match e {
        case ImmRef(id) =>
          var cid := CidImm(id);
          fp := Tup([Str("imm-ref"), Int(cid)]);
        case IntLit(v) => fp := Tup([Str("int"), Int(v)]);
        case Neg(a) =>
          var inner := FingerprintImmExpr(a);
          fp := Tup([Str("neg"), inner]);
        case Log2(a) =>
          var inner := FingerprintImmExpr(a);
          fp := Tup([Str("log2"), inner]);
        case BitOr(l, r) =>
          var x := FingerprintImmExpr(l);
          var y := FingerprintImmExpr(r);
          StableExpr(n, l, KeysExpr(r));
          fp := Tup([Str("or"), x, y]);
        case ShiftLeft(l, r) =>
          var x := FingerprintImmExpr(l);
          var y := FingerprintImmExpr(r);
          StableExpr(n, l, KeysExpr(r));
          fp := Tup([Str("shl"), x, y]);
        case RawImm(t) => fp := Tup([Str("raw")] + Text(t));
      }
    }

    method FingerprintOp(op: Operand) returns (fp: seq<Fp>)
      requires Valid()
      modifies this
      ensures Valid() && State() == old(State()).VisitAll(KeysOp(op))
      ensures fp == EncodeOp(RenameOp(State().ids, op))
      decreases op
    {
      ghost var n := State();
      match op {
        case RegOp(p, b, id) =>
          var cid := CidReg(Key(Reg, p, b, id));
          fp := [Int(TAG_REG), Int(cid), Str(p), Int(b)];
        case RegViewOp(base, bits) =>
          var inner := FingerprintOp(base);
          fp := [Int(TAG_REGVIEW), Int(bits)] + inner;
        case GuestRegViewOp(scope, register, bits) =>
          fp := [Int(TAG_GUEST_REGVIEW), Int(bits), Str(scope), Str(register)];
        case BitSliceOp(base, bits) =>
          var inner := FingerprintOp(base);
          fp := [Int(TAG_BITSLICE), Int(bits)] + inner;
        case ExtOp(kind, bits, value) =>
          var inner := FingerprintOp(value);
          fp := [Int(TAG_EXT), Str(kind), Int(bits)] + inner;
        case ReadWriteOp(read, write) =>
          var x := FingerprintOp(read);
          var y := FingerprintOp(write);
          StableOp(n, read, KeysOp(write));
          fp := [Int(TAG_READWRITE), Tup(x), Tup(y)];
        case ImmOp(id, derived, hash, neg) =>
          if derived.Some? {
            var inner := FingerprintImmExpr(derived.value);
            fp := [Int(TAG_IMM), Str("derived"), inner] + (Flag(hash, SYN_HASH) + Flag(neg, SYN_NEG));
          } else {
            var cid := CidImm(id);
            fp := [Int(TAG_IMM), Int(cid)] + (Flag(hash, SYN_HASH) + Flag(neg, SYN_NEG));
          }
        case TmpOp(p, b, id) =>
          var cid := CidTmp(Key(Tmp, p, b, id));
          fp := [Int(TAG_TMP), Int(cid), Str(p), Int(b)];
        case LitOp(t) => fp := [Int(TAG_LIT)] + Text(t);
        case LabelOp(id, hash) =>
          var cid := CidLabel(id);
          fp := [Int(TAG_LABEL), Int(cid)] + Flag(hash, SYN_HASH);
        case RegTextOp(t) => fp := [Int(TAG_REGTEXT)] + Text(t);
        case MemoryOp(a, syntax, valueBits, size) =>
          var inner := FingerprintAddress(a);
          fp := [Int(TAG_MEMORY), Str(syntax), if valueBits.Some? then Int(valueBits.value) else Nil,
                 if size.Some? then Str(size.value) else Nil] + inner;
      }
    }

    method FingerprintPart(role: string, part: Option<Operand>) returns (fp: seq<Fp>)
      requires Valid()
      modifies this
      ensures Valid() && State() == old(State()).VisitAll(KeysOpt(part))
      ensures fp == EncodePart(role, RenameOpt(State().ids, part))
      decreases part
    {
      fp := [];
      if part.Some? {
        var inner := FingerprintOp(part.value);
        fp := [Tup([Str(role), Tup(inner)])];
      }
    }

    method FingerprintAddress(a: Address) returns (fp: seq<Fp>)
      requires Valid()
      modifies this
      ensures Valid() && State() == old(State()).VisitAll(KeysAddress(a))
      ensures fp == EncodeAddress(RenameAddress(State().ids, a))
      decreases a
    {
      ghost var n := State();
      var base := FingerprintPart("base", a.base);
      var index := FingerprintPart("index", a.index);
      var scale := FingerprintPart("scale", a.scale);
      var shift := FingerprintPart("shift", a.shift);
      var disp := FingerprintPart("disp", a.displacement);
      StableAddress(n, a);
      fp := [Int(TAG_ADDRESS), Str(a.writeback)] + (base + (index + (scale + (shift + disp))));
    }

    method FingerprintMeta(m: MetaOp) returns (fp: seq<Fp>)
      requires Valid()
      modifies this
      ensures Valid() && State() == old(State()).VisitAll(KeysOps(m.regs))
      ensures fp == [Int(MetaTag(m.kind))] + EncodeFlat(RenameOps(State().ids, m.regs))
    {
      ghost var n := State();
      var flat: seq<Fp> := [];
      for i := 0 to |m.regs|
        invariant Valid() && State() == n.VisitAll(KeysOps(m.regs[..i]))
        invariant flat == EncodeFlat(RenameOps(State().ids, m.regs[..i]))
      {
        var part := FingerprintOp(m.regs[i]);
        OpsStep(n, m.regs[..i], m.regs[i]);
        assert m.regs[..i + 1] == m.regs[..i] + [m.regs[i]];
        flat := flat + part;
      }
      assert m.regs[..|m.regs|] == m.regs;
      fp := [Int(MetaTag(m.kind))] + flat;
    }

    method FingerprintMetas(ms: seq<MetaOp>) returns (fp: seq<Fp>)
      requires Valid()
      modifies this
      ensures Valid() && State() == old(State()).VisitAll(KeysMetas(ms))
      ensures fp == EncodeMetas(RenameMetas(State().ids, ms))
      decreases |ms|
    {
      if ms == [] { return []; }
      ghost var n := State();
      var head := FingerprintMeta(ms[0]);
      var tail := FingerprintMetas(ms[1..]);
      StableOps(n, ms[0].regs, KeysMetas(ms[1..]));
      fp := head + tail;
    }

    method FingerprintBlock(tag: int, ms: seq<MetaOp>) returns (fp: seq<Fp>)
      requires Valid()
      modifies this
      ensures Valid() && State() == old(State()).VisitAll(KeysMetas(ms))
      ensures fp == EncodeBlock(tag, RenameMetas(State().ids, ms))
    {
      var flat := FingerprintMetas(ms);
      fp := if ms == [] then [] else [Tup([Int(tag)] + flat)];
    }

    method FingerprintOperands(ops: seq<Operand>) returns (parts: seq<Fp>)
      requires Valid()
      modifies this
      ensures Valid() && State() == old(State()).VisitAll(KeysOps(ops))
      ensures parts == EncodeOps(RenameOps(State().ids, ops))
    {
      ghost var n := State();
      parts := [];
      for i := 0 to |ops|
        invariant Valid() && State() == n.VisitAll(KeysOps(ops[..i]))
        invariant parts == EncodeOps(RenameOps(State().ids, ops[..i]))
      {
        var part := FingerprintOp(ops[i]);
        OpsStep(n, ops[..i], ops[i]);
        assert ops[..i + 1] == ops[..i] + [ops[i]];
        parts := parts + [Tup(part)];
      }
      assert ops[..|ops|] == ops;
    }

    method FingerprintInst(inst: Instruction) returns (fp: Fp)
      requires Valid()
      modifies this
      ensures Valid() && State() == old(State()).VisitAll(KeysInst(inst))
      ensures fp == EncodeInst(RenameInst(State().ids, inst))
    {
      ghost var n := State();
      var pre := FingerprintBlock(TAG_META_BLOCK, inst.meta);
      var parts := FingerprintOperands(inst.operands);
      var post := FingerprintBlock(TAG_POST_META_BLOCK, inst.postMeta);
      InstWalk(n, inst);
      fp := Tup([Str(inst.mnemonic)] + (pre + (parts + post)));
    }

    method FingerprintSequence(insts: seq<Instruction>) returns (fp: seq<Fp>)
      requires Valid()
      modifies this
      ensures Valid() && State() == old(State()).VisitAll(KeysInsts(insts))
      ensures fp == EncodeInsts(RenameInsts(State().ids, insts))
      decreases |insts|
    {
      if insts == [] { return []; }
      ghost var n := State();
      var head := FingerprintInst(insts[0]);
      var tail := FingerprintSequence(insts[1..]);
      StableInst(n, insts[0], KeysInsts(insts[1..]));
      fp := [head] + tail;
    }

    /** A fresh builder computes the fingerprint whose equality is alpha-equivalence. */
    method FingerprintRule(r: Rule) returns (fp: Fp)
      requires Valid() && State() == START
      modifies this
      ensures Valid() && fp == RuleFingerprint(r)
    {
      var guest := FingerprintSequence(r.guest);
      var host := FingerprintSequence(r.host);
      StableInsts(START, r.guest, KeysInsts(r.host));
      fp := Tup([Tup([Int(GUEST_MARKER)])] + (guest + ([Tup([Int(HOST_MARKER)])] + host)));
    }
  }

  // ---- one more element of a list ----

  lemma OpsStep(n: Numbering, ops: seq<Operand>, op: Operand)
    ensures var m := n.VisitAll(KeysOps(ops)).VisitAll(KeysOp(op));
            && m == n.VisitAll(KeysOps(ops + [op]))
            && EncodeFlat(RenameOps(m.ids, ops + [op]))
               == EncodeFlat(RenameOps(n.VisitAll(KeysOps(ops)).ids, ops)) + EncodeOp(RenameOp(m.ids, op))
            && EncodeOps(RenameOps(m.ids, ops + [op]))
               == EncodeOps(RenameOps(n.VisitAll(KeysOps(ops)).ids, ops)) + [Tup(EncodeOp(RenameOp(m.ids, op)))]
  {
    var m := n.VisitAll(KeysOps(ops)).VisitAll(KeysOp(op));
    KeysOpsSnoc(ops, op);
    StableOps(n, ops, KeysOp(op));
    var renamed := RenameOps(m.ids, ops);
    assert RenameOps(m.ids, ops + [op]) == renamed + [RenameOp(m.ids, op)];
    EncodeFlatSnoc(renamed, RenameOp(m.ids, op));
    assert EncodeOps(renamed + [RenameOp(m.ids, op)]) == EncodeOps(renamed) + [Tup(EncodeOp(RenameOp(m.ids, op)))];
  }

  lemma InstWalk(n: Numbering, inst: Instruction)
    ensures var n0 := n.VisitAll(KeysMetas(inst.meta));
            var n1 := n0.VisitAll(KeysOps(inst.operands));
            var n2 := n1.VisitAll(KeysMetas(inst.postMeta));
            && n2 == n.VisitAll(KeysInst(inst))
            && RenameMetas(n2.ids, inst.meta) == RenameMetas(n0.ids, inst.meta)
            && RenameOps(n2.ids, inst.operands) == RenameOps(n1.ids, inst.operands)
  {
    var k0, k1, k2 := KeysMetas(inst.meta), KeysOps(inst.operands), KeysMetas(inst.postMeta);
    var n0 := n.VisitAll(k0);
    StableOps(n0, inst.operands, k2);
    StableMetas(n, inst.meta, k1 + k2);
    VisitAllConcat(n0, k1, k2);
    Reassociate(k0, k1, k2);
  }

  lemma StableOpt(n: Numbering, o: Option<Operand>, later: seq<Key>)
    ensures n.VisitAll(KeysOpt(o) + later) == n.VisitAll(KeysOpt(o)).VisitAll(later)
    ensures RenameOpt(n.VisitAll(KeysOpt(o)).VisitAll(later).ids, o) == RenameOpt(n.VisitAll(KeysOpt(o)).ids, o)
  {
    if o.Some? { StableOp(n, o.value, later); } else { assert [] + later == later; }
  }

  lemma FiveParts<T>(a: seq<T>, b: seq<T>, c: seq<T>, d: seq<T>, e: seq<T>)
    ensures a + b + c + d + e == a + (b + (c + (d + e)))
  {
    Reassociate(a + b + c, d, e);
    Reassociate(a + b, c, d + e);
    Reassociate(a, b, c + (d + e));
  }

  /** Walking the parts one after another is one walk over the address. */
  lemma StableAddress(n: Numbering, a: Address)
    ensures var n0 := n.VisitAll(KeysOpt(a.base));
            var n1 := n0.VisitAll(KeysOpt(a.index));
            var n2 := n1.VisitAll(KeysOpt(a.scale));
            var n3 := n2.VisitAll(KeysOpt(a.shift));
            var n4 := n3.VisitAll(KeysOpt(a.displacement));
            n4 == n.VisitAll(KeysAddress(a))
            && RenameOpt(n4.ids, a.base) == RenameOpt(n0.ids, a.base)
            && RenameOpt(n4.ids, a.index) == RenameOpt(n1.ids, a.index)
            && RenameOpt(n4.ids, a.scale) == RenameOpt(n2.ids, a.scale)
            && RenameOpt(n4.ids, a.shift) == RenameOpt(n3.ids, a.shift)
  {
    var k0, k1, k2, k3, k4 := KeysOpt(a.base), KeysOpt(a.index), KeysOpt(a.scale), KeysOpt(a.shift),
      KeysOpt(a.displacement);
    var n0 := n.VisitAll(k0);
    var n1 := n0.VisitAll(k1);
    var n2 := n1.VisitAll(k2);
    var n3 := n2.VisitAll(k3);
    StableOpt(n2, a.shift, k4);
    StableOpt(n1, a.scale, k3 + k4);
    StableOpt(n0, a.index, k2 + (k3 + k4));
    StableOpt(n, a.base, k1 + (k2 + (k3 + k4)));
    FiveParts(k0, k1, k2, k3, k4);
  }

  // ---- deduplication ----

  /** No two rules of the list are alpha-equivalent. */
  ghost predicate PairwiseDistinct(rules: seq<Rule>) {
    forall i, j :: 0 <= i < j < |rules| ==> !AlphaEqual(rules[i], rules[j])
  }

  /** `r` repeats a rule of the list. */
  ghost predicate Repeats(r: Rule, rules: seq<Rule>) {
    exists i :: 0 <= i < |rules| && AlphaEqual(rules[i], r)
  }

  class RuleDeduplicator {
    var fingerprints: set<Fp>
    ghost var accepted: seq<Rule>

    /** The remembered fingerprints are those of the accepted rules, which are pairwise inequivalent. */
    ghost predicate Valid()
      reads this
    {
      Consistent(RuleFingerprint, fingerprints, accepted)
    }

    constructor ()
      ensures Valid() && accepted == []
    {
      fingerprints := {};
      accepted := [];
    }

    /** A rule is accepted exactly when no accepted rule is alpha-equivalent to it. */
    method Accept(r: Rule) returns (fresh_: bool)
      requires Valid() && ValidRule(r)
      modifies this
      ensures Valid()
      ensures fresh_ <==> !Repeats(r, old(accepted))
      ensures accepted == if fresh_ then old(accepted) + [r] else old(accepted)
    {
      var builder := new FingerprintBuilder();
      var fp := builder.FingerprintRule(r);
      SeenIffRepeats(fingerprints, accepted, r);
      fresh_ := fp !in fingerprints;
      if fresh_ {
        ConsistentMore(RuleFingerprint, fingerprints, accepted, r);
        fingerprints := fingerprints + {fp};
        accepted := accepted + [r];
      }
    }
  }

  /** `seen` holds the image under `f` of the accepted values, and nothing else. */
  ghost predicate Remembers<T(!new), U(!new)>(f: T -> U, seen: set<U>, accepted: seq<T>) {
    && (forall i :: 0 <= i < |accepted| ==> f(accepted[i]) in seen)
    && (forall u :: u in seen ==> exists i :: 0 <= i < |accepted| && f(accepted[i]) == u)
  }

  lemma RemembersMore<T(!new), U(!new)>(f: T -> U, seen: set<U>, accepted: seq<T>, x: T)
    requires Remembers(f, seen, accepted)
    ensures Remembers(f, seen + {f(x)}, accepted + [x])
  {
    var more := accepted + [x];
    forall u | u in seen + {f(x)} ensures exists i :: 0 <= i < |more| && f(more[i]) == u {
      if u in seen {
        var i :| 0 <= i < |accepted| && f(accepted[i]) == u;
        assert f(more[i]) == u;
      } else {
        assert f(more[|accepted|]) == u;
      }
    }
  }

  ghost predicate Consistent(f: Rule -> Fp, seen: set<Fp>, accepted: seq<Rule>) {
    && Remembers(f, seen, accepted)
    && (forall i :: 0 <= i < |accepted| ==> ValidRule(accepted[i]))
    && PairwiseDistinct(accepted)
  }

  lemma ConsistentMore(f: Rule -> Fp, seen: set<Fp>, accepted: seq<Rule>, r: Rule)
    requires Consistent(f, seen, accepted) && ValidRule(r) && !Repeats(r, accepted)
    ensures Consistent(f, seen + {f(r)}, accepted + [r])
  {
    RemembersMore(f, seen, accepted, r);
  }

  lemma SeenIffRepeats(seen: set<Fp>, accepted: seq<Rule>, r: Rule)
    requires Consistent(RuleFingerprint, seen, accepted) && ValidRule(r)
    ensures RuleFingerprint(r) in seen <==> Repeats(r, accepted)
  {
    if RuleFingerprint(r) in seen {
      var i :| 0 <= i < |accepted| && RuleFingerprint(accepted[i]) == RuleFingerprint(r);
      FingerprintIffAlphaEqual(accepted[i], r);
    }
    if Repeats(r, accepted) {
      var i :| 0 <= i < |accepted| && AlphaEqual(accepted[i], r);
      FingerprintIffAlphaEqual(accepted[i], r);
    }
  }
}
