/** A rule with one immediate replaced by zero means the rule at the value zero of that immediate. */
module SubstSemantics {
  import opened Wrappers
  import opened RuleAst
  import opened Fingerprint
  import opened Semantics
  import opened Substitution

  // ---- where a literal zero stands for the placeholder ----

  /** A plain occurrence of the placeholder, read through any read/write operand. */
  predicate Bare(op: Operand, id: int) {
    match op
    case ImmOp(i, derived, _, _) => derived.None? && i == id
    case ReadWriteOp(r, _) => Bare(r, id)
    case _ => false
  }

  /** `log2` of the placeholder has no literal counterpart. */
  predicate CleanExpr(e: ImmExpr, id: int) {
    match e
    case Neg(a) => CleanExpr(a, id)
    case Log2(a) => a != ImmRef(id)
    case BitOr(l, r) => CleanExpr(l, id) && CleanExpr(r, id)
    case ShiftLeft(l, r) => CleanExpr(l, id) && CleanExpr(r, id)
    case _ => true
  }

  /** A slice that fits in the 64 bits of an immediate and not in the 32 bits of a literal zero. */
  predicate LostSlice(bits: nat) { 32 < bits <= 64 }

  /** Reading the operand survives the substitution. */
  predicate CleanOp(op: Operand, id: int) {
    match op
    case ImmOp(_, derived, _, _) => derived.Some? ==> CleanExpr(derived.value, id)
    case BitSliceOp(b, bits) => CleanOp(b, id) && !(Bare(b, id) && LostSlice(Width(bits)))
    case ExtOp(_, _, v) => CleanOp(v, id)
    case ReadWriteOp(r, _) => CleanOp(r, id)
    case _ => true
  }

  predicate CleanOpt(o: Option<Operand>, id: int) { o.Some? ==> CleanOp(o.value, id) }

  /** The parts an address is computed from: a scale hides a shift, and a post-index displacement is not read. */
  predicate CleanAddress(a: Address, id: int) {
    && CleanOpt(a.base, id) && CleanIndex(a, id)
    && (a.writeback != "post" ==> CleanOpt(a.displacement, id))
  }

  predicate CleanIndex(a: Address, id: int) {
    a.index.Some? ==> CleanOpt(a.index, id) && if a.scale.Some? then CleanOpt(a.scale, id) else CleanOpt(a.shift, id)
  }

  predicate CleanSources(ops: seq<Operand>, id: int) {
    FirstSource(ops).Some? ==> CleanOp(FirstSource(ops).value, id) && CleanOp(ops[|ops| - 1], id)
  }

  /** Every operand the evaluator reads for this instruction survives the substitution. */
  predicate CleanInst(inst: Instruction, id: int) {
    |inst.operands| >= 2 ==>
      var m := Lower(inst.mnemonic);
      if m == "mov" || m == "movzx" then CleanOp(inst.operands[1], id)
      else if m == "lea" then inst.operands[1].MemoryOp? ==> CleanAddress(inst.operands[1].address, id)
      else m in BINARY ==> CleanSources(inst.operands, id)
  }

  predicate CleanInsts(insts: seq<Instruction>, id: int) {
    forall i :: 0 <= i < |insts| ==> CleanInst(insts[i], id)
  }

  predicate CleanRule(r: Rule, id: int) { CleanInsts(r.guest, id) && CleanInsts(r.host, id) }

  // ---- the placeholder as first source ----

  /** Operations that give zero at every width when their first source is zero. */
  const ZEROING := {"and", "mul", "imul", "lsl", "lsr", "asr", "shl", "shr", "sar"}

  /** The operand names no other immediate, whose symbol would get its width here. */
  predicate NamesOnly(op: Operand, id: int) {
    forall k :: k in KeysOp(op) && k.space.Imm? ==> k == ImmKey(id)
  }

  /**
   The first source sets the width of the operation, and a literal zero is narrower than the placeholder. That is
   harmless if the result is zero anyway and nothing else takes its width from the operation.
   */
  predicate SourceKeeps(mnemonic: string, ops: seq<Operand>, id: int) {
    FirstSource(ops).Some? && Bare(FirstSource(ops).value, id) ==> mnemonic in ZEROING && NamesOnly(ops[|ops| - 1], id)
  }

  predicate FirstSourceKeeps(inst: Instruction, id: int) {
    Lower(inst.mnemonic) in BINARY ==> SourceKeeps(Lower(inst.mnemonic), inst.operands, id)
  }

  predicate FirstSourcesKeep(r: Rule, id: int) {
    && (forall i :: 0 <= i < |r.guest| ==> FirstSourceKeeps(r.guest[i], id))
    && (forall i :: 0 <= i < |r.host| ==> FirstSourceKeeps(r.host[i], id))
  }

  /** A run of zeros, with or without a hash sign. */
  predicate ZeroText(text: string) {
    var digits := if text != "" && text[0] == '#' then text[1..] else text;
    digits != "" && forall i :: 0 <= i < |digits| ==> digits[i] == '0'
  }

  /** A run of zeros is read as zero, whether a hash sign precedes it or not. */
  ghost predicate ReadsZero(literal: string -> Option<int>) {
    forall text :: ZeroText(text) ==> literal(text) == Some(0)
  }

  lemma WritesZeroText(hash: bool, neg: bool, value: string)
    requires value in RESERVED
    ensures ZeroText(LiteralText(hash, neg, value))
  {
    ReservedAreZeros(value);
    var digits := if neg then "0" else value;
    assert ("#" + digits)[1..] == digits && ("" + digits) == digits;
  }

  /** A reserved literal for a placeholder. */
  ghost predicate Replaces(c: Context, id: int, value: string) {
    ReadsZero(c.literal) && value in RESERVED && id >= 1
  }

  // ---- the simulation ----

  /** The context in which the placeholder is zero. */
  function AtZero(c: Context, id: int): Context {
    c.(vals := c.vals.(imm := (j: int) => if j == id then 0 else c.vals.imm(j)))
  }

  ghost predicate WidthsBut(id: int, w: Widths, w': Widths) {
    forall j :: j != id ==> (j in w <==> j in w') && (j in w ==> w[j] == w'[j])
  }

  ghost predicate Same(id: int, x: Option<(Bv, Widths)>, x': Option<(Bv, Widths)>) {
    (x.Some? <==> x'.Some?) && (x.Some? ==> x.value.0 == x'.value.0 && WidthsBut(id, x.value.1, x'.value.1))
  }

  /** Both results are zero; their widths may differ. */
  ghost predicate BothZero(id: int, x: Option<(Bv, Widths)>, x': Option<(Bv, Widths)>) {
    && x.Some? && x'.Some? && x.value.0.value == 0 && x'.value.0.value == 0
    && WidthsBut(id, x.value.1, x'.value.1)
  }

  lemma {:induction false} WrapZero(n: nat)
    ensures Wrap(0, n) == Bv(n, 0)
  {
    var p := Pow2(n);
    assert 0 % p == 0;
  }

  lemma {:induction false} FitZero(n: nat, m: nat)
    ensures FitWidth(Bv(n, 0), m) == Bv(m, 0)
    ensures SignFit(Bv(n, 0), true, m) == SignFit(Bv(n, 0), false, m) == Bv(m, 0)
  {
    WrapZero(n);
    WrapZero(m);
  }

  lemma {:induction false} ImmediateZero(c: Context, w: Widths, id: int, bits: nat)
    ensures Immediate(AtZero(c, id), w, id, bits).0 == Bv(bits, 0)
    ensures WidthsBut(id, Immediate(AtZero(c, id), w, id, bits).1, w)
  {
    var n := if id in w then w[id] else bits;
    WrapZero(n);
    FitZero(n, bits);
  }

  lemma {:induction false} ExprSubst(c: Context, w: Widths, w': Widths, e: ImmExpr, id: int, bits: nat)
    requires CleanExpr(e, id) && WidthsBut(id, w, w')
    ensures Same(id, EvalExpr(AtZero(c, id), w, e, bits), EvalExpr(c, w', SubstExpr(e, id), bits))
    decreases e, 1
  {
    match e
    case ImmRef(i) => if i == id { ImmediateZero(c, w, id, bits); WrapZero(bits); }
    case Neg(a) => ExprSubst(c, w, w', a, id, bits);
    case BitOr(l, r) => PairSubst(c, w, w', e, l, r, id, bits);
    case ShiftLeft(l, r) => PairSubst(c, w, w', e, l, r, id, bits);
    case _ =>
  }

  lemma {:induction false} PairSubst(c: Context, w: Widths, w': Widths, e: ImmExpr, l: ImmExpr, r: ImmExpr, id: int,
      bits: nat)
    requires e == BitOr(l, r) || e == ShiftLeft(l, r)
    requires CleanExpr(e, id) && WidthsBut(id, w, w')
    ensures var x, x' := EvalExpr(AtZero(c, id), w, l, bits), EvalExpr(c, w', SubstExpr(l, id), bits);
            Same(id, x, x')
            && (x.Some? ==> Same(id, EvalExpr(AtZero(c, id), x.value.1, r, bits),
               EvalExpr(c, x'.value.1, SubstExpr(r, id), bits)))
    decreases e, 0
  {
    ExprSubst(c, w, w', l, id, bits);
    var x, x' := EvalExpr(AtZero(c, id), w, l, bits), EvalExpr(c, w', SubstExpr(l, id), bits);
    if x.Some? { ExprSubst(c, x.value.1, x'.value.1, r, id, bits); }
  }

  lemma ExtendZero(kind: string, bits: nat, x: Bv, y: Bv)
    requires kind == "zext" || kind == "sext"
    requires x.value == 0 && y.value == 0
    ensures Extend(kind, bits, x) == Some(Bv(bits, 0)) == Extend(kind, bits, y)
  {}

  lemma {:induction false} PlainIsZero(c: Context, side: string, regs: Registers, w: Widths, op: Operand,
      desired: Option<nat>)
    requires op.ImmOp? && op.derived.None?
    requires Immediate(c, w, op.id, Or(desired, 64)).0 == Bv(Or(desired, 64), 0)
    ensures EvalOp(c, side, regs, w, op, desired)
            == Some((Bv(Or(desired, 64), 0), Immediate(c, w, op.id, Or(desired, 64)).1))
  {
    FitZero(Or(desired, 64), Or(desired, 64));
  }

  lemma {:induction false} LiteralIsZero(c: Context, side: string, regs: Registers, w: Widths, text: string,
      desired: Option<nat>)
    requires c.literal(text) == Some(0)
    ensures EvalOp(c, side, regs, w, LitOp(text), desired) == Some((Bv(Or(desired, 32), 0), w))
  {
    WrapZero(Or(desired, 32));
  }

  lemma DerivedSubst(c: Context, side: string, regs: Registers, w: Widths, w': Widths, op: Operand, id: int,
      value: string, desired: Option<nat>)
    requires op.ImmOp? && op.derived.Some? && ValidOp(op) && CleanOp(op, id) && WidthsBut(id, w, w') && id >= 1
    ensures Same(id, EvalOp(AtZero(c, id), side, regs, w, op, desired),
              EvalOp(c, side, regs, w', SubstOp(op, id, value), desired))
  {
    ExprSubst(c, w, w', op.derived.value, id, Or(desired, 64));
  }

  lemma OtherImmSubst(c: Context, side: string, regs: Registers, w: Widths, w': Widths, op: Operand, id: int,
      value: string, desired: Option<nat>)
    requires op.ImmOp? && op.derived.None? && op.id != id && WidthsBut(id, w, w')
    ensures Same(id, EvalOp(AtZero(c, id), side, regs, w, op, desired),
              EvalOp(c, side, regs, w', SubstOp(op, id, value), desired))
  {}

  /** The placeholder is a zero of the width asked for, or of 64 bits; the literal one of that width, or of 32 bits. */
  lemma {:induction false} BareSubst(c: Context, side: string, regs: Registers, w: Widths, w': Widths, op: Operand,
      id: int, value: string, desired: Option<nat>)
    requires Bare(op, id) && WidthsBut(id, w, w') && Replaces(c, id, value)
    ensures var x, x' := EvalOp(AtZero(c, id), side, regs, w, op, desired),
              EvalOp(c, side, regs, w', SubstOp(op, id, value), desired);
            && x.Some? && x.value.0 == Bv(Or(desired, 64), 0) && WidthsBut(id, x.value.1, w')
            && x' == Some((Bv(Or(desired, 32), 0), w'))
    decreases op
  {
    match op
    case ImmOp(_, _, hash, neg) =>
      ImmediateZero(c, w, id, Or(desired, 64));
      PlainIsZero(AtZero(c, id), side, regs, w, op, desired);
      WritesZeroText(hash, neg, value);
      LiteralIsZero(c, side, regs, w', LiteralText(hash, neg, value), desired);
    case ReadWriteOp(r, _) => BareSubst(c, side, regs, w, w', r, id, value, desired);
    case _ =>
  }

  lemma SliceSubst(c: Context, side: string, regs: Registers, w: Widths, w': Widths, op: Operand, id: int,
      value: string, desired: Option<nat>)
    requires op.BitSliceOp?
    requires Same(id, EvalOp(AtZero(c, id), side, regs, w, op.base, None),
               EvalOp(c, side, regs, w', SubstOp(op.base, id, value), None))
    ensures Same(id, EvalOp(AtZero(c, id), side, regs, w, op, desired),
              EvalOp(c, side, regs, w', SubstOp(op, id, value), desired))
  {}

  /** A slice of the bare placeholder is taken from both zeros or from neither, unless it is lost. */
  lemma BareSliceSubst(c: Context, side: string, regs: Registers, w: Widths, w': Widths, op: Operand, id: int,
      value: string, desired: Option<nat>)
    requires op.BitSliceOp? && Bare(op.base, id) && !LostSlice(Width(op.bits))
    requires WidthsBut(id, w, w') && Replaces(c, id, value)
    ensures Same(id, EvalOp(AtZero(c, id), side, regs, w, op, desired),
              EvalOp(c, side, regs, w', SubstOp(op, id, value), desired))
  {
    BareSubst(c, side, regs, w, w', op.base, id, value, None);
  }

  lemma ExtSubst(c: Context, side: string, regs: Registers, w: Widths, w': Widths, op: Operand, id: int, value: string,
      desired: Option<nat>)
    requires op.ExtOp? && (op.kind == "zext" || op.kind == "sext")
    requires var x, x' := EvalOp(AtZero(c, id), side, regs, w, op.value, None),
               EvalOp(c, side, regs, w', SubstOp(op.value, id, value), None);
             Same(id, x, x') || BothZero(id, x, x')
    ensures Same(id, EvalOp(AtZero(c, id), side, regs, w, op, desired),
              EvalOp(c, side, regs, w', SubstOp(op, id, value), desired))
  {
    var x, x' := EvalOp(AtZero(c, id), side, regs, w, op.value, None),
      EvalOp(c, side, regs, w', SubstOp(op.value, id, value), None);
    if BothZero(id, x, x') { ExtendZero(op.kind, Width(op.bits), x.value.0, x'.value.0); }
  }

  predicate Nested(op: Operand) { op.BitSliceOp? || op.ExtOp? || op.ReadWriteOp? }

  /** Operands without operands, and those that are never read as one. */
  lemma AtomSubst(c: Context, side: string, regs: Registers, w: Widths, w': Widths, op: Operand, id: int,
      value: string, desired: Option<nat>)
    requires ValidOp(op) && !Nested(op) && !op.ImmOp? && WidthsBut(id, w, w')
    ensures Same(id, EvalOp(AtZero(c, id), side, regs, w, op, desired),
              EvalOp(c, side, regs, w', SubstOp(op, id, value), desired))
  {}

  lemma ImmSubst(c: Context, side: string, regs: Registers, w: Widths, w': Widths, op: Operand, id: int,
      value: string, desired: Option<nat>)
    requires op.ImmOp? && ValidOp(op) && CleanOp(op, id) && !Bare(op, id) && WidthsBut(id, w, w') && id >= 1
    ensures Same(id, EvalOp(AtZero(c, id), side, regs, w, op, desired),
              EvalOp(c, side, regs, w', SubstOp(op, id, value), desired))
  {
    if op.derived.Some? { DerivedSubst(c, side, regs, w, w', op, id, value, desired); }
    else { OtherImmSubst(c, side, regs, w, w', op, id, value, desired); }
  }

  lemma {:induction false} NestedSubst(c: Context, side: string, regs: Registers, w: Widths, w': Widths, op: Operand,
      id: int, value: string, desired: Option<nat>)
    requires ValidOp(op) && CleanOp(op, id) && !Bare(op, id) && WidthsBut(id, w, w') && Replaces(c, id, value)
    requires Nested(op)
    ensures Same(id, EvalOp(AtZero(c, id), side, regs, w, op, desired),
              EvalOp(c, side, regs, w', SubstOp(op, id, value), desired))
    decreases op, 0
  {
    match op
    case ReadWriteOp(r, _) => OpSubst(c, side, regs, w, w', r, id, value, desired);
    case BitSliceOp(b, _) =>
      if Bare(b, id) {
        BareSliceSubst(c, side, regs, w, w', op, id, value, desired);
      } else {
        OpSubst(c, side, regs, w, w', b, id, value, None);
        SliceSubst(c, side, regs, w, w', op, id, value, desired);
      }
    case ExtOp(_, _, v) =>
      OpSubst(c, side, regs, w, w', v, id, value, None);
      ExtSubst(c, side, regs, w, w', op, id, value, desired);
  }

  /** A clean operand reads alike; only the bare placeholder, where nothing asks for a width, gives another width. */
  lemma {:induction false} OpSubst(c: Context, side: string, regs: Registers, w: Widths, w': Widths, op: Operand,
      id: int, value: string, desired: Option<nat>)
    requires ValidOp(op) && CleanOp(op, id) && WidthsBut(id, w, w') && Replaces(c, id, value)
    ensures var x, x' := EvalOp(AtZero(c, id), side, regs, w, op, desired),
              EvalOp(c, side, regs, w', SubstOp(op, id, value), desired);
            if Bare(op, id) && desired.None? then BothZero(id, x, x') else Same(id, x, x')
    decreases op, 1
  {
    if Bare(op, id) { BareSubst(c, side, regs, w, w', op, id, value, desired); }
    else if op.ImmOp? { ImmSubst(c, side, regs, w, w', op, id, value, desired); }
    else if Nested(op) { NestedSubst(c, side, regs, w, w', op, id, value, desired); }
    else { AtomSubst(c, side, regs, w, w', op, id, value, desired); }
  }

  lemma PartSubst(c: Context, side: string, regs: Registers, w: Widths, w': Widths, part: Option<Operand>, id: int,
      value: string, bits: nat, acc: Bv, mnemonic: string)
    requires ValidOpt(part) && CleanOpt(part, id) && WidthsBut(id, w, w') && Replaces(c, id, value)
    ensures Same(id, EvalPart(AtZero(c, id), side, regs, w, part, bits, acc, mnemonic),
              EvalPart(c, side, regs, w', SubstOpt(part, id, value), bits, acc, mnemonic))
  {
    if part.Some? { OpSubst(c, side, regs, w, w', part.value, id, value, Some(bits)); }
  }

  lemma IndexSubst(c: Context, side: string, regs: Registers, w: Widths, w': Widths, a: Address, id: int, value: string,
      bits: nat)
    requires ValidAddress(a) && CleanIndex(a, id) && WidthsBut(id, w, w') && Replaces(c, id, value)
    ensures Same(id, EvalIndex(AtZero(c, id), side, regs, w, a, bits),
              EvalIndex(c, side, regs, w', SubstAddress(a, id, value), bits))
  {
    if a.index.Some? {
      OpSubst(c, side, regs, w, w', a.index.value, id, value, Some(bits));
      var x := EvalOp(AtZero(c, id), side, regs, w, a.index.value, Some(bits));
      var x' := EvalOp(c, side, regs, w', SubstOp(a.index.value, id, value), Some(bits));
      if x.Some? {
        var v, v' := x.value.1, x'.value.1;
        if a.scale.Some? { PartSubst(c, side, regs, v, v', a.scale, id, value, bits, x.value.0, "mul"); }
        else { PartSubst(c, side, regs, v, v', a.shift, id, value, bits, x.value.0, "lsl"); }
      }
    }
  }

  lemma AddIndexSubst(id: int, base: Bv, index: Option<(Bv, Widths)>, index': Option<(Bv, Widths)>)
    requires Same(id, index, index')
    ensures Same(id, AddIndex(base, index), AddIndex(base, index'))
  {}

  lemma BaseIndexSubst(c: Context, side: string, regs: Registers, w: Widths, w': Widths, a: Address, id: int,
      value: string, bits: nat)
    requires ValidAddress(a) && CleanOpt(a.base, id) && CleanIndex(a, id)
    requires WidthsBut(id, w, w') && Replaces(c, id, value)
    ensures Same(id, EvalBaseIndex(AtZero(c, id), side, regs, w, a, bits),
              EvalBaseIndex(c, side, regs, w', SubstAddress(a, id, value), bits))
  {
    var a' := SubstAddress(a, id, value);
    PartSubst(c, side, regs, w, w', a.base, id, value, bits, Bv(bits, 0), "add");
    var base := EvalPart(AtZero(c, id), side, regs, w, a.base, bits, Bv(bits, 0), "add");
    var base' := EvalPart(c, side, regs, w', a'.base, bits, Bv(bits, 0), "add");
    if base.Some? {
      var v, v' := base.value.1, base'.value.1;
      IndexSubst(c, side, regs, v, v', a, id, value, bits);
      AddIndexSubst(id, base.value.0, EvalIndex(AtZero(c, id), side, regs, v, a, bits),
        EvalIndex(c, side, regs, v', a', bits));
    }
  }

  lemma AddressSubst(c: Context, side: string, regs: Registers, w: Widths, w': Widths, op: Operand, id: int,
      value: string, bits: nat)
    requires ValidOp(op) && WidthsBut(id, w, w') && Replaces(c, id, value)
    requires op.MemoryOp? ==> CleanAddress(op.address, id)
    ensures Same(id, EvalAddress(AtZero(c, id), side, regs, w, op, bits),
              EvalAddress(c, side, regs, w', SubstOp(op, id, value), bits))
  {
    if op.MemoryOp? {
      var a := op.address;
      BaseIndexSubst(c, side, regs, w, w', a, id, value, bits);
      var total := EvalBaseIndex(AtZero(c, id), side, regs, w, a, bits);
      var total' := EvalBaseIndex(c, side, regs, w', SubstAddress(a, id, value), bits);
      if total.Some? && a.writeback != "post" {
        PartSubst(c, side, regs, total.value.1, total'.value.1, a.displacement, id, value, bits, total.value.0, "add");
      }
    }
  }

  // ---- what is not clean is lost ----

  lemma {:induction false} ExprLost(c: Context, w: Widths, e: ImmExpr, id: int, bits: nat)
    requires !CleanExpr(e, id)
    ensures EvalExpr(c, w, SubstExpr(e, id), bits).None?
    decreases e, 1
  {
    match e
    case Neg(a) => ExprLost(c, w, a, id, bits);
    case BitOr(l, r) => PairLost(c, w, e, l, r, id, bits);
    case ShiftLeft(l, r) => PairLost(c, w, e, l, r, id, bits);
    case _ =>
  }

  lemma {:induction false} PairLost(c: Context, w: Widths, e: ImmExpr, l: ImmExpr, r: ImmExpr, id: int, bits: nat)
    requires e == BitOr(l, r) || e == ShiftLeft(l, r)
    requires !CleanExpr(l, id) || !CleanExpr(r, id)
    ensures var x := EvalExpr(c, w, SubstExpr(l, id), bits);
            x.None? || EvalExpr(c, x.value.1, SubstExpr(r, id), bits).None?
    decreases e, 0
  {
    var x := EvalExpr(c, w, SubstExpr(l, id), bits);
    if !CleanExpr(l, id) { ExprLost(c, w, l, id, bits); }
    else if x.Some? { ExprLost(c, x.value.1, r, id, bits); }
  }

  /** The substituted operand cannot be evaluated, whatever the symbols. */
  lemma {:induction false} OpLost(c: Context, side: string, regs: Registers, w: Widths, op: Operand, id: int,
      value: string, desired: Option<nat>)
    requires ValidOp(op) && !CleanOp(op, id) && Replaces(c, id, value)
    ensures EvalOp(c, side, regs, w, SubstOp(op, id, value), desired).None?
    decreases op
  {
    match op
    case ImmOp(_, derived, _, _) => ExprLost(c, w, derived.value, id, Or(desired, 64));
    case ReadWriteOp(r, _) => OpLost(c, side, regs, w, r, id, value, desired);
    case BitSliceOp(b, _) =>
      if CleanOp(b, id) { BareSubst(c, side, regs, w, w, b, id, value, None); }
      else { OpLost(c, side, regs, w, b, id, value, None); }
    case ExtOp(_, _, v) => OpLost(c, side, regs, w, v, id, value, None);
  }

  lemma PartLost(c: Context, side: string, regs: Registers, w: Widths, part: Option<Operand>, id: int, value: string,
      bits: nat, acc: Bv, mnemonic: string)
    requires ValidOpt(part) && !CleanOpt(part, id) && Replaces(c, id, value)
    ensures EvalPart(c, side, regs, w, SubstOpt(part, id, value), bits, acc, mnemonic).None?
  {
    OpLost(c, side, regs, w, part.value, id, value, Some(bits));
  }

  lemma IndexLost(c: Context, side: string, regs: Registers, w: Widths, a: Address, id: int, value: string, bits: nat)
    requires ValidAddress(a) && !CleanIndex(a, id) && Replaces(c, id, value)
    ensures EvalIndex(c, side, regs, w, SubstAddress(a, id, value), bits).None?
  {
    var x := EvalOp(c, side, regs, w, SubstOp(a.index.value, id, value), Some(bits));
    if !CleanOpt(a.index, id) { OpLost(c, side, regs, w, a.index.value, id, value, Some(bits)); }
    else if x.Some? && a.scale.Some? { PartLost(c, side, regs, x.value.1, a.scale, id, value, bits, x.value.0, "mul"); }
    else if x.Some? { PartLost(c, side, regs, x.value.1, a.shift, id, value, bits, x.value.0, "lsl"); }
  }

  lemma BaseIndexLost(c: Context, side: string, regs: Registers, w: Widths, a: Address, id: int, value: string,
      bits: nat)
    requires ValidAddress(a) && !(CleanOpt(a.base, id) && CleanIndex(a, id)) && Replaces(c, id, value)
    ensures EvalBaseIndex(c, side, regs, w, SubstAddress(a, id, value), bits).None?
  {
    var base := EvalPart(c, side, regs, w, SubstOpt(a.base, id, value), bits, Bv(bits, 0), "add");
    if !CleanOpt(a.base, id) { PartLost(c, side, regs, w, a.base, id, value, bits, Bv(bits, 0), "add"); }
    else if base.Some? { IndexLost(c, side, regs, base.value.1, a, id, value, bits); }
  }

  lemma AddressLost(c: Context, side: string, regs: Registers, w: Widths, op: Operand, id: int, value: string,
      bits: nat)
    requires ValidOp(op) && op.MemoryOp? && !CleanAddress(op.address, id) && Replaces(c, id, value)
    ensures EvalAddress(c, side, regs, w, SubstOp(op, id, value), bits).None?
  {
    var a := op.address;
    var total := EvalBaseIndex(c, side, regs, w, SubstAddress(a, id, value), bits);
    if !(CleanOpt(a.base, id) && CleanIndex(a, id)) { BaseIndexLost(c, side, regs, w, a, id, value, bits); }
    else if total.Some? {
      PartLost(c, side, regs, total.value.1, a.displacement, id, value, bits, total.value.0, "add");
    }
  }

  lemma BinaryLost(c: Context, side: string, st: State, mnemonic: string, ops: seq<Operand>, id: int, value: string)
    requires ValidOps(ops) && !CleanSources(ops, id) && Replaces(c, id, value)
    ensures EvalBinary(c, side, st, mnemonic, SubstOps(ops, id, value)).None?
  {
    var s := FirstSource(ops).value;
    var x := EvalOp(c, side, st.regs, st.widths, SubstOp(s, id, value), None);
    if !CleanOp(s, id) { OpLost(c, side, st.regs, st.widths, s, id, value, None); }
    else if x.Some? { OpLost(c, side, st.regs, x.value.1, ops[|ops| - 1], id, value, Some(x.value.0.width)); }
  }

  lemma InstLost(c: Context, side: string, st: State, inst: Instruction, id: int, value: string)
    requires ValidInst(inst) && !CleanInst(inst, id) && Replaces(c, id, value)
    ensures EvalInst(c, side, st, SubstInst(inst, id, value)).None?
  {
    var ops, m := inst.operands, Lower(inst.mnemonic);
    if m == "mov" || m == "movzx" {
      OpLost(c, side, st.regs, st.widths, ops[1], id, value, None);
    } else if m == "lea" {
      var dst := SubstOp(ops[0], id, value);
      if Destination(dst).Some? {
        AddressLost(c, side, st.regs, st.widths, ops[1], id, value, Width(Destination(dst).value.bits));
      }
    } else {
      BinaryLost(c, side, st, m, ops, id, value);
    }
  }

  lemma {:induction false} InstsLost(c: Context, side: string, st: State, insts: seq<Instruction>, id: int,
      value: string)
    requires ValidInsts(insts) && !CleanInsts(insts, id) && Replaces(c, id, value)
    ensures EvalInsts(c, side, st, SubstInsts(insts, id, value)).None?
    decreases |insts|
  {
    var next := EvalInst(c, side, st, SubstInst(insts[0], id, value));
    assert SubstInsts(insts, id, value)[1..] == SubstInsts(insts[1..], id, value);
    if !CleanInst(insts[0], id) {
      InstLost(c, side, st, insts[0], id, value);
    } else if next.Some? {
      CleanTail(insts, id);
      InstsLost(c, side, next.value, insts[1..], id, value);
    }
  }

  lemma CleanTail(insts: seq<Instruction>, id: int)
    requires insts != []
    ensures CleanInsts(insts, id) <==> CleanInst(insts[0], id) && CleanInsts(insts[1..], id)
  {
    assert insts == [insts[0]] + insts[1..];
  }

  /** A rule that reads an operand that is not clean becomes unsupported. */
  lemma RuleLost(c: Context, r: Rule, id: int, value: string)
    requires ValidRule(r) && !CleanRule(r, id) && Replaces(c, id, value)
    ensures EvalRule(c, SubstImm(r, id, value)).None?
  {
    var s, start := SubstImm(r, id, value), State(map[], map[]);
    var guest := EvalInsts(c, "guest", start, s.guest);
    if !CleanInsts(r.guest, id) { InstsLost(c, "guest", start, r.guest, id, value); }
    else if guest.Some? { InstsLost(c, "host", State(map[], guest.value.widths), r.host, id, value); }
  }

  // ---- instructions ----

  ghost predicate SameState(id: int, st: Option<State>, st': Option<State>) {
    && (st.Some? <==> st'.Some?)
    && (st.Some? ==> st.value.regs == st'.value.regs && WidthsBut(id, st.value.widths, st'.value.widths))
  }

  lemma DestinationSubst(st: State, dst: Operand, id: int, value: string, x: Option<(Bv, Widths)>)
    ensures Destination(SubstOp(dst, id, value)) == Destination(dst)
    ensures Assign(st, SubstOp(dst, id, value), x) == Assign(st, dst, x)
  {}

  lemma OperateSubst(id: int, mnemonic: string, x: Bv, y: Option<(Bv, Widths)>, y': Option<(Bv, Widths)>)
    requires Same(id, y, y')
    ensures Same(id, Operate(mnemonic, x, y), Operate(mnemonic, x, y'))
  {}

  lemma SecondSubst(c: Context, side: string, regs: Registers, mnemonic: string, x: (Bv, Widths), x': (Bv, Widths),
      last: Operand, id: int, value: string)
    requires ValidOp(last) && CleanOp(last, id) && x.0 == x'.0 && WidthsBut(id, x.1, x'.1) && Replaces(c, id, value)
    ensures Same(id, WithSecond(AtZero(c, id), side, regs, mnemonic, x, last),
              WithSecond(c, side, regs, mnemonic, x', SubstOp(last, id, value)))
  {
    var bits := Some(x.0.width);
    OpSubst(c, side, regs, x.1, x'.1, last, id, value, bits);
    OperateSubst(id, mnemonic, x.0, EvalOp(AtZero(c, id), side, regs, x.1, last, bits),
      EvalOp(c, side, regs, x'.1, SubstOp(last, id, value), bits));
  }

  // ---- first sources that are zero either way ----

  lemma {:induction false} ZeroAnd(a: nat, n: nat)
    ensures Bitwise(BitAnd, 0, a, n) == 0
  {
    if n > 0 { ZeroAnd(a / 2, n - 1); }
  }

  lemma ZeroOperation(mnemonic: string, n: nat, y: Bv)
    requires mnemonic in ZEROING
    ensures Binary(mnemonic, Bv(n, 0), y) == Some(Bv(n, 0))
  {
    WrapZero(n);
    if mnemonic == "and" { ZeroAnd(y.value, n); }
    else if mnemonic == "mul" || mnemonic == "imul" {}
    else { ZeroShift(mnemonic, n, y); }
  }

  lemma ZeroShift(mnemonic: string, n: nat, y: Bv)
    requires mnemonic in ZEROING && mnemonic !in {"and", "mul", "imul"}
    ensures Shift(mnemonic, Bv(n, 0), y) == Some(Bv(n, 0))
  {
    WrapZero(n);
    assert forall k: nat :: 0 * Pow2(k) == 0 && 0 / Pow2(k) == 0;
  }

  predicate NoImms(ks: seq<Key>) { forall k :: k in ks ==> !k.space.Imm? }

  lemma ReferenceNamed(e: ImmExpr)
    ensures e.ImmRef? || (e.Log2? && e.arg.ImmRef?) ==> !NoImms(KeysExpr(e))
  {
    if e.ImmRef? { assert ImmKey(e.id) in KeysExpr(e); }
    if e.Log2? && e.arg.ImmRef? { assert ImmKey(e.arg.id) in KeysExpr(e); }
  }

  lemma PlainNamed(op: Operand)
    ensures op.ImmOp? && op.derived.None? ==> !NoImms(KeysOp(op))
  {
    if op.ImmOp? && op.derived.None? { assert ImmKey(op.id) in KeysOp(op); }
  }

  lemma {:induction false} NoImmsExpr(c: Context, w: Widths, e: ImmExpr, bits: nat, more: nat)
    requires NoImms(KeysExpr(e))
    ensures var x, y := EvalExpr(c, w, e, bits), EvalExpr(c, w, e, more);
            (x.Some? <==> y.Some?) && (x.Some? ==> x.value.1 == w == y.value.1)
    decreases e
  {
    ReferenceNamed(e);
    match e
    case Neg(a) => NoImmsExpr(c, w, a, bits, more);
    case BitOr(l, r) =>
      NoImmsExpr(c, w, l, bits, more);
      NoImmsExpr(c, w, r, bits, more);
    case ShiftLeft(l, r) =>
      NoImmsExpr(c, w, l, bits, more);
      NoImmsExpr(c, w, r, bits, more);
    case _ =>
  }

  /** Without immediates an operand is evaluated, or not, at every width, and fixes the width of no symbol. */
  lemma {:induction false} NoImmsOp(c: Context, side: string, regs: Registers, w: Widths, op: Operand,
      desired: Option<nat>, other: Option<nat>)
    requires NoImms(KeysOp(op))
    ensures var x, y := EvalOp(c, side, regs, w, op, desired), EvalOp(c, side, regs, w, op, other);
            (x.Some? <==> y.Some?) && (x.Some? ==> x.value.1 == w == y.value.1)
    decreases op
  {
    PlainNamed(op);
    match op
    case ImmOp(_, derived, _, _) =>
      if derived.Some? { NoImmsExpr(c, w, derived.value, Or(desired, 64), Or(other, 64)); }
    case ReadWriteOp(r, _) => NoImmsOp(c, side, regs, w, r, desired, other);
    case BitSliceOp(b, _) => NoImmsOp(c, side, regs, w, b, None, None);
    case ExtOp(_, _, v) => NoImmsOp(c, side, regs, w, v, None, None);
    case _ =>
  }

  lemma OnlyNameGone(op: Operand, id: int, value: string)
    requires ValidOp(op) && NamesOnly(op, id) && id >= 1
    ensures NoImms(KeysOp(SubstOp(op, id, value)))
  {
    SubstOpKeys(op, id, value);
    WithoutMembers(KeysOp(op), ImmKey(id));
  }

  /** Both operations give zero, at the widths of the placeholder and of the literal. */
  lemma ZeroSecondSubst(c: Context, side: string, regs: Registers, mnemonic: string, x: (Bv, Widths), x': (Bv, Widths),
      last: Operand, id: int, value: string)
    requires ValidOp(last) && CleanOp(last, id) && NamesOnly(last, id) && mnemonic in ZEROING
    requires x.0.value == 0 && x'.0.value == 0 && WidthsBut(id, x.1, x'.1) && Replaces(c, id, value)
    ensures var z, z' := WithSecond(AtZero(c, id), side, regs, mnemonic, x, last),
              WithSecond(c, side, regs, mnemonic, x', SubstOp(last, id, value));
            Same(id, z, z') || BothZero(id, z, z')
  {
    var n, n' := x.0.width, x'.0.width;
    OpSubst(c, side, regs, x.1, x'.1, last, id, value, Some(n));
    OnlyNameGone(last, id, value);
    NoImmsOp(c, side, regs, x'.1, SubstOp(last, id, value), Some(n), Some(n'));
    var y, y' := EvalOp(AtZero(c, id), side, regs, x.1, last, Some(n)),
      EvalOp(c, side, regs, x'.1, SubstOp(last, id, value), Some(n'));
    assert x.0 == Bv(n, 0) && x'.0 == Bv(n', 0);
    if y.Some? {
      ZeroOperation(mnemonic, n, FitWidth(y.value.0, n));
      ZeroOperation(mnemonic, n', FitWidth(y'.value.0, n'));
    }
  }

  // ---- the whole rule ----

  lemma BinarySubst(c: Context, side: string, st: State, st': State, mnemonic: string, ops: seq<Operand>, id: int,
      value: string)
    requires ValidOps(ops) && CleanSources(ops, id) && SourceKeeps(mnemonic, ops, id)
    requires SameState(id, Some(st), Some(st')) && Replaces(c, id, value)
    ensures var z, z' := EvalBinary(AtZero(c, id), side, st, mnemonic, ops),
              EvalBinary(c, side, st', mnemonic, SubstOps(ops, id, value));
            Same(id, z, z') || BothZero(id, z, z')
  {
    var ops' := SubstOps(ops, id, value);
    if FirstSource(ops).Some? {
      var s, last := FirstSource(ops).value, ops[|ops| - 1];
      assert FirstSource(ops') == Some(SubstOp(s, id, value)) && ops'[|ops'| - 1] == SubstOp(last, id, value);
      OpSubst(c, side, st.regs, st.widths, st'.widths, s, id, value, None);
      var x := EvalOp(AtZero(c, id), side, st.regs, st.widths, s, None);
      var x' := EvalOp(c, side, st.regs, st'.widths, SubstOp(s, id, value), None);
      if Bare(s, id) { ZeroSecondSubst(c, side, st.regs, mnemonic, x.value, x'.value, last, id, value); }
      else if x.Some? { SecondSubst(c, side, st.regs, mnemonic, x.value, x'.value, last, id, value); }
    }
  }

  lemma AssignSubst(id: int, st: State, st': State, dst: Operand, x: Option<(Bv, Widths)>, x': Option<(Bv, Widths)>)
    requires SameState(id, Some(st), Some(st')) && (Same(id, x, x') || BothZero(id, x, x'))
    ensures SameState(id, Assign(st, dst, x), Assign(st', dst, x'))
  {
    if BothZero(id, x, x') && Destination(dst).Some? {
      var bits := Width(Destination(dst).value.bits);
      FitZero(x.value.0.width, bits);
      FitZero(x'.value.0.width, bits);
    }
  }

  lemma MoveSubst(c: Context, side: string, st: State, st': State, dst: Operand, src: Operand, id: int, value: string)
    requires ValidOp(src) && CleanOp(src, id) && SameState(id, Some(st), Some(st')) && Replaces(c, id, value)
    ensures SameState(id, Assign(st, dst, EvalOp(AtZero(c, id), side, st.regs, st.widths, src, None)),
              Assign(st', dst, EvalOp(c, side, st'.regs, st'.widths, SubstOp(src, id, value), None)))
  {
    OpSubst(c, side, st.regs, st.widths, st'.widths, src, id, value, None);
    AssignSubst(id, st, st', dst, EvalOp(AtZero(c, id), side, st.regs, st.widths, src, None),
      EvalOp(c, side, st'.regs, st'.widths, SubstOp(src, id, value), None));
  }

  lemma LeaSubst(c: Context, side: string, st: State, st': State, dst: Operand, src: Operand, id: int, value: string)
    requires ValidOp(src) && (src.MemoryOp? ==> CleanAddress(src.address, id)) && Destination(dst).Some?
    requires SameState(id, Some(st), Some(st')) && Replaces(c, id, value)
    ensures var bits := Width(Destination(dst).value.bits);
            SameState(id, Assign(st, dst, EvalAddress(AtZero(c, id), side, st.regs, st.widths, src, bits)),
              Assign(st', dst, EvalAddress(c, side, st'.regs, st'.widths, SubstOp(src, id, value), bits)))
  {
    AddressSubst(c, side, st.regs, st.widths, st'.widths, src, id, value, Width(Destination(dst).value.bits));
  }

  lemma InstSubst(c: Context, side: string, st: State, st': State, inst: Instruction, id: int, value: string)
    requires ValidInst(inst) && CleanInst(inst, id) && FirstSourceKeeps(inst, id)
    requires SameState(id, Some(st), Some(st')) && Replaces(c, id, value)
    ensures SameState(id, EvalInst(AtZero(c, id), side, st, inst), EvalInst(c, side, st', SubstInst(inst, id, value)))
  {
    var ops, ops', m := inst.operands, SubstOps(inst.operands, id, value), Lower(inst.mnemonic);
    assert |SubstMetas(inst.meta, id, value)| == |inst.meta|;
    assert |SubstMetas(inst.postMeta, id, value)| == |inst.postMeta|;
    if inst.meta == [] && inst.postMeta == [] && |ops| >= 2 {
      DestinationSubst(st', ops[0], id, value, None);
      if m == "mov" || m == "movzx" {
        MoveSubst(c, side, st, st', ops[0], ops[1], id, value);
        DestinationSubst(st', ops[0], id, value, EvalOp(c, side, st'.regs, st'.widths, ops'[1], None));
      } else if m == "lea" {
        if Destination(ops[0]).Some? {
          var bits := Width(Destination(ops[0]).value.bits);
          LeaSubst(c, side, st, st', ops[0], ops[1], id, value);
          DestinationSubst(st', ops[0], id, value, EvalAddress(c, side, st'.regs, st'.widths, ops'[1], bits));
        }
      } else if m in BINARY {
        BinarySubst(c, side, st, st', m, ops, id, value);
        AssignSubst(id, st, st', ops[0], EvalBinary(AtZero(c, id), side, st, m, ops),
          EvalBinary(c, side, st', m, ops'));
        DestinationSubst(st', ops[0], id, value, EvalBinary(c, side, st', m, ops'));
      }
    }
  }

  lemma {:induction false} InstsSubst(c: Context, side: string, st: State, st': State, insts: seq<Instruction>, id: int,
      value: string)
    requires ValidInsts(insts) && CleanInsts(insts, id)
    requires forall i :: 0 <= i < |insts| ==> FirstSourceKeeps(insts[i], id)
    requires SameState(id, Some(st), Some(st')) && Replaces(c, id, value)
    ensures SameState(id, EvalInsts(AtZero(c, id), side, st, insts),
              EvalInsts(c, side, st', SubstInsts(insts, id, value)))
    decreases |insts|
  {
    if insts != [] {
      InstSubst(c, side, st, st', insts[0], id, value);
      var next, next' := EvalInst(AtZero(c, id), side, st, insts[0]),
        EvalInst(c, side, st', SubstInst(insts[0], id, value));
      assert SubstInsts(insts, id, value)[1..] == SubstInsts(insts[1..], id, value);
      CleanTail(insts, id);
      if next.Some? { InstsSubst(c, side, next.value, next'.value, insts[1..], id, value); }
    }
  }

  /** Evaluating the substituted rule is evaluating the rule with the placeholder at zero. */
  lemma RuleSubst(c: Context, r: Rule, id: int, value: string)
    requires ValidRule(r) && CleanRule(r, id) && FirstSourcesKeep(r, id) && Replaces(c, id, value)
    ensures EvalRule(AtZero(c, id), r) == EvalRule(c, SubstImm(r, id, value))
  {
    var d, start, s := AtZero(c, id), State(map[], map[]), SubstImm(r, id, value);
    InstsSubst(c, "guest", start, start, r.guest, id, value);
    var guest, guest' := EvalInsts(d, "guest", start, r.guest), EvalInsts(c, "guest", start, s.guest);
    if guest.Some? {
      InstsSubst(c, "host", State(map[], guest.value.widths), State(map[], guest'.value.widths), r.host, id, value);
    }
  }

  /** A passing rule passes with a reserved literal in place of a clean immediate whose domain holds zero. */
  lemma SubstPasses(domains: Domains, literal: string -> Option<int>, r: Rule, id: int, value: string)
    requires Passes(domains, literal, r) && 0 in domains(id) && CleanRule(r, id) && FirstSourcesKeep(r, id)
    requires ValidRule(r) && ReadsZero(literal) && value in RESERVED && id >= 1
    ensures Passes(domains, literal, SubstImm(r, id, value))
  {
    forall vals: Valuation | InDomains(vals, domains)
      ensures var result := EvalRule(Context(domains, literal, vals), SubstImm(r, id, value));
              result.Some? && Agree(result.value.0, result.value.1)
    {
      var c := Context(domains, literal, vals);
      RuleSubst(c, r, id, value);
      var d := AtZero(c, id);
      assert InDomains(d.vals, domains);
      assert d == Context(domains, literal, d.vals);
    }
  }

  /** Some valuation keeps every immediate in its domain. */
  lemma DomainsInhabited(domains: Domains) returns (vals: Valuation)
    ensures InDomains(vals, domains)
  {
    vals := Valuation((k: Key) => 0, (side: string, k: Key, bits: int) => 0,
      (id: int) => if domains(id) != [] then domains(id)[0] else 0);
  }

  /** No rule passes once an immediate it does not read cleanly is replaced. */
  lemma LostNeverPasses(domains: Domains, literal: string -> Option<int>, r: Rule, id: int, value: string)
    requires ValidRule(r) && !CleanRule(r, id) && ReadsZero(literal) && value in RESERVED && id >= 1
    ensures !Passes(domains, literal, SubstImm(r, id, value))
  {
    var vals := DomainsInhabited(domains);
    RuleLost(Context(domains, literal, vals), r, id, value);
  }

  /** A passing rule still passes after the substitution exactly when it reads the immediate cleanly everywhere. */
  lemma SubstPassesIff(domains: Domains, literal: string -> Option<int>, r: Rule, id: int, value: string)
    requires Passes(domains, literal, r) && 0 in domains(id) && FirstSourcesKeep(r, id)
    requires ValidRule(r) && ReadsZero(literal) && value in RESERVED && id >= 1
    ensures Passes(domains, literal, SubstImm(r, id, value)) <==> CleanRule(r, id)
  {
    if CleanRule(r, id) { SubstPasses(domains, literal, r, id, value); }
    else { LostNeverPasses(domains, literal, r, id, value); }
  }
}
