/** Replacing one immediate placeholder of a rule by a reserved literal. */
module Substitution {
  import opened Wrappers
  import opened RuleAst
  import opened Fingerprint
  import opened Semantics
  import opened Numerals

  const RESERVED := ["000", "00", "0"]

  function SubstExpr(e: ImmExpr, id: int): ImmExpr {
    match e
    case ImmRef(i) => if i == id then IntLit(0) else e
    case Neg(a) => Neg(SubstExpr(a, id))
    case Log2(a) => Log2(SubstExpr(a, id))
    case BitOr(l, r) => BitOr(SubstExpr(l, id), SubstExpr(r, id))
    case ShiftLeft(l, r) => ShiftLeft(SubstExpr(l, id), SubstExpr(r, id))
    case _ => e
  }

  /** A negative occurrence prints the negated value, which is zero again. */
  function LiteralText(hash: bool, neg: bool, value: string): string {
    (if hash then "#" else "") + (if neg then "0" else value)
  }

  function SubstOp(op: Operand, id: int, value: string): Operand {
    match op
    case ImmOp(i, derived, hash, neg) =>
      if i == id then LitOp(LiteralText(hash, neg, value))
      else if derived.Some? then ImmOp(0, Some(SubstExpr(derived.value, id)), hash, neg)
      else op
    case RegViewOp(b, bits) => RegViewOp(SubstOp(b, id, value), bits)
    case BitSliceOp(b, bits) => BitSliceOp(SubstOp(b, id, value), bits)
    case ExtOp(kind, bits, v) => ExtOp(kind, bits, SubstOp(v, id, value))
    case ReadWriteOp(r, w) => ReadWriteOp(SubstOp(r, id, value), SubstOp(w, id, value))
    case MemoryOp(a, syntax, valueBits, size) => MemoryOp(SubstAddress(a, id, value), syntax, valueBits, size)
    case _ => op
  }

  function SubstAddress(a: Address, id: int, value: string): Address {
    Address(SubstOpt(a.base, id, value), SubstOpt(a.index, id, value), SubstOpt(a.scale, id, value),
            SubstOpt(a.shift, id, value), SubstOpt(a.displacement, id, value), a.writeback)
  }

  function SubstOpt(o: Option<Operand>, id: int, value: string): Option<Operand> {
    if o.None? then None else Some(SubstOp(o.value, id, value))
  }

  function SubstOps(ops: seq<Operand>, id: int, value: string): (r: seq<Operand>)
    ensures |r| == |ops| && forall i :: 0 <= i < |ops| ==> r[i] == SubstOp(ops[i], id, value)
  {
    if ops == [] then [] else [SubstOp(ops[0], id, value)] + SubstOps(ops[1..], id, value)
  }

  function SubstMetas(ms: seq<MetaOp>, id: int, value: string): (r: seq<MetaOp>)
    ensures |r| == |ms| && forall i :: 0 <= i < |ms| ==> r[i] == MetaOp(ms[i].kind, SubstOps(ms[i].regs, id, value))
  {
    if ms == [] then [] else [MetaOp(ms[0].kind, SubstOps(ms[0].regs, id, value))] + SubstMetas(ms[1..], id, value)
  }

  function SubstInst(inst: Instruction, id: int, value: string): Instruction {
    Instruction(inst.mnemonic, SubstOps(inst.operands, id, value), SubstMetas(inst.meta, id, value),
        SubstMetas(inst.postMeta, id, value))
  }

  function SubstInsts(insts: seq<Instruction>, id: int, value: string): (r: seq<Instruction>)
    ensures |r| == |insts| && forall i :: 0 <= i < |insts| ==> r[i] == SubstInst(insts[i], id, value)
  {
    if insts == [] then [] else [SubstInst(insts[0], id, value)] + SubstInsts(insts[1..], id, value)
  }

  function SubstImm(r: Rule, id: int, value: string): Rule {
    r.(guest := SubstInsts(r.guest, id, value), host := SubstInsts(r.host, id, value))
  }

  // ---- substitution removes exactly the placeholder it names ----

  function Without(ks: seq<Key>, k: Key): seq<Key> {
    if ks == [] then [] else (if ks[0] == k then [] else [ks[0]]) + Without(ks[1..], k)
  }

  lemma {:induction false} WithoutConcat(a: seq<Key>, b: seq<Key>, k: Key)
    ensures Without(a + b, k) == Without(a, k) + Without(b, k)
  {
    if a == [] { assert a + b == b; } else { assert (a + b)[1..] == a[1..] + b; WithoutConcat(a[1..], b, k); }
  }

  lemma {:induction false} WithoutMembers(ks: seq<Key>, k: Key)
    ensures forall j :: j in Without(ks, k) <==> j in ks && j != k
  {
    if ks != [] { WithoutMembers(ks[1..], k); assert ks == [ks[0]] + ks[1..]; }
  }

  lemma {:induction false} SubstExprKeys(e: ImmExpr, id: int)
    ensures KeysExpr(SubstExpr(e, id)) == Without(KeysExpr(e), ImmKey(id))
  {
    match e
    case Neg(a) => SubstExprKeys(a, id);
    case Log2(a) => SubstExprKeys(a, id);
    case BitOr(l, r) => SubstExprKeys(l, id); SubstExprKeys(r, id); WithoutConcat(KeysExpr(l), KeysExpr(r), ImmKey(id));
    case ShiftLeft(l, r) =>
      SubstExprKeys(l, id);
      SubstExprKeys(r, id);
      WithoutConcat(KeysExpr(l), KeysExpr(r), ImmKey(id));
    case _ =>
  }

  lemma {:induction false} SubstOpKeys(op: Operand, id: int, value: string)
    requires ValidOp(op) && id >= 1
    ensures KeysOp(SubstOp(op, id, value)) == Without(KeysOp(op), ImmKey(id))
    ensures ValidOp(SubstOp(op, id, value))
  {
    match op
    case ImmOp(_, derived, _, _) => if derived.Some? { SubstExprKeys(derived.value, id); }
    case RegViewOp(b, _) => SubstOpKeys(b, id, value);
    case BitSliceOp(b, _) => SubstOpKeys(b, id, value);
    case ExtOp(_, _, v) => SubstOpKeys(v, id, value);
    case ReadWriteOp(r, w) =>
      SubstOpKeys(r, id, value);
      SubstOpKeys(w, id, value);
      WithoutConcat(KeysOp(r), KeysOp(w), ImmKey(id));
    case MemoryOp(a, _, _, _) => SubstAddressKeys(a, id, value);
    case _ =>
  }

  lemma {:induction false} SubstAddressKeys(a: Address, id: int, value: string)
    requires ValidAddress(a) && id >= 1
    ensures KeysAddress(SubstAddress(a, id, value)) == Without(KeysAddress(a), ImmKey(id))
    ensures ValidAddress(SubstAddress(a, id, value))
  {
    var k := ImmKey(id);
    SubstOptKeys(a.base, id, value);
    SubstOptKeys(a.index, id, value);
    SubstOptKeys(a.scale, id, value);
    SubstOptKeys(a.shift, id, value);
    SubstOptKeys(a.displacement, id, value);
    WithoutConcat(KeysOpt(a.base) + KeysOpt(a.index) + KeysOpt(a.scale) + KeysOpt(a.shift), KeysOpt(a.displacement), k);
    WithoutConcat(KeysOpt(a.base) + KeysOpt(a.index) + KeysOpt(a.scale), KeysOpt(a.shift), k);
    WithoutConcat(KeysOpt(a.base) + KeysOpt(a.index), KeysOpt(a.scale), k);
    WithoutConcat(KeysOpt(a.base), KeysOpt(a.index), k);
  }

  lemma {:induction false} SubstOptKeys(o: Option<Operand>, id: int, value: string)
    requires ValidOpt(o) && id >= 1
    ensures KeysOpt(SubstOpt(o, id, value)) == Without(KeysOpt(o), ImmKey(id))
    ensures ValidOpt(SubstOpt(o, id, value))
  {
    if o.Some? { SubstOpKeys(o.value, id, value); }
  }

  lemma {:induction false} SubstOpsKeys(ops: seq<Operand>, id: int, value: string)
    requires ValidOps(ops) && id >= 1
    ensures KeysOps(SubstOps(ops, id, value)) == Without(KeysOps(ops), ImmKey(id))
    ensures ValidOps(SubstOps(ops, id, value))
  {
    if ops != [] {
      SubstOpKeys(ops[0], id, value);
      SubstOpsKeys(ops[1..], id, value);
      WithoutConcat(KeysOp(ops[0]), KeysOps(ops[1..]), ImmKey(id));
      assert SubstOps(ops, id, value)[1..] == SubstOps(ops[1..], id, value);
    }
  }

  lemma {:induction false} SubstMetasKeys(ms: seq<MetaOp>, id: int, value: string)
    requires ValidMetas(ms) && id >= 1
    ensures KeysMetas(SubstMetas(ms, id, value)) == Without(KeysMetas(ms), ImmKey(id))
    ensures ValidMetas(SubstMetas(ms, id, value))
  {
    if ms != [] {
      SubstOpsKeys(ms[0].regs, id, value);
      SubstMetasKeys(ms[1..], id, value);
      WithoutConcat(KeysOps(ms[0].regs), KeysMetas(ms[1..]), ImmKey(id));
      assert SubstMetas(ms, id, value)[1..] == SubstMetas(ms[1..], id, value);
    }
  }

  lemma SubstInstKeys(inst: Instruction, id: int, value: string)
    requires ValidInst(inst) && id >= 1
    ensures KeysInst(SubstInst(inst, id, value)) == Without(KeysInst(inst), ImmKey(id))
    ensures ValidInst(SubstInst(inst, id, value))
  {
    SubstMetasKeys(inst.meta, id, value);
    SubstOpsKeys(inst.operands, id, value);
    SubstMetasKeys(inst.postMeta, id, value);
    WithoutConcat(KeysMetas(inst.meta) + KeysOps(inst.operands), KeysMetas(inst.postMeta), ImmKey(id));
    WithoutConcat(KeysMetas(inst.meta), KeysOps(inst.operands), ImmKey(id));
  }

  lemma {:induction false} SubstInstsKeys(insts: seq<Instruction>, id: int, value: string)
    requires ValidInsts(insts) && id >= 1
    ensures KeysInsts(SubstInsts(insts, id, value)) == Without(KeysInsts(insts), ImmKey(id))
    ensures ValidInsts(SubstInsts(insts, id, value))
  {
    if insts != [] {
      SubstInstKeys(insts[0], id, value);
      SubstInstsKeys(insts[1..], id, value);
      WithoutConcat(KeysInst(insts[0]), KeysInsts(insts[1..]), ImmKey(id));
      assert SubstInsts(insts, id, value)[1..] == SubstInsts(insts[1..], id, value);
    }
  }

  lemma SubstImmKeys(r: Rule, id: int, value: string)
    requires ValidRule(r) && id >= 1
    ensures KeysRule(SubstImm(r, id, value)) == Without(KeysRule(r), ImmKey(id))
    ensures ValidRule(SubstImm(r, id, value))
  {
    SubstInstsKeys(r.guest, id, value);
    SubstInstsKeys(r.host, id, value);
    WithoutConcat(KeysInsts(r.guest), KeysInsts(r.host), ImmKey(id));
  }

  // ---- substitution commutes with renaming ----

  /** `rho` sends exactly the placeholder `id`, among the immediates of `ks`, to `id'`. */
  ghost predicate Targets(rho: Renaming, ks: seq<Key>, id: int, id': int) {
    id >= 1 && id' >= 1 && forall i :: 0 <= i < |ks| && ks[i].space.Imm? ==>
        (NewId(rho, ks[i]) == id' <==> ks[i] == ImmKey(id))
  }

  lemma TargetsSplit(rho: Renaming, a: seq<Key>, b: seq<Key>, id: int, id': int)
    requires Targets(rho, a + b, id, id')
    ensures Targets(rho, a, id, id') && Targets(rho, b, id, id')
  {
    forall i | 0 <= i < |a| && a[i].space.Imm? ensures NewId(rho, a[i]) == id' <==> a[i] == ImmKey(id) {
      assert (a + b)[i] == a[i];
    }
    forall i | 0 <= i < |b| && b[i].space.Imm? ensures NewId(rho, b[i]) == id' <==> b[i] == ImmKey(id) {
      assert (a + b)[|a| + i] == b[i];
    }
  }

  lemma {:induction false} SubstRenameExpr(rho: Renaming, e: ImmExpr, id: int, id': int)
    requires Targets(rho, KeysExpr(e), id, id')
    ensures SubstExpr(RenameExpr(rho, e), id') == RenameExpr(rho, SubstExpr(e, id))
  {
    match e
    case ImmRef(i) => assert KeysExpr(e)[0] == ImmKey(i);
    case Neg(a) => SubstRenameExpr(rho, a, id, id');
    case Log2(a) => SubstRenameExpr(rho, a, id, id');
    case BitOr(l, r) =>
      TargetsSplit(rho, KeysExpr(l), KeysExpr(r), id, id');
      SubstRenameExpr(rho, l, id, id');
      SubstRenameExpr(rho, r, id, id');
    case ShiftLeft(l, r) =>
      TargetsSplit(rho, KeysExpr(l), KeysExpr(r), id, id');
      SubstRenameExpr(rho, l, id, id');
      SubstRenameExpr(rho, r, id, id');
    case _ =>
  }

  lemma {:induction false} SubstRenameOp(rho: Renaming, op: Operand, id: int, id': int, value: string)
    requires ValidOp(op) && Targets(rho, KeysOp(op), id, id')
    ensures SubstOp(RenameOp(rho, op), id', value) == RenameOp(rho, SubstOp(op, id, value))
  {
    match op
    case ImmOp(i, derived, _, _) =>
      if derived.Some? { SubstRenameExpr(rho, derived.value, id, id'); } else { assert KeysOp(op)[0] == ImmKey(i); }
    case RegViewOp(b, _) => SubstRenameOp(rho, b, id, id', value);
    case BitSliceOp(b, _) => SubstRenameOp(rho, b, id, id', value);
    case ExtOp(_, _, v) => SubstRenameOp(rho, v, id, id', value);
    case ReadWriteOp(r, w) =>
      TargetsSplit(rho, KeysOp(r), KeysOp(w), id, id');
      SubstRenameOp(rho, r, id, id', value);
      SubstRenameOp(rho, w, id, id', value);
    case MemoryOp(a, _, _, _) => SubstRenameAddress(rho, a, id, id', value);
    case _ =>
  }

  lemma {:induction false} SubstRenameAddress(rho: Renaming, a: Address, id: int, id': int, value: string)
    requires ValidAddress(a) && Targets(rho, KeysAddress(a), id, id')
    ensures SubstAddress(RenameAddress(rho, a), id', value) == RenameAddress(rho, SubstAddress(a, id, value))
  {
    TargetsSplit(rho, KeysOpt(a.base) + KeysOpt(a.index) + KeysOpt(a.scale) + KeysOpt(a.shift), KeysOpt(a.displacement),
        id, id');
    TargetsSplit(rho, KeysOpt(a.base) + KeysOpt(a.index) + KeysOpt(a.scale), KeysOpt(a.shift), id, id');
    TargetsSplit(rho, KeysOpt(a.base) + KeysOpt(a.index), KeysOpt(a.scale), id, id');
    TargetsSplit(rho, KeysOpt(a.base), KeysOpt(a.index), id, id');
    SubstRenameOpt(rho, a.base, id, id', value);
    SubstRenameOpt(rho, a.index, id, id', value);
    SubstRenameOpt(rho, a.scale, id, id', value);
    SubstRenameOpt(rho, a.shift, id, id', value);
    SubstRenameOpt(rho, a.displacement, id, id', value);
  }

  lemma {:induction false} SubstRenameOpt(rho: Renaming, o: Option<Operand>, id: int, id': int, value: string)
    requires ValidOpt(o) && Targets(rho, KeysOpt(o), id, id')
    ensures SubstOpt(RenameOpt(rho, o), id', value) == RenameOpt(rho, SubstOpt(o, id, value))
  {
    if o.Some? { SubstRenameOp(rho, o.value, id, id', value); }
  }

  lemma {:induction false} SubstRenameOps(rho: Renaming, ops: seq<Operand>, id: int, id': int, value: string)
    requires ValidOps(ops) && Targets(rho, KeysOps(ops), id, id')
    ensures SubstOps(RenameOps(rho, ops), id', value) == RenameOps(rho, SubstOps(ops, id, value))
  {
    if ops != [] {
      TargetsSplit(rho, KeysOp(ops[0]), KeysOps(ops[1..]), id, id');
      SubstRenameOp(rho, ops[0], id, id', value);
      SubstRenameOps(rho, ops[1..], id, id', value);
      assert RenameOps(rho, ops)[1..] == RenameOps(rho, ops[1..]);
    }
  }

  lemma {:induction false} SubstRenameMetas(rho: Renaming, ms: seq<MetaOp>, id: int, id': int, value: string)
    requires ValidMetas(ms) && Targets(rho, KeysMetas(ms), id, id')
    ensures SubstMetas(RenameMetas(rho, ms), id', value) == RenameMetas(rho, SubstMetas(ms, id, value))
  {
    if ms != [] {
      TargetsSplit(rho, KeysOps(ms[0].regs), KeysMetas(ms[1..]), id, id');
      SubstRenameOps(rho, ms[0].regs, id, id', value);
      SubstRenameMetas(rho, ms[1..], id, id', value);
      assert RenameMetas(rho, ms)[1..] == RenameMetas(rho, ms[1..]);
    }
  }

  lemma {:induction false} SubstRenameInst(rho: Renaming, inst: Instruction, id: int, id': int, value: string)
    requires ValidInst(inst) && Targets(rho, KeysInst(inst), id, id')
    ensures SubstInst(RenameInst(rho, inst), id', value) == RenameInst(rho, SubstInst(inst, id, value))
  {
    TargetsSplit(rho, KeysMetas(inst.meta) + KeysOps(inst.operands), KeysMetas(inst.postMeta), id, id');
    TargetsSplit(rho, KeysMetas(inst.meta), KeysOps(inst.operands), id, id');
    SubstRenameMetas(rho, inst.meta, id, id', value);
    SubstRenameOps(rho, inst.operands, id, id', value);
    SubstRenameMetas(rho, inst.postMeta, id, id', value);
  }

  lemma {:induction false} SubstRenameInsts(rho: Renaming, insts: seq<Instruction>, id: int, id': int, value: string)
    requires ValidInsts(insts) && Targets(rho, KeysInsts(insts), id, id')
    ensures SubstInsts(RenameInsts(rho, insts), id', value) == RenameInsts(rho, SubstInsts(insts, id, value))
  {
    if insts != [] {
      TargetsSplit(rho, KeysInst(insts[0]), KeysInsts(insts[1..]), id, id');
      SubstRenameInst(rho, insts[0], id, id', value);
      SubstRenameInsts(rho, insts[1..], id, id', value);
      assert RenameInsts(rho, insts)[1..] == RenameInsts(rho, insts[1..]);
    }
  }

  // ---- the immediates of a rule ----

  function ImmIds(r: Rule): set<int> {
    set i | 0 <= i < |KeysRule(r)| && KeysRule(r)[i].space.Imm? && KeysRule(r)[i].id != 0 :: KeysRule(r)[i].id
  }

  /** Every immediate placeholder has the shape the parser builds and a positive id. */
  predicate PositiveImms(r: Rule) {
    forall i :: 0 <= i < |KeysRule(r)| && KeysRule(r)[i].space.Imm? ==>
        KeysRule(r)[i].id >= 1 && KeysRule(r)[i] == ImmKey(KeysRule(r)[i].id)
  }

  lemma ImmIdsMember(r: Rule, id: int)
    requires PositiveImms(r)
    ensures id in ImmIds(r) <==> ImmKey(id) in KeysRule(r)
  {
    if ImmKey(id) in KeysRule(r) { var i :| 0 <= i < |KeysRule(r)| && KeysRule(r)[i] == ImmKey(id); }
  }

  /** Substitution removes exactly one immediate. */
  lemma SubstRemovesOne(r: Rule, id: int, value: string)
    requires ValidRule(r) && PositiveImms(r) && id in ImmIds(r)
    ensures ImmIds(SubstImm(r, id, value)) == ImmIds(r) - {id}
    ensures |ImmIds(SubstImm(r, id, value))| == |ImmIds(r)| - 1
    ensures ValidRule(SubstImm(r, id, value)) && PositiveImms(SubstImm(r, id, value))
  {
    var s := SubstImm(r, id, value);
    ImmIdsMember(r, id);
    SubstImmKeys(r, id, value);
    WithoutMembers(KeysRule(r), ImmKey(id));
    forall i | 0 <= i < |KeysRule(s)| && KeysRule(s)[i].space.Imm?
      ensures KeysRule(s)[i].id >= 1 && KeysRule(s)[i] == ImmKey(KeysRule(s)[i].id)
    {
      assert KeysRule(s)[i] in KeysRule(r);
    }
    forall j ensures j in ImmIds(s) <==> j in ImmIds(r) - {id} {
      ImmIdsMember(r, j);
      ImmIdsMember(s, j);
    }
  }

  // ---- what is written for the placeholder, and what stays ----

  /** Zero in the spelling of the placeholder: its hash sign, and the reserved literal unless a sign was dropped. */
  ghost predicate SpellsZero(text: string, hash: bool, neg: bool, value: string) {
    && (hash ==> text != "" && text[0] == '#')
    && var digits := if hash then text[1..] else text;
    && Digits(digits) && ParseDecimal(digits) == 0
    && if neg then |digits| == 1 else digits == value
  }

  /** The reserved literals are the runs of one to three zeros. */
  lemma ReservedAreZeros(value: string)
    ensures value in RESERVED <==> 1 <= |value| <= 3 && forall i :: 0 <= i < |value| ==> value[i] == '0'
  {
    if 1 <= |value| <= 3 && forall i :: 0 <= i < |value| ==> value[i] == '0' {
      assert value == RESERVED[3 - |value|];
    }
  }

  lemma {:induction false} ZerosAreZero(value: string)
    requires forall i :: 0 <= i < |value| ==> value[i] == '0'
    ensures ParseDecimal(value) == 0
  {
    if value != "" { ZerosAreZero(value[..|value| - 1]); }
  }

  /** A plain placeholder becomes a literal that spells zero the way the placeholder was spelled. */
  lemma PlaceholderSpelled(op: Operand, id: int, value: string)
    requires op.ImmOp? && op.id == id && value in RESERVED
    ensures SubstOp(op, id, value).LitOp? && SpellsZero(SubstOp(op, id, value).text, op.hash, op.neg, value)
  {
    var text := LiteralText(op.hash, op.neg, value);
    var digits := if op.neg then "0" else value;
    ReservedAreZeros(value);
    ZerosAreZero(digits);
    if op.hash { assert text == "#" + digits && text[1..] == digits; } else { assert text == digits; }
  }

  lemma {:induction false} ExprStays(e: ImmExpr, id: int)
    requires ImmKey(id) !in KeysExpr(e)
    ensures SubstExpr(e, id) == e
  {
    match e
    case Neg(a) => ExprStays(a, id);
    case Log2(a) => ExprStays(a, id);
    case BitOr(l, r) => ExprStays(l, id); ExprStays(r, id);
    case ShiftLeft(l, r) => ExprStays(l, id); ExprStays(r, id);
    case ImmRef(i) => assert KeysExpr(e)[0] == ImmKey(i);
    case _ =>
  }

  /** An operand without the placeholder stays as it is. */
  lemma {:induction false} OperandStays(op: Operand, id: int, value: string)
    requires ValidOp(op) && id >= 1 && ImmKey(id) !in KeysOp(op)
    ensures SubstOp(op, id, value) == op
    decreases op, 1
  {
    match op
    case ImmOp(i, derived, _, _) =>
      if derived.Some? { ExprStays(derived.value, id); } else { assert KeysOp(op)[0] == ImmKey(i); }
    case RegViewOp(b, _) => OperandStays(b, id, value);
    case BitSliceOp(b, _) => OperandStays(b, id, value);
    case ExtOp(_, _, v) => OperandStays(v, id, value);
    case ReadWriteOp(r, w) => OperandStays(r, id, value); OperandStays(w, id, value);
    case MemoryOp(a, _, _, _) => AddressStays(op, a, id, value);
    case _ =>
  }

  lemma {:induction false} AddressStays(op: Operand, a: Address, id: int, value: string)
    requires op.MemoryOp? && op.address == a && ValidOp(op) && id >= 1 && ImmKey(id) !in KeysAddress(a)
    ensures SubstAddress(a, id, value) == a
    decreases op, 0
  {
    AddressKeys(a, ImmKey(id));
    if a.base.Some? { OperandStays(a.base.value, id, value); }
    if a.index.Some? { OperandStays(a.index.value, id, value); }
    if a.scale.Some? { OperandStays(a.scale.value, id, value); }
    if a.shift.Some? { OperandStays(a.shift.value, id, value); }
    if a.displacement.Some? { OperandStays(a.displacement.value, id, value); }
  }

  lemma AddressKeys(a: Address, k: Key)
    ensures k in KeysAddress(a) <==>
            k in KeysOpt(a.base) || k in KeysOpt(a.index) || k in KeysOpt(a.scale) || k in KeysOpt(a.shift)
            || k in KeysOpt(a.displacement)
  {}

  /** Substitution rewrites operand by operand: those without the placeholder stay, and so does everything else. */
  lemma SubstKeepsRest(insts: seq<Instruction>, id: int, value: string, i: nat)
    requires ValidInsts(insts) && id >= 1 && i < |insts|
    ensures var (a, b) := (insts[i], SubstInsts(insts, id, value)[i]);
            && b.mnemonic == a.mnemonic && |b.operands| == |a.operands|
            && |b.meta| == |a.meta| && |b.postMeta| == |a.postMeta|
            && (forall k :: 0 <= k < |a.meta| ==> b.meta[k].kind == a.meta[k].kind)
            && (forall k :: 0 <= k < |a.postMeta| ==> b.postMeta[k].kind == a.postMeta[k].kind)
            && forall k :: 0 <= k < |a.operands| && ImmKey(id) !in KeysOp(a.operands[k]) ==>
                 b.operands[k] == a.operands[k]
  {
    var a := insts[i];
    forall k | 0 <= k < |a.operands| && ImmKey(id) !in KeysOp(a.operands[k])
      ensures SubstInsts(insts, id, value)[i].operands[k] == a.operands[k]
    {
      OperandStays(a.operands[k], id, value);
    }
  }
}
