/**
 The rule syntax tree: immediate expressions, operands, save/restore annotations, instructions and rules.
 Texts (literals, raw register texts, raw immediate expressions) carry no embedded placeholder.
 */
module RuleAst {
  import opened Wrappers

  datatype ImmExpr =
    | ImmRef(id: int)
    | IntLit(value: int)
    | Neg(arg: ImmExpr)
    | BitOr(left: ImmExpr, right: ImmExpr)
    | ShiftLeft(left: ImmExpr, right: ImmExpr)
    | Log2(arg: ImmExpr)
    | RawImm(text: string)

  datatype Operand =
    | RegOp(prefix: string, bits: int, id: int)
    | ImmOp(id: int, derived: Option<ImmExpr>, hash: bool, neg: bool)
    | TmpOp(prefix: string, bits: int, id: int)
    | LitOp(text: string)
    | LabelOp(id: int, hash: bool)
    | RegTextOp(text: string)
    | RegViewOp(base: Operand, viewBits: int)
    | GuestRegViewOp(scope: string, register: string, bits: int)
    | BitSliceOp(base: Operand, bits: int)
    | ExtOp(kind: string, bits: int, value: Operand)
    | ReadWriteOp(read: Operand, write: Operand)
    | MemoryOp(address: Address, syntax: string, valueBits: Option<int>, sizeKeyword: Option<string>)

  datatype Address = Address(
    base: Option<Operand>, index: Option<Operand>, scale: Option<Operand>, shift: Option<Operand>,
    displacement: Option<Operand>, writeback: string)

  datatype MetaKind = Save | Restore

  datatype MetaOp = MetaOp(kind: MetaKind, regs: seq<Operand>)

  datatype Instruction = Instruction(mnemonic: string, operands: seq<Operand>, meta: seq<MetaOp>, postMeta: seq<MetaOp>)

  datatype Rule = Rule(ruleId: int, candidateId: string, guest: seq<Instruction>, host: seq<Instruction>)

  /** Registers and temporaries: the only bases of a register view and the only read/write destinations. */
  predicate Assignable(op: Operand) {
    op.RegOp? || op.TmpOp?
  }

  // ---- what the dataclass constructors of rules/ast.py enforce on the shape of an operand ----

  /** A derived immediate has id zero and keeps its sign inside the expression. */
  predicate ValidOp(op: Operand) {
    match op
    case ImmOp(id, derived, _, neg) => derived.Some? ==> id == 0 && !neg
    case RegViewOp(b, _) => Assignable(b)
    case BitSliceOp(b, _) => ValidOp(b)
    case ExtOp(kind, _, v) => (kind == "zext" || kind == "sext") && ValidOp(v)
    case ReadWriteOp(r, w) => ValidOp(r) && Assignable(w)
    case MemoryOp(a, _, _, _) =>
      ValidOpt(a.base) && ValidOpt(a.index) && ValidOpt(a.scale) && ValidOpt(a.shift) && ValidOpt(a.displacement)
    case _ => true
  }

  predicate ValidOpt(o: Option<Operand>) {
    o.Some? ==> ValidOp(o.value)
  }

  predicate ValidOps(ops: seq<Operand>) {
    forall i :: 0 <= i < |ops| ==> ValidOp(ops[i])
  }

  predicate ValidMetas(ms: seq<MetaOp>) {
    forall i :: 0 <= i < |ms| ==> ValidOps(ms[i].regs)
  }

  predicate ValidInst(inst: Instruction) {
    ValidMetas(inst.meta) && ValidOps(inst.operands) && ValidMetas(inst.postMeta)
  }

  predicate ValidInsts(insts: seq<Instruction>) {
    forall i :: 0 <= i < |insts| ==> ValidInst(insts[i])
  }

  predicate ValidRule(r: Rule) {
    ValidInsts(r.guest) && ValidInsts(r.host)
  }

  // ---- placeholders, in the order a traversal meets them ----

  datatype Space = Reg | Tmp | Imm | Label

  /** The identity of a placeholder inside its namespace. */
  datatype Key = Key(space: Space, prefix: string, bits: int, id: int)

  function ImmKey(id: int): Key { Key(Imm, "", 0, id) }

  function LabelKey(id: int): Key { Key(Label, "", 0, id) }

  function KeysExpr(e: ImmExpr): seq<Key> {
    match e
    case ImmRef(id) => [ImmKey(id)]
    case Neg(a) => KeysExpr(a)
    case Log2(a) => KeysExpr(a)
    case BitOr(l, r) => KeysExpr(l) + KeysExpr(r)
    case ShiftLeft(l, r) => KeysExpr(l) + KeysExpr(r)
    case _ => []
  }

  function KeysOp(op: Operand): seq<Key> {
    match op
    case RegOp(p, b, id) => [Key(Reg, p, b, id)]
    case TmpOp(p, b, id) => [Key(Tmp, p, b, id)]
    case ImmOp(id, derived, _, _) => if derived.None? then [ImmKey(id)] else KeysExpr(derived.value)
    case LabelOp(id, _) => [LabelKey(id)]
    case RegViewOp(b, _) => KeysOp(b)
    case BitSliceOp(b, _) => KeysOp(b)
    case ExtOp(_, _, v) => KeysOp(v)
    case ReadWriteOp(r, w) => KeysOp(r) + KeysOp(w)
    case MemoryOp(a, _, _, _) => KeysAddress(a)
    case _ => []
  }

  function KeysAddress(a: Address): seq<Key> {
    KeysOpt(a.base) + KeysOpt(a.index) + KeysOpt(a.scale) + KeysOpt(a.shift) + KeysOpt(a.displacement)
  }

  function KeysOpt(o: Option<Operand>): seq<Key> {
    if o.None? then [] else KeysOp(o.value)
  }

  function KeysOps(ops: seq<Operand>): seq<Key> {
    if ops == [] then [] else KeysOp(ops[0]) + KeysOps(ops[1..])
  }

  function KeysMetas(ms: seq<MetaOp>): seq<Key> {
    if ms == [] then [] else KeysOps(ms[0].regs) + KeysMetas(ms[1..])
  }

  function KeysInst(inst: Instruction): seq<Key> {
    KeysMetas(inst.meta) + KeysOps(inst.operands) + KeysMetas(inst.postMeta)
  }

  function KeysInsts(insts: seq<Instruction>): seq<Key> {
    if insts == [] then [] else KeysInst(insts[0]) + KeysInsts(insts[1..])
  }

  function KeysRule(r: Rule): seq<Key> {
    KeysInsts(r.guest) + KeysInsts(r.host)
  }

  // ---- renaming placeholders; a renaming changes ids only, so it keeps namespaces and register types ----

  type Renaming = map<Key, int>

  function NewId(rho: Renaming, k: Key): int {
    if k in rho then rho[k] else k.id
  }

  function RenameKey(rho: Renaming, k: Key): Key {
    k.(id := NewId(rho, k))
  }

  function RenameKeys(rho: Renaming, ks: seq<Key>): (r: seq<Key>) {
    seq(|ks|, i requires 0 <= i < |ks| => RenameKey(rho, ks[i]))
  }

  function RenameExpr(rho: Renaming, e: ImmExpr): ImmExpr {
    match e
    case ImmRef(id) => ImmRef(NewId(rho, ImmKey(id)))
    case Neg(a) => Neg(RenameExpr(rho, a))
    case Log2(a) => Log2(RenameExpr(rho, a))
    case BitOr(l, r) => BitOr(RenameExpr(rho, l), RenameExpr(rho, r))
    case ShiftLeft(l, r) => ShiftLeft(RenameExpr(rho, l), RenameExpr(rho, r))
    case _ => e
  }

  function RenameOp(rho: Renaming, op: Operand): Operand {
    match op
    case RegOp(p, b, id) => RegOp(p, b, NewId(rho, Key(Reg, p, b, id)))
    case TmpOp(p, b, id) => TmpOp(p, b, NewId(rho, Key(Tmp, p, b, id)))
    case ImmOp(id, derived, hash, neg) =>
      if derived.None? then ImmOp(NewId(rho, ImmKey(id)), None, hash, neg)
      else ImmOp(id, Some(RenameExpr(rho, derived.value)), hash, neg)
    case LabelOp(id, hash) => LabelOp(NewId(rho, LabelKey(id)), hash)
    case RegViewOp(b, bits) => RegViewOp(RenameOp(rho, b), bits)
    case BitSliceOp(b, bits) => BitSliceOp(RenameOp(rho, b), bits)
    case ExtOp(kind, bits, v) => ExtOp(kind, bits, RenameOp(rho, v))
    case ReadWriteOp(r, w) => ReadWriteOp(RenameOp(rho, r), RenameOp(rho, w))
    case MemoryOp(a, syntax, valueBits, size) => MemoryOp(RenameAddress(rho, a), syntax, valueBits, size)
    case _ => op
  }

  function RenameAddress(rho: Renaming, a: Address): Address {
    Address(RenameOpt(rho, a.base), RenameOpt(rho, a.index), RenameOpt(rho, a.scale), RenameOpt(rho, a.shift),
            RenameOpt(rho, a.displacement), a.writeback)
  }

  function RenameOpt(rho: Renaming, o: Option<Operand>): Option<Operand> {
    if o.None? then None else Some(RenameOp(rho, o.value))
  }

  function RenameOps(rho: Renaming, ops: seq<Operand>): (r: seq<Operand>)
    ensures |r| == |ops| && forall i :: 0 <= i < |ops| ==> r[i] == RenameOp(rho, ops[i])
  {
    if ops == [] then [] else [RenameOp(rho, ops[0])] + RenameOps(rho, ops[1..])
  }

  function RenameMetas(rho: Renaming, ms: seq<MetaOp>): (r: seq<MetaOp>)
    ensures |r| == |ms|
    ensures forall i :: 0 <= i < |ms| ==> r[i] == MetaOp(ms[i].kind, RenameOps(rho, ms[i].regs))
  {
    if ms == [] then [] else [MetaOp(ms[0].kind, RenameOps(rho, ms[0].regs))] + RenameMetas(rho, ms[1..])
  }

  function RenameInst(rho: Renaming, inst: Instruction): Instruction {
    Instruction(inst.mnemonic, RenameOps(rho, inst.operands), RenameMetas(rho, inst.meta),
        RenameMetas(rho, inst.postMeta))
  }

  function RenameInsts(rho: Renaming, insts: seq<Instruction>): (r: seq<Instruction>)
    ensures |r| == |insts| && forall i :: 0 <= i < |insts| ==> r[i] == RenameInst(rho, insts[i])
  {
    if insts == [] then [] else [RenameInst(rho, insts[0])] + RenameInsts(rho, insts[1..])
  }

  function RenameRule(rho: Renaming, r: Rule): Rule {
    r.(guest := RenameInsts(rho, r.guest), host := RenameInsts(rho, r.host))
  }

  // ---- renaming acts on placeholders one by one ----

  /** `sigma` after `rho` acts like `tau` on every key of `ks`. */
  ghost predicate Fuses(sigma: Renaming, rho: Renaming, tau: Renaming, ks: seq<Key>) {
    forall i :: 0 <= i < |ks| ==> NewId(sigma, RenameKey(rho, ks[i])) == NewId(tau, ks[i])
  }

  lemma FusesSplit(sigma: Renaming, rho: Renaming, tau: Renaming, a: seq<Key>, b: seq<Key>)
    requires Fuses(sigma, rho, tau, a + b)
    ensures Fuses(sigma, rho, tau, a) && Fuses(sigma, rho, tau, b)
    ensures RenameKeys(rho, a + b) == RenameKeys(rho, a) + RenameKeys(rho, b)
  {
    forall i | 0 <= i < |a| ensures NewId(sigma, RenameKey(rho, a[i])) == NewId(tau, a[i]) {
      assert (a + b)[i] == a[i];
    }
    forall i | 0 <= i < |b| ensures NewId(sigma, RenameKey(rho, b[i])) == NewId(tau, b[i]) {
      assert (a + b)[|a| + i] == b[i];
    }
  }

  lemma {:induction false} FuseExpr(sigma: Renaming, rho: Renaming, tau: Renaming, e: ImmExpr)
    requires Fuses(sigma, rho, tau, KeysExpr(e))
    ensures RenameExpr(sigma, RenameExpr(rho, e)) == RenameExpr(tau, e)
    ensures KeysExpr(RenameExpr(rho, e)) == RenameKeys(rho, KeysExpr(e))
  {
    match e
    case ImmRef(id) => assert KeysExpr(e)[0] == ImmKey(id);
    case Neg(a) => FuseExpr(sigma, rho, tau, a);
    case Log2(a) => FuseExpr(sigma, rho, tau, a);
    case BitOr(l, r) =>
      FusesSplit(sigma, rho, tau, KeysExpr(l), KeysExpr(r));
      FuseExpr(sigma, rho, tau, l);
      FuseExpr(sigma, rho, tau, r);
    case ShiftLeft(l, r) =>
      FusesSplit(sigma, rho, tau, KeysExpr(l), KeysExpr(r));
      FuseExpr(sigma, rho, tau, l);
      FuseExpr(sigma, rho, tau, r);
    case _ =>
  }

  lemma {:induction false} FuseOp(sigma: Renaming, rho: Renaming, tau: Renaming, op: Operand)
    requires Fuses(sigma, rho, tau, KeysOp(op))
    ensures RenameOp(sigma, RenameOp(rho, op)) == RenameOp(tau, op)
    ensures KeysOp(RenameOp(rho, op)) == RenameKeys(rho, KeysOp(op))
  {
    match op
    case RegOp(p, b, id) => assert KeysOp(op)[0] == Key(Reg, p, b, id);
    case TmpOp(p, b, id) => assert KeysOp(op)[0] == Key(Tmp, p, b, id);
    case LabelOp(id, _) => assert KeysOp(op)[0] == LabelKey(id);
    case ImmOp(id, derived, _, _) =>
      if derived.None? { assert KeysOp(op)[0] == ImmKey(id); } else { FuseExpr(sigma, rho, tau, derived.value); }
    case RegViewOp(b, _) => FuseOp(sigma, rho, tau, b);
    case BitSliceOp(b, _) => FuseOp(sigma, rho, tau, b);
    case ExtOp(_, _, v) => FuseOp(sigma, rho, tau, v);
    case ReadWriteOp(r, w) =>
      FusesSplit(sigma, rho, tau, KeysOp(r), KeysOp(w));
      FuseOp(sigma, rho, tau, r);
      FuseOp(sigma, rho, tau, w);
    case MemoryOp(a, _, _, _) => FuseAddress(sigma, rho, tau, a);
    case _ =>
  }

  lemma {:induction false} FuseAddress(sigma: Renaming, rho: Renaming, tau: Renaming, a: Address)
    requires Fuses(sigma, rho, tau, KeysAddress(a))
    ensures RenameAddress(sigma, RenameAddress(rho, a)) == RenameAddress(tau, a)
    ensures KeysAddress(RenameAddress(rho, a)) == RenameKeys(rho, KeysAddress(a))
  {
    FusesSplit(sigma, rho, tau, KeysOpt(a.base) + KeysOpt(a.index) + KeysOpt(a.scale) + KeysOpt(a.shift),
        KeysOpt(a.displacement));
    FusesSplit(sigma, rho, tau, KeysOpt(a.base) + KeysOpt(a.index) + KeysOpt(a.scale), KeysOpt(a.shift));
    FusesSplit(sigma, rho, tau, KeysOpt(a.base) + KeysOpt(a.index), KeysOpt(a.scale));
    FusesSplit(sigma, rho, tau, KeysOpt(a.base), KeysOpt(a.index));
    FuseOpt(sigma, rho, tau, a.base);
    FuseOpt(sigma, rho, tau, a.index);
    FuseOpt(sigma, rho, tau, a.scale);
    FuseOpt(sigma, rho, tau, a.shift);
    FuseOpt(sigma, rho, tau, a.displacement);
  }

  lemma {:induction false} FuseOpt(sigma: Renaming, rho: Renaming, tau: Renaming, o: Option<Operand>)
    requires Fuses(sigma, rho, tau, KeysOpt(o))
    ensures RenameOpt(sigma, RenameOpt(rho, o)) == RenameOpt(tau, o)
    ensures KeysOpt(RenameOpt(rho, o)) == RenameKeys(rho, KeysOpt(o))
  {
    if o.Some? { FuseOp(sigma, rho, tau, o.value); }
  }

  lemma {:induction false} FuseOps(sigma: Renaming, rho: Renaming, tau: Renaming, ops: seq<Operand>)
    requires Fuses(sigma, rho, tau, KeysOps(ops))
    ensures RenameOps(sigma, RenameOps(rho, ops)) == RenameOps(tau, ops)
    ensures KeysOps(RenameOps(rho, ops)) == RenameKeys(rho, KeysOps(ops))
  {
    if ops != [] {
      FusesSplit(sigma, rho, tau, KeysOp(ops[0]), KeysOps(ops[1..]));
      FuseOp(sigma, rho, tau, ops[0]);
      FuseOps(sigma, rho, tau, ops[1..]);
      assert RenameOps(rho, ops)[1..] == RenameOps(rho, ops[1..]);
    }
  }

  lemma {:induction false} FuseMetas(sigma: Renaming, rho: Renaming, tau: Renaming, ms: seq<MetaOp>)
    requires Fuses(sigma, rho, tau, KeysMetas(ms))
    ensures RenameMetas(sigma, RenameMetas(rho, ms)) == RenameMetas(tau, ms)
    ensures KeysMetas(RenameMetas(rho, ms)) == RenameKeys(rho, KeysMetas(ms))
  {
    if ms != [] {
      FusesSplit(sigma, rho, tau, KeysOps(ms[0].regs), KeysMetas(ms[1..]));
      FuseOps(sigma, rho, tau, ms[0].regs);
      FuseMetas(sigma, rho, tau, ms[1..]);
      assert RenameMetas(rho, ms)[1..] == RenameMetas(rho, ms[1..]);
    }
  }

  lemma {:induction false} FuseInst(sigma: Renaming, rho: Renaming, tau: Renaming, inst: Instruction)
    requires Fuses(sigma, rho, tau, KeysInst(inst))
    ensures RenameInst(sigma, RenameInst(rho, inst)) == RenameInst(tau, inst)
    ensures KeysInst(RenameInst(rho, inst)) == RenameKeys(rho, KeysInst(inst))
  {
    FusesSplit(sigma, rho, tau, KeysMetas(inst.meta) + KeysOps(inst.operands), KeysMetas(inst.postMeta));
    FusesSplit(sigma, rho, tau, KeysMetas(inst.meta), KeysOps(inst.operands));
    FuseMetas(sigma, rho, tau, inst.meta);
    FuseOps(sigma, rho, tau, inst.operands);
    FuseMetas(sigma, rho, tau, inst.postMeta);
  }

  lemma {:induction false} FuseInsts(sigma: Renaming, rho: Renaming, tau: Renaming, insts: seq<Instruction>)
    requires Fuses(sigma, rho, tau, KeysInsts(insts))
    ensures RenameInsts(sigma, RenameInsts(rho, insts)) == RenameInsts(tau, insts)
    ensures KeysInsts(RenameInsts(rho, insts)) == RenameKeys(rho, KeysInsts(insts))
  {
    if insts != [] {
      FusesSplit(sigma, rho, tau, KeysInst(insts[0]), KeysInsts(insts[1..]));
      FuseInst(sigma, rho, tau, insts[0]);
      FuseInsts(sigma, rho, tau, insts[1..]);
      assert RenameInsts(rho, insts)[1..] == RenameInsts(rho, insts[1..]);
    }
  }

  /** Renamings compose: a second renaming after a first is one renaming of the rule. */
  lemma FuseRule(sigma: Renaming, rho: Renaming, tau: Renaming, r: Rule)
    requires Fuses(sigma, rho, tau, KeysRule(r))
    ensures RenameRule(sigma, RenameRule(rho, r)) == RenameRule(tau, r)
    ensures KeysRule(RenameRule(rho, r)) == RenameKeys(rho, KeysRule(r))
  {
    FusesSplit(sigma, rho, tau, KeysInsts(r.guest), KeysInsts(r.host));
    FuseInsts(sigma, rho, tau, r.guest);
    FuseInsts(sigma, rho, tau, r.host);
  }

  // ---- the empty renaming changes nothing ----

  lemma IdentityExpr(e: ImmExpr)
    ensures RenameExpr(map[], e) == e
  {}

  lemma {:induction false} IdentityOp(op: Operand)
    ensures RenameOp(map[], op) == op
  {
    match op
    case ImmOp(_, derived, _, _) => if derived.Some? { IdentityExpr(derived.value); }
    case RegViewOp(b, _) => IdentityOp(b);
    case BitSliceOp(b, _) => IdentityOp(b);
    case ExtOp(_, _, v) => IdentityOp(v);
    case ReadWriteOp(r, w) => IdentityOp(r); IdentityOp(w);
    case MemoryOp(a, _, _, _) =>
      IdentityOpt(a.base);
      IdentityOpt(a.index);
      IdentityOpt(a.scale);
      IdentityOpt(a.shift);
      IdentityOpt(a.displacement);
    case _ =>
  }

  lemma {:induction false} IdentityOpt(o: Option<Operand>)
    ensures RenameOpt(map[], o) == o
  {
    if o.Some? { IdentityOp(o.value); }
  }

  lemma {:induction false} IdentityOps(ops: seq<Operand>)
    ensures RenameOps(map[], ops) == ops
  {
    forall i | 0 <= i < |ops| ensures RenameOps(map[], ops)[i] == ops[i] { IdentityOp(ops[i]); }
  }

  lemma {:induction false} IdentityMetas(ms: seq<MetaOp>)
    ensures RenameMetas(map[], ms) == ms
  {
    forall i | 0 <= i < |ms| ensures RenameMetas(map[], ms)[i] == ms[i] { IdentityOps(ms[i].regs); }
  }

  lemma {:induction false} IdentityInsts(insts: seq<Instruction>)
    ensures RenameInsts(map[], insts) == insts
  {
    forall i | 0 <= i < |insts| ensures RenameInsts(map[], insts)[i] == insts[i] {
      IdentityMetas(insts[i].meta);
      IdentityOps(insts[i].operands);
      IdentityMetas(insts[i].postMeta);
    }
  }

  // ---- a renaming that is one-to-one on what it names can be undone ----

  ghost predicate Injective(rho: Renaming) {
    forall j, k :: j in rho && k in rho && RenameKey(rho, j) == RenameKey(rho, k) ==> j == k
  }

  ghost predicate Covers(rho: Renaming, ks: seq<Key>) {
    forall i :: 0 <= i < |ks| ==> ks[i] in rho
  }

  function Inverse(rho: Renaming): (inv: Renaming)
    requires Injective(rho)
    ensures forall k :: k in rho ==> RenameKey(rho, k) in inv && inv[RenameKey(rho, k)] == k.id
    ensures forall k :: k in inv ==> exists j :: j in rho && k == RenameKey(rho, j)
  {
    map k | k in rho :: RenameKey(rho, k) := k.id
  }

  // ---- renaming keeps the shape ----

  lemma {:induction false} RenameValidOp(rho: Renaming, op: Operand)
    requires ValidOp(op)
    ensures ValidOp(RenameOp(rho, op))
  {
    match op
    case BitSliceOp(b, _) => RenameValidOp(rho, b);
    case ExtOp(_, _, v) => RenameValidOp(rho, v);
    case ReadWriteOp(r, w) => RenameValidOp(rho, r);
    case MemoryOp(a, _, _, _) =>
      RenameValidOpt(rho, a.base);
      RenameValidOpt(rho, a.index);
      RenameValidOpt(rho, a.scale);
      RenameValidOpt(rho, a.shift);
      RenameValidOpt(rho, a.displacement);
    case _ =>
  }

  lemma {:induction false} RenameValidOpt(rho: Renaming, o: Option<Operand>)
    requires ValidOpt(o)
    ensures ValidOpt(RenameOpt(rho, o))
  {
    if o.Some? { RenameValidOp(rho, o.value); }
  }

  lemma RenameValidOps(rho: Renaming, ops: seq<Operand>)
    requires ValidOps(ops)
    ensures ValidOps(RenameOps(rho, ops))
  {
    forall i | 0 <= i < |ops| ensures ValidOp(RenameOps(rho, ops)[i]) { RenameValidOp(rho, ops[i]); }
  }

  lemma RenameValidMetas(rho: Renaming, ms: seq<MetaOp>)
    requires ValidMetas(ms)
    ensures ValidMetas(RenameMetas(rho, ms))
  {
    forall i | 0 <= i < |ms| ensures ValidOps(RenameMetas(rho, ms)[i].regs) { RenameValidOps(rho, ms[i].regs); }
  }

  lemma RenameValidInsts(rho: Renaming, insts: seq<Instruction>)
    requires ValidInsts(insts)
    ensures ValidInsts(RenameInsts(rho, insts))
  {
    forall i | 0 <= i < |insts| ensures ValidInst(RenameInsts(rho, insts)[i]) {
      RenameValidMetas(rho, insts[i].meta);
      RenameValidOps(rho, insts[i].operands);
      RenameValidMetas(rho, insts[i].postMeta);
    }
  }

  lemma RenameValidRule(rho: Renaming, r: Rule)
    requires ValidRule(r)
    ensures ValidRule(RenameRule(rho, r))
  {
    RenameValidInsts(rho, r.guest);
    RenameValidInsts(rho, r.host);
  }
}
