/**
 Evaluation of rule instructions over bit-vectors, and the verdict of the parameterized verifier.
 A symbolic run is a run for every valuation of the symbols; an immediate ranges over a finite domain.
 Operands that the evaluator rejects evaluate to None.
 */
module Semantics {
  import opened Wrappers
  import opened RuleAst

  // ---- bit-vectors ----

  datatype Bv = Bv(width: nat, value: nat)

  function Pow2(n: nat): (p: nat)
    ensures p > 0
  {
    if n == 0 then 1 else 2 * Pow2(n - 1)
  }

  function Wrap(v: int, width: nat): Bv { Bv(width, v % Pow2(width)) }

  function FitWidth(v: Bv, width: nat): Bv {
    if v.width == width then v else if v.width < width then Bv(width, v.value) else Wrap(v.value, width)
  }

  datatype BitKind = BitAnd | BitOrKind | BitXor

  function Bit(kind: BitKind, a: nat, b: nat): nat {
    match kind
    case BitAnd => if a == 1 && b == 1 then 1 else 0
    case BitOrKind => if a == 1 || b == 1 then 1 else 0
    case BitXor => if a != b then 1 else 0
  }

  function Bitwise(kind: BitKind, a: nat, b: nat, n: nat): nat {
    if n == 0 then 0 else 2 * Bitwise(kind, a / 2, b / 2, n - 1) + Bit(kind, a % 2, b % 2)
  }

  function Signed(v: Bv): int {
    if v.width > 0 && v.value >= Pow2(v.width - 1) then v.value - Pow2(v.width) else v.value
  }

  function ShiftL(x: Bv, y: Bv): Bv {
    if y.value >= x.width then Bv(x.width, 0) else Wrap(x.value * Pow2(y.value), x.width)
  }

  function Negate(x: Bv): Bv { if x.value == 0 then x else Wrap(-(x.value as int), x.width) }

  function ShiftR(x: Bv, y: Bv): Bv {
    if y.value >= x.width then Bv(x.width, 0) else Wrap(x.value / Pow2(y.value), x.width)
  }

  function ShiftRSigned(x: Bv, y: Bv): Bv {
    Wrap(Signed(x) / Pow2(if y.value >= x.width then x.width else y.value), x.width)
  }

  function Shift(mnemonic: string, x: Bv, y: Bv): Option<Bv> {
    if mnemonic == "lsl" || mnemonic == "shl" then Some(ShiftL(x, y))
    else if mnemonic == "lsr" || mnemonic == "shr" then Some(ShiftR(x, y))
    else if mnemonic == "asr" || mnemonic == "sar" then Some(ShiftRSigned(x, y))
    else None
  }

  /** Claripy's operators; None for a mnemonic outside the table. */
  function Binary(mnemonic: string, x: Bv, y: Bv): Option<Bv> {
    if mnemonic == "add" then Some(Wrap(x.value + y.value, x.width))
    else if mnemonic == "sub" then Some(Wrap(x.value - y.value, x.width))
    else if mnemonic == "and" then Some(Bv(x.width, Bitwise(BitAnd, x.value, y.value, x.width)))
    else if mnemonic == "orr" || mnemonic == "or" then Some(Bv(x.width, Bitwise(BitOrKind, x.value, y.value, x.width)))
    else if mnemonic == "eor" || mnemonic == "xor" then Some(Bv(x.width, Bitwise(BitXor, x.value, y.value, x.width)))
    else if mnemonic == "mul" || mnemonic == "imul" then Some(Wrap(x.value * y.value, x.width))
    else Shift(mnemonic, x, y)
  }

  // ---- symbols ----

  /** A value for every symbol: register placeholders, exposed high halves per side, immediates. */
  datatype Valuation = Valuation(reg: Key -> nat, high: (string, Key, int) -> nat, imm: int -> int)

  /** The values each immediate ranges over. */
  type Domains = int -> seq<int>

  /** `literal` reads a literal's text. */
  datatype Context = Context(domains: Domains, literal: string -> Option<int>, vals: Valuation)

  const DEFAULT_DOMAIN: seq<int> := [0, 1, 2, 3, 4, 5, 6, 7]

  /** The domains of a request: those it gives, and the default for every other immediate. */
  function RequestDomains(given: map<int, seq<int>>): Domains {
    (id: int) => if id in given then given[id] else DEFAULT_DOMAIN
  }

  /** One domain for all immediates. */
  function Uniform(domain: seq<int>): Domains { (id: int) => domain }

  /** The width an immediate symbol got at its first use. */
  type Widths = map<int, nat>

  type Registers = map<Key, Bv>

  function Immediate(c: Context, w: Widths, id: int, bits: nat): (Bv, Widths) {
    var w' := if id in w then w else w[id := bits];
    (FitWidth(Wrap(c.vals.imm(id), w'[id]), bits), w')
  }

  function BitLength(v: nat): nat {
    if v == 0 then 0 else 1 + BitLength(v / 2)
  }

  function FloorLog2(v: int): int { if v > 0 then BitLength(v) - 1 else 0 }

  /** The if-then-else chain over the domain, its last value serving as the default. */
  function DomainChain(domain: seq<int>, imm: Bv, bits: nat): Bv {
    if domain == [] then Bv(bits, 0)
    else if |domain| == 1 || imm == Wrap(domain[0], bits) then Wrap(FloorLog2(domain[0]), bits)
    else DomainChain(domain[1..], imm, bits)
  }

  function EvalExpr(c: Context, w: Widths, e: ImmExpr, bits: nat): Option<(Bv, Widths)>
    decreases e
  {
    match e
    case ImmRef(id) => Some(Immediate(c, w, id, bits))
    case IntLit(v) => Some((Wrap(v, bits), w))
    case Neg(a) =>
      var x := EvalExpr(c, w, a, bits);
      if x.None? then None else Some((Negate(x.value.0), x.value.1))
    case BitOr(l, r) =>
      var x := EvalExpr(c, w, l, bits);
      if x.None? then None else
      var y := EvalExpr(c, x.value.1, r, bits);
      if y.None? then None else
      Some((Bv(bits, Bitwise(BitOrKind, x.value.0.value, y.value.0.value, bits)), y.value.1))
    case ShiftLeft(l, r) =>
      var x := EvalExpr(c, w, l, bits);
      if x.None? then None else
      var y := EvalExpr(c, x.value.1, r, bits);
      if y.None? then None else Some((ShiftL(x.value.0, y.value.0), y.value.1))
    case Log2(a) =>
      if !a.ImmRef? then None else
      var x := Immediate(c, w, a.id, bits);
      Some((DomainChain(c.domains(a.id), x.0, bits), x.1))
    case RawImm(_) => None
  }

  // ---- operands ----

  function KeyOf(op: Operand): Key
    requires Assignable(op)
  {
    Key(if op.RegOp? then Reg else Tmp, op.prefix, op.bits, op.id)
  }

  function Width(bits: int): nat { if bits < 0 then 0 else bits }

  function ReadKey(c: Context, regs: Registers, k: Key): Bv {
    if k in regs then regs[k] else Wrap(c.vals.reg(k), Width(k.bits))
  }

  function LiteralBits(v: int): nat { if -0x8000_0000 <= v < 0x1_0000_0000 then 32 else 64 }

  function Or(desired: Option<nat>, bits: nat): nat { if desired.Some? then desired.value else bits }

  function Extend(kind: string, bits: nat, v: Bv): Option<Bv> {
    if bits < v.width then Some(Wrap(v.value, bits))
    else if kind == "zext" then Some(Bv(bits, v.value))
    else if kind == "sext" then Some(Wrap(Signed(v), bits))
    else None
  }

  function ViewOf(c: Context, side: string, k: Key, base: Bv, viewBits: nat): Bv {
    if viewBits <= base.width then Wrap(base.value, viewBits)
    else Bv(viewBits, (c.vals.high(side, k, viewBits) % Pow2(viewBits - base.width)) * Pow2(base.width) + base.value)
  }

  function SignFit(x: Bv, neg: bool, bits: nat): Bv { FitWidth(if neg then Negate(x) else x, bits) }

  function EvalOp(c: Context, side: string, regs: Registers, w: Widths, op: Operand,
      desired: Option<nat>): Option<(Bv, Widths)>
  {
    match op
    case RegOp(_, bits, _) => Some((FitWidth(ReadKey(c, regs, KeyOf(op)), Or(desired, Width(bits))), w))
    case TmpOp(_, bits, _) => Some((FitWidth(ReadKey(c, regs, KeyOf(op)), Or(desired, Width(bits))), w))
    case RegViewOp(b, viewBits) =>
      if !Assignable(b) then None else
      var base := FitWidth(ReadKey(c, regs, KeyOf(b)), Width(b.bits));
      Some((FitWidth(ViewOf(c, side, KeyOf(b), base, Width(viewBits)), Or(desired, Width(viewBits))), w))
    case ReadWriteOp(r, _) => EvalOp(c, side, regs, w, r, desired)
    case ImmOp(id, derived, _, neg) =>
      var bits := Or(desired, 64);
      var x := if derived.Some? then EvalExpr(c, w, derived.value, bits) else Some(Immediate(c, w, id, bits));
      if x.None? then None else Some((SignFit(x.value.0, neg, bits), x.value.1))
    case LitOp(text) =>
      var v := c.literal(text);
      if v.None? then None else Some((Wrap(v.value, Or(desired, LiteralBits(v.value))), w))
    case BitSliceOp(b, bits) =>
      var x := EvalOp(c, side, regs, w, b, None);
      if x.None? || Width(bits) > x.value.0.width then None else Some((Wrap(x.value.0.value, Width(bits)), x.value.1))
    case ExtOp(kind, bits, v) =>
      var x := EvalOp(c, side, regs, w, v, None);
      if x.None? then None else
      var y := Extend(kind, Width(bits), x.value.0);
      if y.None? then None else Some((y.value, x.value.1))
    case _ => None
  }

  // ---- addresses ----

  /** A part that is absent leaves the accumulated value; vectors of unequal width cannot be combined. */
  function EvalPart(c: Context, side: string, regs: Registers, w: Widths, part: Option<Operand>, bits: nat, acc: Bv,
      mnemonic: string): Option<(Bv, Widths)>
  {
    if part.None? then Some((acc, w)) else
    var x := EvalOp(c, side, regs, w, part.value, Some(bits));
    if x.None? || x.value.0.width != acc.width then None else
    var r := Binary(mnemonic, acc, x.value.0);
    if r.None? then None else Some((r.value, x.value.1))
  }

  function EvalIndex(c: Context, side: string, regs: Registers, w: Widths, a: Address, bits: nat): Option<(Bv, Widths)>
  {
    if a.index.None? then Some((Bv(bits, 0), w)) else
    var x := EvalOp(c, side, regs, w, a.index.value, Some(bits));
    if x.None? then None
    else if a.scale.Some? then EvalPart(c, side, regs, x.value.1, a.scale, bits, x.value.0, "mul")
    else EvalPart(c, side, regs, x.value.1, a.shift, bits, x.value.0, "lsl")
  }

  function EvalBaseIndex(c: Context, side: string, regs: Registers, w: Widths, a: Address,
      bits: nat): Option<(Bv, Widths)>
  {
    var base := EvalPart(c, side, regs, w, a.base, bits, Bv(bits, 0), "add");
    if base.None? then None else
    AddIndex(base.value.0, EvalIndex(c, side, regs, base.value.1, a, bits))
  }

  function AddIndex(base: Bv, index: Option<(Bv, Widths)>): Option<(Bv, Widths)> {
    if index.None? || index.value.0.width != base.width then None
    else Some((Wrap(base.value + index.value.0.value, base.width), index.value.1))
  }

  /** Base plus scaled or shifted index plus displacement; a post-index displacement is not part of the address. */
  function EvalAddress(c: Context, side: string, regs: Registers, w: Widths, op: Operand,
      bits: nat): Option<(Bv, Widths)>
  {
    if !op.MemoryOp? then None else
    var total := EvalBaseIndex(c, side, regs, w, op.address, bits);
    if total.None? then None
    else if op.address.writeback == "post" then Fitted(total, bits)
    else Fitted(EvalPart(c, side, regs, total.value.1, op.address.displacement, bits, total.value.0, "add"), bits)
  }

  function Fitted(x: Option<(Bv, Widths)>, bits: nat): Option<(Bv, Widths)> {
    if x.None? then None else Some((FitWidth(x.value.0, bits), x.value.1))
  }

  // ---- instructions ----

  function Destination(op: Operand): Option<Key> {
    if Assignable(op) then Some(KeyOf(op))
    else if op.ReadWriteOp? && Assignable(op.write) then Some(KeyOf(op.write))
    else None
  }

  datatype State = State(regs: Registers, widths: Widths)

  function Assign(st: State, dst: Operand, x: Option<(Bv, Widths)>): Option<State> {
    if x.None? || Destination(dst).None? then None else
    var k := Destination(dst).value;
    Some(State(st.regs[k := FitWidth(x.value.0, Width(k.bits))], x.value.1))
  }

  function Lower(s: string): string {
    seq(|s|, i requires 0 <= i < |s| => if 'A' <= s[i] <= 'Z' then s[i] - 'A' + 'a' else s[i])
  }

  const BINARY := {"add", "sub", "and", "orr", "or", "eor", "xor", "mul", "imul", "lsl", "lsr", "asr", "shl", "shr",
      "sar"}

  /** Two operands read the destination first; three name the first source. */
  function FirstSource(operands: seq<Operand>): Option<Operand> {
    if |operands| == 2 then Some(operands[0]) else if |operands| == 3 then Some(operands[1]) else None
  }

  function EvalBinary(c: Context, side: string, st: State, mnemonic: string, operands: seq<Operand>)
    : Option<(Bv, Widths)>
  {
    if FirstSource(operands).None? then None else
    var x := EvalOp(c, side, st.regs, st.widths, FirstSource(operands).value, None);
    if x.None? then None else WithSecond(c, side, st.regs, mnemonic, x.value, operands[|operands| - 1])
  }

  /** What the second source and the operation make of the first source, at its width. */
  function WithSecond(c: Context, side: string, regs: Registers, mnemonic: string, x: (Bv, Widths), last: Operand)
    : Option<(Bv, Widths)>
  {
    Operate(mnemonic, x.0, EvalOp(c, side, regs, x.1, last, Some(x.0.width)))
  }

  function Operate(mnemonic: string, x: Bv, y: Option<(Bv, Widths)>): Option<(Bv, Widths)> {
    if y.None? then None else
    var r := Binary(mnemonic, x, FitWidth(y.value.0, x.width));
    if r.None? then None else Some((r.value, y.value.1))
  }

  function EvalInst(c: Context, side: string, st: State, inst: Instruction): Option<State> {
    var mnemonic := Lower(inst.mnemonic);
    if inst.meta != [] || inst.postMeta != [] || |inst.operands| < 2 then None
    else if mnemonic == "mov" || mnemonic == "movzx" then
      Assign(st, inst.operands[0], EvalOp(c, side, st.regs, st.widths, inst.operands[1], None))
    else if mnemonic == "lea" then
      if Destination(inst.operands[0]).None? then None else
      Assign(st, inst.operands[0],
             EvalAddress(c, side, st.regs, st.widths, inst.operands[1],
                 Width(Destination(inst.operands[0]).value.bits)))
    else if mnemonic in BINARY then Assign(st, inst.operands[0], EvalBinary(c, side, st, mnemonic, inst.operands))
    else None
  }

  function EvalInsts(c: Context, side: string, st: State, insts: seq<Instruction>): Option<State>
    decreases |insts|
  {
    if insts == [] then Some(st) else
    var next := EvalInst(c, side, st, insts[0]);
    if next.None? then None else EvalInsts(c, side, next.value, insts[1..])
  }

  /** Both sides share the immediate symbols; each starts with no register written. */
  function EvalRule(c: Context, r: Rule): Option<(Registers, Registers)> {
    var guest := EvalInsts(c, "guest", State(map[], map[]), r.guest);
    if guest.None? then None else
    var host := EvalInsts(c, "host", State(map[], guest.value.widths), r.host);
    if host.None? then None else Some((guest.value.regs, host.value.regs))
  }

  /** Every register both sides write holds the same value, and there is one. */
  ghost predicate Agree(guest: Registers, host: Registers) {
    && (exists k :: k in guest && k in host)
    && forall k :: k in guest && k in host ==> guest[k].value == host[k].value
  }

  ghost predicate InDomains(vals: Valuation, domains: Domains) {
    forall id :: domains(id) != [] ==> vals.imm(id) in domains(id)
  }

  /** The verifier's "pass": the rule is supported and both sides agree for all registers and all domain values. */
  ghost predicate Passes(domains: Domains, literal: string -> Option<int>, r: Rule) {
    forall vals: Valuation :: InDomains(vals, domains) ==>
      var result := EvalRule(Context(domains, literal, vals), r);
      result.Some? && Agree(result.value.0, result.value.1)
  }

  /** The evaluator's loop over the instructions of one side. */
  method EvaluateInstructions(c: Context, side: string, insts: seq<Instruction>, widths: Widths)
    returns (result: Option<State>)
    ensures result == EvalInsts(c, side, State(map[], widths), insts)
  {
    var st := State(map[], widths);
    for i := 0 to |insts|
      invariant EvalInsts(c, side, State(map[], widths), insts) == EvalInsts(c, side, st, insts[i..])
    {
      var next := EvalInst(c, side, st, insts[i]);
      assert insts[i..][1..] == insts[i + 1..];
      if next.None? { return None; }
      st := next.value;
    }
    result := Some(st);
  }
}
