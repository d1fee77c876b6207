/** A derived immediate evaluates, in the verifier, to the integer it is worth, modulo two to the width. */
module DerivedImmediates {
  import opened Wrappers
  import opened RuleAst
  import opened Semantics
  import opened OperatorLaws
  import opened EvaluationLaws
  import opened Derivation

  type Context = Semantics.Context

  /** The immediates of the expression have the recorded values. */
  ghost predicate Matches(c: Context, e: ImmExpr, values: Values) {
    match e
    case ImmRef(id) => id in values && c.vals.imm(id) == values[id]
    case Neg(a) => Matches(c, a, values)
    case Log2(a) => Matches(c, a, values)
    case BitOr(l, r) => Matches(c, l, values) && Matches(c, r, values)
    case ShiftLeft(l, r) => Matches(c, l, values) && Matches(c, r, values)
    case _ => true
  }

  /** A symbol first used at a smaller width holds its whole value there. */
  ghost predicate WideEnough(c: Context, w: Widths, id: int, bits: nat) {
    id in w ==> w[id] >= bits || 0 <= c.vals.imm(id) < Pow2(w[id])
  }

  ghost predicate AllWide(c: Context, w: Widths, bits: nat) { forall id :: WideEnough(c, w, id, bits) }

  /** Shift counts fit the width, and a logarithm's argument is told from every other value of its domain. */
  ghost predicate Exact(c: Context, e: ImmExpr, values: Values, bits: nat) {
    match e
    case Neg(a) => Exact(c, a, values, bits)
    case BitOr(l, r) => Exact(c, l, values, bits) && Exact(c, r, values, bits)
    case ShiftLeft(l, r) =>
      && Exact(c, l, values, bits) && Exact(c, r, values, bits)
      && (Value(r, values).Some? ==> Value(r, values).value < Pow2(bits))
    case Log2(a) => a.ImmRef? && Tells(c.domains(a.id), c.vals.imm(a.id), bits)
    case _ => true
  }

  ghost predicate Tells(domain: seq<int>, n: int, bits: nat) {
    n in domain && forall k :: 0 <= k < |domain| && Congruent(n, domain[k], Pow2(bits)) ==> domain[k] == n
  }

  lemma SymbolEvaluates(c: Context, w: Widths, id: int, bits: nat)
    requires WideEnough(c, w, id, bits)
    ensures var (v, w') := Immediate(c, w, id, bits);
            Residue(v, c.vals.imm(id), bits) && (AllWide(c, w, bits) ==> AllWide(c, w', bits))
  {
    var n := c.vals.imm(id);
    var (v, w') := Immediate(c, w, id, bits);
    SymbolYieldsIff(c, w, id, bits, v, w');
    var s :| Residue(s, n, w'[id]) && Residue(v, s.value, bits);
    if w'[id] >= bits {
      CongruentBelow(s.value, n, bits, w'[id]);
      CongruentTransitive(v.value, s.value, n, Pow2(bits));
    } else {
      WrapIsResidue(n, w'[id]);
      DivisionIs(n, 0, n, Pow2(w'[id]));
      ResidueUnique(s, Wrap(n, w'[id]), n, w'[id]);
    }
    if AllWide(c, w, bits) {
      forall j ensures WideEnough(c, w', j, bits) { assert WideEnough(c, w, j, bits); }
    }
  }

  lemma NegEvaluates(v: Bv, n: int, bits: nat)
    requires Residue(v, n, bits)
    ensures Residue(Negate(v), -n, bits)
  {
    NegateIsResidue(v);
    CongruentFlip(v.value, n, Pow2(bits));
    CongruentFlip(n, v.value, Pow2(bits));
    CongruentTransitive(Negate(v).value, -(v.value as int), -n, Pow2(bits));
  }

  /** Low bits do not change with the residue. */
  lemma {:induction false} LowBits(a: int, b: int, n: nat, k: nat)
    requires Congruent(a, b, Pow2(n)) && k < n
    ensures BitAt(a, k) == BitAt(b, k)
    decreases n
  {
    var j :| a == b + Times(j, Pow2(n));
    assert Times(j, Pow2(n)) == 2 * Times(j, Pow2(n - 1));
    var h := Times(j, Pow2(n - 1));
    assert a == b + 2 * h && a % 2 == b % 2 && a / 2 == b / 2 + h;
    if k > 0 {
      Congruence(a / 2, b / 2, j, Pow2(n - 1));
      LowBits(a / 2, b / 2, n - 1, k - 1);
    }
  }

  lemma OrEvaluates(x: Bv, a: int, y: Bv, b: int, bits: nat)
    requires Residue(x, a, bits) && Residue(y, b, bits)
    ensures Residue(Bv(bits, Bitwise(BitOrKind, x.value, y.value, bits)), OrInt(a, b), bits)
  {
    var v, r := Bv(bits, Bitwise(BitOrKind, x.value, y.value, bits)), Wrap(OrInt(a, b), bits);
    BitwiseMeans(BitOrKind, x, y);
    WrapIsResidue(OrInt(a, b), bits);
    forall k | 0 <= k < bits ensures BitAt(v.value, k) == BitAt(r.value, k) {
      LowBits(x.value, a, bits, k);
      LowBits(y.value, b, bits, k);
      LowBits(r.value, OrInt(a, b), bits, k);
      OrIntBits(a, b, k);
      BitAtIsBit(v.value, k);
      BitAtIsBit(a, k);
      BitAtIsBit(b, k);
    }
    BitsDetermine(v.value, r.value, bits);
  }

  lemma ShiftEvaluates(x: Bv, a: int, y: Bv, b: nat, bits: nat)
    requires Residue(x, a, bits) && Residue(y, b, bits) && b < Pow2(bits)
    ensures Residue(ShiftL(x, y), a * Pow2(b), bits)
  {
    WrapIsResidue(b, bits);
    DivisionIs(b, 0, b, Pow2(bits));
    ResidueUnique(y, Wrap(b, bits), b, bits);
    ShiftLMeans(x, y);
    CongruentScaled(x.value, a, Pow2(b), Pow2(bits));
    CongruentTransitive(ShiftL(x, y).value, x.value * Pow2(b), a * Pow2(b), Pow2(bits));
  }

  lemma LogEvaluates(domain: seq<int>, x: Bv, n: int, bits: nat)
    requires Residue(x, n, bits) && Tells(domain, n, bits)
    ensures Residue(DomainChain(domain, x, bits), FloorLog2(n), bits)
  {
    var k := ChainChooses(domain, x, bits);
    var m := Pow2(bits);
    CongruentFlip(x.value, n, m);
    var j :| 0 <= j < |domain| && domain[j] == n;
    assert j >= k && Residue(x, domain[k], bits);
    CongruentTransitive(n, x.value, domain[k], m);
    WrapIsResidue(FloorLog2(n), bits);
  }

  /** The verifier evaluates an expression to what derivation takes it to be worth. */
  lemma {:induction false} DerivedEvaluates(c: Context, w: Widths, e: ImmExpr, bits: nat, values: Values)
    requires Matches(c, e, values) && Exact(c, e, values, bits) && AllWide(c, w, bits) && Value(e, values).Some?
    ensures var r := EvalExpr(c, w, e, bits);
            r.Some? && Residue(r.value.0, Value(e, values).value, bits) && AllWide(c, r.value.1, bits)
    decreases e
  {
    match e
    case ImmRef(id) => SymbolEvaluates(c, w, id, bits);
    case IntLit(n) => WrapIsResidue(n, bits);
    case Neg(a) =>
      DerivedEvaluates(c, w, a, bits, values);
      NegEvaluates(EvalExpr(c, w, a, bits).value.0, Value(a, values).value, bits);
    case BitOr(l, r) =>
      DerivedEvaluates(c, w, l, bits, values);
      var (x, w1) := EvalExpr(c, w, l, bits).value;
      DerivedEvaluates(c, w1, r, bits, values);
      OrEvaluates(x, Value(l, values).value, EvalExpr(c, w1, r, bits).value.0, Value(r, values).value, bits);
    case ShiftLeft(l, r) =>
      DerivedEvaluates(c, w, l, bits, values);
      var (x, w1) := EvalExpr(c, w, l, bits).value;
      DerivedEvaluates(c, w1, r, bits, values);
      ShiftEvaluates(x, Value(l, values).value, EvalExpr(c, w1, r, bits).value.0, Value(r, values).value, bits);
    case Log2(a) =>
      SymbolEvaluates(c, w, a.id, bits);
      LogEvaluates(c.domains(a.id), Immediate(c, w, a.id, bits).0, c.vals.imm(a.id), bits);
  }

  /** The rewritten immediate of a host evaluates like the constant it replaces. */
  lemma RewrittenEvaluates(c: Context, side: string, regs: Registers, w: Widths, a: Operand, b: Operand, bits: nat,
      values: Values)
    requires a.ImmOp? && b.ImmOp? && ValidOp(b) && b.derived.Some? && ImmValue(b, values) == ImmValue(a, values)
    requires ImmValue(a, values).Some? && Matches(c, b.derived.value, values) && Exact(c, b.derived.value, values, bits)
    requires AllWide(c, w, bits)
    ensures var r := EvalOp(c, side, regs, w, b, Some(bits));
            r.Some? && Residue(r.value.0, ImmValue(a, values).value, bits)
  {
    DerivedEvaluates(c, w, b.derived.value, bits, values);
    FitIsResidue(EvalExpr(c, w, b.derived.value, bits).value.0, bits);
  }
}
