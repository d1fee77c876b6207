/**
 What evaluating expressions, operands, addresses and instructions means, as relations between the state before, the
 result and the state after. The relations speak of residues, bits and signed values; the evaluator is proved to compute
 exactly them.
 */
module EvaluationLaws {
  import opened Wrappers
  import opened RuleAst
  import opened Semantics
  import opened OperatorLaws

  // ---- symbols ----

  /** A symbol keeps the width of its first use; it is cut off, or filled up with zeros, to the width asked for. */
  ghost predicate SymbolYields(c: Context, w: Widths, id: int, bits: nat, v: Bv, w': Widths) {
    && id in w' && (forall j :: j != id ==> (j in w <==> j in w') && (j in w ==> w'[j] == w[j]))
    && w'[id] == (if id in w then w[id] else bits)
    && exists s :: Residue(s, c.vals.imm(id), w'[id]) && Residue(v, s.value, bits)
  }

  lemma SymbolYieldsIff(c: Context, w: Widths, id: int, bits: nat, v: Bv, w': Widths)
    ensures Immediate(c, w, id, bits) == (v, w') <==> SymbolYields(c, w, id, bits, v, w')
  {
    var (u, w1) := Immediate(c, w, id, bits);
    var s := Wrap(c.vals.imm(id), w1[id]);
    WrapIsResidue(c.vals.imm(id), w1[id]);
    FitIsResidue(s, bits);
    if SymbolYields(c, w, id, bits, v, w') {
      forall j ensures (j in w' <==> j in w1) && (j in w1 ==> w'[j] == w1[j]) {
        if j != id { assert j in w <==> j in w'; }
      }
      assert w' == w1;
      var s' :| Residue(s', c.vals.imm(id), w'[id]) && Residue(v, s'.value, bits);
      ResidueUnique(s, s', c.vals.imm(id), w1[id]);
      ResidueUnique(u, v, s.value, bits);
    }
  }

  /** The integer logarithm, rounded down; zero for numbers that have none. */
  ghost predicate LogIs(v: int, log: int) {
    if v > 0 then 0 <= log && Pow2(log) <= v < Pow2(log + 1) else log == 0
  }

  lemma {:induction false} BitLengthBounds(v: nat)
    requires v > 0
    ensures var n := BitLength(v); n > 0 && Pow2(n - 1) <= v < Pow2(n)
  {
    if v > 1 {
      BitLengthBounds(v / 2);
      var n := BitLength(v / 2);
      assert BitLength(v) == n + 1 && Pow2(n) == 2 * Pow2(n - 1) && Pow2(n + 1) == 2 * Pow2(n);
    } else {
      assert BitLength(1) == 1 + BitLength(0) && Pow2(1) == 2 * Pow2(0);
    }
  }

  lemma LogIsIff(v: int, log: int)
    ensures FloorLog2(v) == log <==> LogIs(v, log)
  {
    if v > 0 {
      BitLengthBounds(v);
      var n := BitLength(v) - 1;
      if LogIs(v, log) {
        if log < n { Pow2Grows(log + 1, n); }
        if log > n { Pow2Grows(n + 1, log); }
      }
    }
  }

  /** The first value of the domain that looks like the symbol at this width, or else the last one. */
  ghost predicate Chosen(domain: seq<int>, x: Bv, bits: nat, k: nat) {
    && k < |domain| && (k < |domain| - 1 ==> Residue(x, domain[k], bits))
    && forall j :: 0 <= j < k ==> !Residue(x, domain[j], bits)
  }

  /** The logarithm of the domain value the symbol stands for. */
  ghost predicate LogYields(domain: seq<int>, x: Bv, bits: nat, v: Bv) {
    if domain == [] then v == Bv(bits, 0)
    else exists k: nat :: Chosen(domain, x, bits, k) && LogResidue(domain[k], bits, v)
  }

  ghost predicate LogResidue(n: int, bits: nat, v: Bv) { exists log :: LogIs(n, log) && Residue(v, log, bits) }

  lemma LogResidueIff(n: int, bits: nat, v: Bv)
    ensures v == Wrap(FloorLog2(n), bits) <==> LogResidue(n, bits, v)
  {
    ResidueIffWrap(v, FloorLog2(n), bits);
    LogIsIff(n, FloorLog2(n));
    if LogResidue(n, bits, v) {
      var log :| LogIs(n, log) && Residue(v, log, bits);
      LogIsIff(n, log);
    }
  }

  lemma ResidueIffWrap(v: Bv, n: int, bits: nat)
    ensures v == Wrap(n, bits) <==> Residue(v, n, bits)
  {
    WrapIsResidue(n, bits);
    if Residue(v, n, bits) { ResidueUnique(v, Wrap(n, bits), n, bits); }
  }

  lemma {:induction false} ChainChooses(domain: seq<int>, x: Bv, bits: nat) returns (k: nat)
    requires domain != []
    ensures Chosen(domain, x, bits, k) && DomainChain(domain, x, bits) == Wrap(FloorLog2(domain[k]), bits)
  {
    ResidueIffWrap(x, domain[0], bits);
    if |domain| == 1 || x == Wrap(domain[0], bits) {
      k := 0;
    } else {
      var i := ChainChooses(domain[1..], x, bits);
      k := i + 1;
      forall j | 0 <= j < k ensures !Residue(x, domain[j], bits) {
        if j > 0 { assert domain[j] == domain[1..][j - 1]; }
      }
    }
  }

  lemma ChosenUnique(domain: seq<int>, x: Bv, bits: nat, k: nat, j: nat)
    requires Chosen(domain, x, bits, k) && Chosen(domain, x, bits, j)
    ensures k == j
  {}

  lemma LogYieldsIff(domain: seq<int>, x: Bv, bits: nat, v: Bv)
    ensures DomainChain(domain, x, bits) == v <==> LogYields(domain, x, bits, v)
  {
    if domain != [] {
      var k := ChainChooses(domain, x, bits);
      LogResidueIff(domain[k], bits, v);
      if LogYields(domain, x, bits, v) {
        var j: nat :| Chosen(domain, x, bits, j) && LogResidue(domain[j], bits, v);
        ChosenUnique(domain, x, bits, k, j);
      }
    }
  }

  // ---- derived immediates ----

  ghost predicate ExprYields(c: Context, w: Widths, e: ImmExpr, bits: nat, v: Bv, w': Widths)
    decreases e
  {
    match e
    case ImmRef(id) => SymbolYields(c, w, id, bits, v, w')
    case IntLit(n) => w' == w && Residue(v, n, bits)
    case Neg(a) => exists x :: ExprYields(c, w, a, bits, x, w') && Residue(v, -(x.value as int), bits)
    case BitOr(l, r) =>
      exists x, y, w1 ::
        && ExprYields(c, w, l, bits, x, w1) && ExprYields(c, w1, r, bits, y, w')
        && v.width == bits && Proper(v) && BitByBit(BitOrKind, x, y, v)
    case ShiftLeft(l, r) =>
      exists x, y, w1 ::
        && ExprYields(c, w, l, bits, x, w1) && ExprYields(c, w1, r, bits, y, w')
        && Residue(v, x.value * Pow2(y.value), bits)
    case Log2(a) =>
      a.ImmRef? && exists x :: SymbolYields(c, w, a.id, bits, x, w') && LogYields(c.domains(a.id), x, bits, v)
    case RawImm(_) => false
  }

  /** What the evaluator returns is yielded, fits and has the width asked for. */
  ghost predicate ExprSound(c: Context, w: Widths, e: ImmExpr, bits: nat) {
    EvalExpr(c, w, e, bits).Some? ==>
      var (v, w') := EvalExpr(c, w, e, bits).value;
      ExprYields(c, w, e, bits, v, w') && v.width == bits && Proper(v)
  }

  lemma {:induction false} ExprIsYielded(c: Context, w: Widths, e: ImmExpr, bits: nat)
    ensures ExprSound(c, w, e, bits)
    decreases e
  {
    match e
    case ImmRef(id) =>
      var (v, w') := Immediate(c, w, id, bits);
      SymbolYieldsIff(c, w, id, bits, v, w');
    case IntLit(n) => WrapIsResidue(n, bits);
    case Neg(a) =>
      ExprIsYielded(c, w, a, bits);
      if EvalExpr(c, w, a, bits).Some? { NegateIsResidue(EvalExpr(c, w, a, bits).value.0); }
    case BitOr(l, r) =>
      ExprIsYielded(c, w, l, bits);
      var x := EvalExpr(c, w, l, bits);
      if x.Some? {
        ExprIsYielded(c, x.value.1, r, bits);
        var y := EvalExpr(c, x.value.1, r, bits);
        if y.Some? { BitwiseMeans(BitOrKind, x.value.0, y.value.0); }
      }
    case ShiftLeft(l, r) =>
      ExprIsYielded(c, w, l, bits);
      var x := EvalExpr(c, w, l, bits);
      if x.Some? {
        ExprIsYielded(c, x.value.1, r, bits);
        var y := EvalExpr(c, x.value.1, r, bits);
        if y.Some? { ShiftLMeans(x.value.0, y.value.0); }
      }
    case Log2(a) =>
      if a.ImmRef? {
        var (x, w') := Immediate(c, w, a.id, bits);
        SymbolYieldsIff(c, w, a.id, bits, x, w');
        LogYieldsIff(c.domains(a.id), x, bits, DomainChain(c.domains(a.id), x, bits));
        ChainFits(c.domains(a.id), x, bits);
      }
    case RawImm(_) =>
  }

  lemma {:induction false} ChainFits(domain: seq<int>, x: Bv, bits: nat)
    ensures DomainChain(domain, x, bits).width == bits && Proper(DomainChain(domain, x, bits))
  {
    if domain != [] {
      WrapIsResidue(FloorLog2(domain[0]), bits);
      ChainFits(domain[1..], x, bits);
    }
  }

  lemma {:induction false} YieldedIsExpr(c: Context, w: Widths, e: ImmExpr, bits: nat, v: Bv, w': Widths)
    requires ExprYields(c, w, e, bits, v, w')
    ensures EvalExpr(c, w, e, bits) == Some((v, w'))
    decreases e
  {
    match e
    case ImmRef(id) => SymbolYieldsIff(c, w, id, bits, v, w');
    case IntLit(n) => ResidueIffWrap(v, n, bits);
    case Neg(a) =>
      var x :| ExprYields(c, w, a, bits, x, w') && Residue(v, -(x.value as int), bits);
      YieldedIsExpr(c, w, a, bits, x, w');
      ExprIsYielded(c, w, a, bits);
      NegateIsResidue(x);
      ResidueUnique(v, Negate(x), -(x.value as int), bits);
    case BitOr(l, r) =>
      var x, y, w1 :| ExprYields(c, w, l, bits, x, w1) && ExprYields(c, w1, r, bits, y, w')
        && v.width == bits && Proper(v) && BitByBit(BitOrKind, x, y, v);
      YieldedIsExpr(c, w, l, bits, x, w1);
      YieldedIsExpr(c, w1, r, bits, y, w');
      ExprIsYielded(c, w, l, bits);
      BitwiseMeans(BitOrKind, x, y);
      BitByBitUnique(BitOrKind, x, y, v, Bv(x.width, Bitwise(BitOrKind, x.value, y.value, x.width)));
    case ShiftLeft(l, r) =>
      var x, y, w1 :| ExprYields(c, w, l, bits, x, w1) && ExprYields(c, w1, r, bits, y, w')
        && Residue(v, x.value * Pow2(y.value), bits);
      YieldedIsExpr(c, w, l, bits, x, w1);
      YieldedIsExpr(c, w1, r, bits, y, w');
      ExprIsYielded(c, w, l, bits);
      ShiftLMeans(x, y);
      ResidueUnique(v, ShiftL(x, y), x.value * Pow2(y.value), bits);
    case Log2(a) =>
      var x :| SymbolYields(c, w, a.id, bits, x, w') && LogYields(c.domains(a.id), x, bits, v);
      SymbolYieldsIff(c, w, a.id, bits, x, w');
      LogYieldsIff(c.domains(a.id), x, bits, v);
  }

  /** Evaluating a derived immediate gives exactly what its parts yield. */
  lemma ExprYieldsIff(c: Context, w: Widths, e: ImmExpr, bits: nat, v: Bv, w': Widths)
    ensures EvalExpr(c, w, e, bits) == Some((v, w')) <==> ExprYields(c, w, e, bits, v, w')
  {
    ExprIsYielded(c, w, e, bits);
    if ExprYields(c, w, e, bits, v, w') { YieldedIsExpr(c, w, e, bits, v, w'); }
  }

  // ---- operands ----

  /** Every register assigned so far holds a value of its own width. */
  predicate ProperRegs(regs: Registers) { forall k :: k in regs ==> Proper(regs[k]) && regs[k].width == Width(k.bits) }

  /** The value of a register: the one assigned last, or its symbol. */
  ghost predicate Holds(c: Context, regs: Registers, k: Key, v: Bv) {
    if k in regs then v == regs[k] else Residue(v, c.vals.reg(k), Width(k.bits))
  }

  lemma HoldsIff(c: Context, regs: Registers, k: Key, v: Bv)
    requires ProperRegs(regs)
    ensures FitWidth(ReadKey(c, regs, k), Width(k.bits)) == ReadKey(c, regs, k)
    ensures ReadKey(c, regs, k) == v <==> Holds(c, regs, k, v)
    ensures Proper(ReadKey(c, regs, k)) && ReadKey(c, regs, k).width == Width(k.bits)
  {
    ResidueIffWrap(v, c.vals.reg(k), Width(k.bits));
    WrapIsResidue(c.vals.reg(k), Width(k.bits));
  }

  /** A view of a register: its low bits, or the register below a symbol for the bits it does not have. */
  ghost predicate Views(c: Context, side: string, k: Key, base: Bv, bits: nat, v: Bv) {
    if bits <= base.width then Residue(v, base.value, bits)
    else v.width == bits && Proper(v) && v.value % Pow2(base.width) == base.value
         && Congruent(v.value / Pow2(base.width), c.vals.high(side, k, bits), Pow2(bits - base.width))
  }

  /** A number below a product, by its quotient and remainder. */
  lemma Composed(high: nat, low: nat, a: nat, b: nat)
    requires high < a && low < b
    ensures high * b + low < a * b && (high * b + low) / b == high && (high * b + low) % b == low
  {
    DivisionIs(high * b + low, high, low, b);
    assert (a - 1 - high) * b == a * b - b - high * b;
    assert (a - 1 - high) * b >= 0;
  }

  lemma Quotient(v: nat, a: nat, b: nat) returns (q: nat)
    requires b > 0 && v < a * b
    ensures q == v / b && q < a && v == q * b + v % b
  {
    q := v / b;
    assert v == (v / b) * b + v % b;
    assert (v / b - a) * b == (v / b) * b - a * b;
    if v / b >= a { Multiples(v / b - a, b); }
  }

  lemma ViewsIff(c: Context, side: string, k: Key, base: Bv, bits: nat, v: Bv)
    requires Proper(base)
    ensures ViewOf(c, side, k, base, bits) == v <==> Views(c, side, k, base, bits, v)
    ensures Proper(ViewOf(c, side, k, base, bits)) && ViewOf(c, side, k, base, bits).width == bits
  {
    if bits <= base.width {
      ResidueIffWrap(v, base.value, bits);
      WrapIsResidue(base.value, bits);
    } else {
      var n := bits - base.width;
      var high := Wrap(c.vals.high(side, k, bits), n);
      WrapIsResidue(c.vals.high(side, k, bits), n);
      Pow2Sum(n, base.width);
      Composed(high.value, base.value, Pow2(n), Pow2(base.width));
      if Views(c, side, k, base, bits, v) { ViewUnique(high, base, c.vals.high(side, k, bits), v); }
    }
  }

  lemma ViewUnique(high: Bv, base: Bv, symbol: nat, v: Bv)
    requires Residue(high, symbol, high.width) && Proper(v) && v.width == high.width + base.width
    requires v.value % Pow2(base.width) == base.value
    requires Congruent(v.value / Pow2(base.width), symbol, Pow2(high.width))
    ensures v.value == high.value * Pow2(base.width) + base.value
  {
    Pow2Sum(high.width, base.width);
    var q := Quotient(v.value, Pow2(high.width), Pow2(base.width));
    ResidueUnique(Bv(high.width, q), high, symbol, high.width);
  }

  /** An extension keeps the value, or the signed value; to a narrower width it cuts off. */
  ghost predicate Extends(kind: string, x: Bv, bits: nat, v: Bv) {
    if bits < x.width then Residue(v, x.value, bits)
    else v.width == bits && Proper(v)
         && if kind == "zext" then v.value == x.value else kind == "sext" && Signed(v) == Signed(x)
  }

  lemma ExtendsIff(kind: string, x: Bv, bits: nat, v: Bv)
    requires Proper(x)
    ensures Extend(kind, bits, x) == Some(v) <==> Extends(kind, x, bits, v)
    ensures var r := Extend(kind, bits, x); r.Some? ==> Proper(r.value) && r.value.width == bits
  {
    if bits < x.width {
      ResidueIffWrap(v, x.value, bits);
      WrapIsResidue(x.value, bits);
    } else {
      Pow2Grows(x.width, bits);
      SignedMeans(x);
      if x.width > 0 { Pow2Grows(x.width - 1, bits - 1); }
      WrapKeepsSigned(Signed(x), bits);
      WrapIsResidue(Signed(x), bits);
      if v.width == bits && Proper(v) && Signed(v) == Signed(x) { SignedUnique(v, Wrap(Signed(x), bits)); }
    }
  }

  /** The width that is asked for, if any, or the operand's own. */
  ghost predicate Asked(desired: Option<nat>, own: nat, bits: nat) {
    bits == match desired case Some(d) => d case None => own
  }

  /** A literal is as wide as it needs to be: 32 bits if these hold it, signed or unsigned. */
  ghost predicate LiteralWidth(n: int, bits: nat) {
    var half: int := Pow2(31);
    bits == if -half <= n < Pow2(32) then 32 else 64
  }

  lemma LiteralWidthIff(n: int, bits: nat)
    ensures LiteralBits(n) == bits <==> LiteralWidth(n, bits)
  {
    Pow2Words();
    assert Pow2(32) == 2 * Pow2(31);
  }

  ghost predicate LiteralYields(n: Option<int>, desired: Option<nat>, v: Bv) {
    n.Some? && Residue(v, n.value, v.width) && exists own :: LiteralWidth(n.value, own) && Asked(desired, own, v.width)
  }

  lemma LiteralYieldsIff(n: Option<int>, desired: Option<nat>, v: Bv)
    ensures n.Some? && Wrap(n.value, Or(desired, LiteralBits(n.value))) == v <==> LiteralYields(n, desired, v)
    ensures LiteralYields(n, desired, v) ==> Proper(v)
  {
    if n.Some? {
      LiteralWidthIff(n.value, LiteralBits(n.value));
      ResidueIffWrap(v, n.value, Or(desired, LiteralBits(n.value)));
      if LiteralYields(n, desired, v) {
        var own :| LiteralWidth(n.value, own) && Asked(desired, own, v.width);
        LiteralWidthIff(n.value, own);
      }
    }
  }

  ghost predicate RegisterYields(c: Context, regs: Registers, k: Key, desired: Option<nat>, v: Bv) {
    Asked(desired, Width(k.bits), v.width) && exists x :: Holds(c, regs, k, x) && Residue(v, x.value, v.width)
  }

  lemma RegisterYieldsIff(c: Context, regs: Registers, k: Key, desired: Option<nat>, v: Bv)
    requires ProperRegs(regs)
    ensures FitWidth(ReadKey(c, regs, k), Or(desired, Width(k.bits))) == v <==> RegisterYields(c, regs, k, desired, v)
    ensures RegisterYields(c, regs, k, desired, v) ==> Proper(v)
  {
    var x, bits := ReadKey(c, regs, k), Or(desired, Width(k.bits));
    HoldsIff(c, regs, k, x);
    FitIsResidue(x, bits);
    if RegisterYields(c, regs, k, desired, v) {
      var y :| Holds(c, regs, k, y) && Residue(v, y.value, v.width);
      HoldsIff(c, regs, k, y);
      ResidueUnique(v, FitWidth(x, bits), x.value, bits);
    }
  }

  ghost predicate ViewYields(c: Context, side: string, regs: Registers, k: Key, own: nat, desired: Option<nat>, v: Bv) {
    && Asked(desired, own, v.width)
    && exists x, y :: Holds(c, regs, k, x) && Views(c, side, k, x, own, y) && Residue(v, y.value, v.width)
  }

  lemma ViewYieldsIff(c: Context, side: string, regs: Registers, k: Key, own: nat, desired: Option<nat>, v: Bv)
    requires ProperRegs(regs)
    ensures FitWidth(ViewOf(c, side, k, ReadKey(c, regs, k), own), Or(desired, own)) == v <==>
            ViewYields(c, side, regs, k, own, desired, v)
    ensures ViewYields(c, side, regs, k, own, desired, v) ==> Proper(v)
  {
    var x, bits := ReadKey(c, regs, k), Or(desired, own);
    HoldsIff(c, regs, k, x);
    var y := ViewOf(c, side, k, x, own);
    ViewsIff(c, side, k, x, own, y);
    FitIsResidue(y, bits);
    if ViewYields(c, side, regs, k, own, desired, v) {
      var x', y' :| Holds(c, regs, k, x') && Views(c, side, k, x', own, y') && Residue(v, y'.value, v.width);
      HoldsIff(c, regs, k, x');
      ViewsIff(c, side, k, x, own, y');
      ResidueUnique(v, FitWidth(y, bits), y.value, bits);
    }
  }

  /** An immediate, negated if its spelling says so. */
  ghost predicate ImmediateYields(c: Context, w: Widths, e: ImmExpr, neg: bool, desired: Option<nat>, v: Bv,
      w': Widths)
  {
    && Asked(desired, 64, v.width)
    && exists x :: ExprYields(c, w, e, v.width, x, w') && Signs(neg, x, v)
  }

  ghost predicate Signs(neg: bool, x: Bv, v: Bv) { Residue(v, if neg then -(x.value as int) else x.value, v.width) }

  lemma SignsIff(neg: bool, x: Bv, v: Bv)
    requires Proper(x) && x.width == v.width
    ensures SignFit(x, neg, v.width) == v <==> Signs(neg, x, v)
  {
    NegateIsResidue(x);
    ProperIsResidue(x);
    if Signs(neg, x, v) {
      ResidueUnique(v, SignFit(x, neg, v.width), if neg then -(x.value as int) else x.value, v.width);
    }
  }

  lemma ImmediateIsYielded(c: Context, w: Widths, e: ImmExpr, neg: bool, desired: Option<nat>, x: Bv, w': Widths)
    requires EvalExpr(c, w, e, Or(desired, 64)) == Some((x, w'))
    ensures var v := SignFit(x, neg, Or(desired, 64)); ImmediateYields(c, w, e, neg, desired, v, w') && Proper(v)
  {
    ExprIsYielded(c, w, e, Or(desired, 64));
    SignFits(x, neg);
    SignsIff(neg, x, SignFit(x, neg, x.width));
  }

  lemma YieldedIsImmediate(c: Context, w: Widths, e: ImmExpr, neg: bool, desired: Option<nat>, v: Bv, w': Widths)
      returns (x: Bv)
    requires ImmediateYields(c, w, e, neg, desired, v, w')
    ensures EvalExpr(c, w, e, Or(desired, 64)) == Some((x, w')) && SignFit(x, neg, Or(desired, 64)) == v
  {
    x :| ExprYields(c, w, e, v.width, x, w') && Signs(neg, x, v);
    YieldedIsExpr(c, w, e, v.width, x, w');
    ExprIsYielded(c, w, e, v.width);
    SignsIff(neg, x, v);
  }

  lemma SignFits(x: Bv, neg: bool)
    requires Proper(x)
    ensures SignFit(x, neg, x.width).width == x.width
  {
    NegateIsResidue(x);
  }

  ghost predicate SliceYields(x: Bv, own: nat, v: Bv) { own <= x.width && Residue(v, x.value, own) }

  /** What an operand yields in a state, and the symbols it fixes the width of. */
  ghost predicate Yields(c: Context, side: string, regs: Registers, w: Widths, op: Operand, desired: Option<nat>, v: Bv,
      w': Widths)
    decreases op
  {
    match op
    case RegOp(_, _, _) => w' == w && RegisterYields(c, regs, KeyOf(op), desired, v)
    case TmpOp(_, _, _) => w' == w && RegisterYields(c, regs, KeyOf(op), desired, v)
    case RegViewOp(b, own) =>
      w' == w && Assignable(b) && ViewYields(c, side, regs, KeyOf(b), Width(own), desired, v)
    case ReadWriteOp(r, _) => Yields(c, side, regs, w, r, desired, v, w')
    case ImmOp(id, derived, _, neg) =>
      ImmediateYields(c, w, if derived.Some? then derived.value else ImmRef(id), neg, desired, v, w')
    case LitOp(text) => w' == w && LiteralYields(c.literal(text), desired, v)
    case BitSliceOp(b, own) => exists x :: Yields(c, side, regs, w, b, None, x, w') && SliceYields(x, Width(own), v)
    case ExtOp(kind, own, a) => exists x :: Yields(c, side, regs, w, a, None, x, w') && Extends(kind, x, Width(own), v)
    case _ => false
  }

  ghost predicate OpSound(c: Context, side: string, regs: Registers, w: Widths, op: Operand, desired: Option<nat>) {
    EvalOp(c, side, regs, w, op, desired).Some? ==>
      var (v, w') := EvalOp(c, side, regs, w, op, desired).value;
      Yields(c, side, regs, w, op, desired, v, w') && Proper(v)
  }

  /** The operands without operands of their own. */
  predicate Simple(op: Operand) { Assignable(op) || op.RegViewOp? || op.ImmOp? || op.LitOp? }

  lemma SimpleYieldsIff(c: Context, side: string, regs: Registers, w: Widths, op: Operand, desired: Option<nat>, v: Bv,
      w': Widths)
    requires ProperRegs(regs) && Simple(op)
    ensures EvalOp(c, side, regs, w, op, desired) == Some((v, w')) <==> Yields(c, side, regs, w, op, desired, v, w')
    ensures Yields(c, side, regs, w, op, desired, v, w') ==> Proper(v)
  {
    if op.RegViewOp? { ViewOpIff(c, side, regs, w, op, desired, v, w'); }
    else if op.ImmOp? { ImmOpIff(c, side, regs, w, op, desired, v, w'); }
    else if op.LitOp? { LiteralYieldsIff(c.literal(op.text), desired, v); }
    else { RegisterYieldsIff(c, regs, KeyOf(op), desired, v); }
  }

  lemma ViewOpIff(c: Context, side: string, regs: Registers, w: Widths, op: Operand, desired: Option<nat>, v: Bv,
      w': Widths)
    requires ProperRegs(regs) && op.RegViewOp?
    ensures EvalOp(c, side, regs, w, op, desired) == Some((v, w')) <==> Yields(c, side, regs, w, op, desired, v, w')
    ensures Yields(c, side, regs, w, op, desired, v, w') ==> Proper(v)
  {
    if Assignable(op.base) {
      HoldsIff(c, regs, KeyOf(op.base), ReadKey(c, regs, KeyOf(op.base)));
      ViewYieldsIff(c, side, regs, KeyOf(op.base), Width(op.viewBits), desired, v);
    }
  }

  lemma ImmOpIff(c: Context, side: string, regs: Registers, w: Widths, op: Operand, desired: Option<nat>, v: Bv,
      w': Widths)
    requires op.ImmOp?
    ensures EvalOp(c, side, regs, w, op, desired) == Some((v, w')) <==> Yields(c, side, regs, w, op, desired, v, w')
    ensures Yields(c, side, regs, w, op, desired, v, w') ==> Proper(v)
  {
    var e := if op.derived.Some? then op.derived.value else ImmRef(op.id);
    var r := EvalExpr(c, w, e, Or(desired, 64));
    if r.Some? { ImmediateIsYielded(c, w, e, op.neg, desired, r.value.0, r.value.1); }
    if Yields(c, side, regs, w, op, desired, v, w') {
      var x := YieldedIsImmediate(c, w, e, op.neg, desired, v, w');
    }
  }

  lemma {:induction false} OpIsYielded(c: Context, side: string, regs: Registers, w: Widths, op: Operand,
      desired: Option<nat>)
    requires ProperRegs(regs)
    ensures OpSound(c, side, regs, w, op, desired)
    decreases op
  {
    var r := EvalOp(c, side, regs, w, op, desired);
    if Simple(op) {
      if r.Some? { SimpleYieldsIff(c, side, regs, w, op, desired, r.value.0, r.value.1); }
    } else {
      match op
      case ReadWriteOp(read, _) => OpIsYielded(c, side, regs, w, read, desired);
      case BitSliceOp(b, own) =>
        OpIsYielded(c, side, regs, w, b, None);
        var x := EvalOp(c, side, regs, w, b, None);
        if x.Some? { WrapIsResidue(x.value.0.value, Width(own)); }
      case ExtOp(kind, own, a) =>
        OpIsYielded(c, side, regs, w, a, None);
        if r.Some? { ExtendsIff(kind, EvalOp(c, side, regs, w, a, None).value.0, Width(own), r.value.0); }
      case _ =>
    }
  }

  lemma {:induction false} YieldedIsOp(c: Context, side: string, regs: Registers, w: Widths, op: Operand,
      desired: Option<nat>, v: Bv, w': Widths)
    requires ProperRegs(regs) && Yields(c, side, regs, w, op, desired, v, w')
    ensures EvalOp(c, side, regs, w, op, desired) == Some((v, w'))
    decreases op
  {
    if Simple(op) {
      SimpleYieldsIff(c, side, regs, w, op, desired, v, w');
    } else {
      match op
      case ReadWriteOp(r, _) => YieldedIsOp(c, side, regs, w, r, desired, v, w');
      case BitSliceOp(b, own) =>
        var x :| Yields(c, side, regs, w, b, None, x, w') && SliceYields(x, Width(own), v);
        YieldedIsOp(c, side, regs, w, b, None, x, w');
        ResidueIffWrap(v, x.value, Width(own));
      case ExtOp(kind, own, a) =>
        var x :| Yields(c, side, regs, w, a, None, x, w') && Extends(kind, x, Width(own), v);
        YieldedIsOp(c, side, regs, w, a, None, x, w');
        OpIsYielded(c, side, regs, w, a, None);
        ExtendsIff(kind, x, Width(own), v);
    }
  }

  /** Evaluating an operand gives exactly what it yields, and a value that fits. */
  lemma YieldsIff(c: Context, side: string, regs: Registers, w: Widths, op: Operand, desired: Option<nat>, v: Bv,
      w': Widths)
    requires ProperRegs(regs)
    ensures EvalOp(c, side, regs, w, op, desired) == Some((v, w')) <==> Yields(c, side, regs, w, op, desired, v, w')
    ensures Yields(c, side, regs, w, op, desired, v, w') ==> Proper(v)
  {
    OpIsYielded(c, side, regs, w, op, desired);
    if Yields(c, side, regs, w, op, desired, v, w') { YieldedIsOp(c, side, regs, w, op, desired, v, w'); }
  }
}
