/** What addresses, instructions and rules mean, on top of what operands yield. */
module InstructionLaws {
  import opened Wrappers
  import opened RuleAst
  import opened Semantics
  import opened OperatorLaws
  import opened EvaluationLaws

  // ---- addresses ----

  /** A part of an address, if it is there: evaluated at the width of the address, and really that wide. */
  ghost predicate Part(c: Context, side: string, regs: Registers, w: Widths, part: Option<Operand>, bits: nat,
      x: Option<Bv>, w': Widths)
  {
    if part.None? then x.None? && w' == w
    else x.Some? && x.value.width == bits && Yields(c, side, regs, w, part.value, Some(bits), x.value, w')
  }

  ghost predicate Accumulates(mnemonic: string, acc: Bv, x: Option<Bv>, r: Bv) {
    if x.None? then r == acc else Means(mnemonic, acc, x.value, r)
  }

  /** An evaluated part was there and combined as the mnemonic says. */
  lemma PartFound(c: Context, side: string, regs: Registers, w: Widths, part: Option<Operand>, acc: Bv,
      mnemonic: string) returns (x: Option<Bv>)
    requires ProperRegs(regs) && Proper(acc) && mnemonic in OPERATIONS
    requires EvalPart(c, side, regs, w, part, acc.width, acc, mnemonic).Some?
    ensures var r := EvalPart(c, side, regs, w, part, acc.width, acc, mnemonic).value;
            Part(c, side, regs, w, part, acc.width, x, r.1) && Accumulates(mnemonic, acc, x, r.0)
  {
    x := None;
    if part.Some? {
      var y := EvalOp(c, side, regs, w, part.value, Some(acc.width)).value;
      YieldsIff(c, side, regs, w, part.value, Some(acc.width), y.0, y.1);
      BinaryMeans(mnemonic, acc, y.0);
      x := Some(y.0);
    }
  }

  lemma PartEvaluates(c: Context, side: string, regs: Registers, w: Widths, part: Option<Operand>, acc: Bv,
      mnemonic: string, x: Option<Bv>, w': Widths) returns (r: Bv)
    requires ProperRegs(regs) && Proper(acc) && mnemonic in OPERATIONS
    requires Part(c, side, regs, w, part, acc.width, x, w')
    ensures EvalPart(c, side, regs, w, part, acc.width, acc, mnemonic) == Some((r, w'))
    ensures Accumulates(mnemonic, acc, x, r)
  {
    r := acc;
    if part.Some? {
      YieldsIff(c, side, regs, w, part.value, Some(acc.width), x.value, w');
      BinaryMeans(mnemonic, acc, x.value);
      r := Binary(mnemonic, acc, x.value).value;
    }
  }

  ghost function Amount(x: Option<Bv>): nat { if x.Some? then x.value.value else 0 }

  /** What the index is multiplied by: the scale, or else two to the shift. */
  ghost function Factor(a: Address, f: Option<Bv>): nat {
    if f.None? then 1 else if a.scale.Some? then f.value.value else Pow2(f.value.value)
  }

  /** The index with its scale or, if it has none, its shift; without an index neither is evaluated. */
  ghost predicate Indexes(c: Context, side: string, regs: Registers, w: Widths, a: Address, bits: nat, i: Option<Bv>,
      f: Option<Bv>, w': Widths)
  {
    if a.index.None? then i.None? && f.None? && w' == w
    else exists w1 ::
      && Part(c, side, regs, w, a.index, bits, i, w1)
      && Part(c, side, regs, w1, if a.scale.Some? then a.scale else a.shift, bits, f, w')
  }

  /** The displacement that is part of the address. */
  ghost function Last(a: Address): Option<Operand> { if a.writeback == "post" then None else a.displacement }

  /** The parts an address is computed from; a post-index displacement is not one of them. */
  datatype Parts = Parts(base: Option<Bv>, index: Option<Bv>, factor: Option<Bv>, displacement: Option<Bv>)

  ghost predicate HasParts(c: Context, side: string, regs: Registers, w: Widths, a: Address, bits: nat, p: Parts,
      w': Widths)
  {
    exists w1, w2 ::
      && Part(c, side, regs, w, a.base, bits, p.base, w1)
      && Indexes(c, side, regs, w1, a, bits, p.index, p.factor, w2)
      && Part(c, side, regs, w2, Last(a), bits, p.displacement, w')
  }

  /** Base plus index times factor plus displacement, modulo two to the width. */
  ghost predicate Locates(c: Context, side: string, regs: Registers, w: Widths, a: Address, bits: nat, v: Bv,
      w': Widths)
  {
    exists p :: HasParts(c, side, regs, w, a, bits, p, w') && Sums(a, p, bits, v)
  }

  ghost predicate Sums(a: Address, p: Parts, bits: nat, v: Bv) {
    Residue(v, Amount(p.base) + Amount(p.index) * Factor(a, p.factor) + Amount(p.displacement), bits)
  }

  lemma AddsTo(acc: Bv, m: int, x: Option<Bv>, r: Bv)
    requires Residue(acc, m, acc.width) && Accumulates("add", acc, x, r)
    ensures Residue(r, m + Amount(x), acc.width)
  {
    if x.Some? {
      Congruence(Amount(x), Amount(x), 0, Pow2(acc.width));
      CongruentSum(acc.value, m, Amount(x), Amount(x), Pow2(acc.width));
      CongruentTransitive(r.value, acc.value + Amount(x), m + Amount(x), Pow2(acc.width));
    }
  }

  lemma Scales(a: Address, i: Bv, f: Option<Bv>, r: Bv)
    requires Proper(i) && Accumulates(if a.scale.Some? then "mul" else "lsl", i, f, r)
    ensures Residue(r, i.value * Factor(a, f), i.width)
  {
    if f.None? { ProperIsResidue(i); }
  }

  lemma IndexFound(c: Context, side: string, regs: Registers, w: Widths, a: Address, bits: nat)
      returns (i: Option<Bv>, f: Option<Bv>)
    requires ProperRegs(regs) && EvalIndex(c, side, regs, w, a, bits).Some?
    requires EvalIndex(c, side, regs, w, a, bits).value.0.width == bits
    ensures var r := EvalIndex(c, side, regs, w, a, bits).value;
            Indexes(c, side, regs, w, a, bits, i, f, r.1) && Residue(r.0, Amount(i) * Factor(a, f), bits)
  {
    i, f := None, None;
    if a.index.None? {
      ProperIsResidue(Bv(bits, 0));
    } else {
      var x := EvalOp(c, side, regs, w, a.index.value, Some(bits)).value;
      YieldsIff(c, side, regs, w, a.index.value, Some(bits), x.0, x.1);
      i := Some(x.0);
      var r := EvalIndex(c, side, regs, w, a, bits).value;
      var part, mnemonic := if a.scale.Some? then a.scale else a.shift, if a.scale.Some? then "mul" else "lsl";
      PartWidth(c, side, regs, x.1, part, bits, x.0, mnemonic);
      f := PartFound(c, side, regs, x.1, part, x.0, mnemonic);
      Scales(a, x.0, f, r.0);
      assert Part(c, side, regs, w, a.index, bits, i, x.1);
    }
  }

  lemma PartWidth(c: Context, side: string, regs: Registers, w: Widths, part: Option<Operand>, bits: nat, acc: Bv,
      mnemonic: string)
    requires Proper(acc) && mnemonic in OPERATIONS && EvalPart(c, side, regs, w, part, bits, acc, mnemonic).Some?
    ensures EvalPart(c, side, regs, w, part, bits, acc, mnemonic).value.0.width == acc.width
  {
    if part.Some? { BinaryMeans(mnemonic, acc, EvalOp(c, side, regs, w, part.value, Some(bits)).value.0); }
  }

  lemma IndexEvaluates(c: Context, side: string, regs: Registers, w: Widths, a: Address, bits: nat, i: Option<Bv>,
      f: Option<Bv>, w': Widths) returns (r: Bv)
    requires ProperRegs(regs) && Indexes(c, side, regs, w, a, bits, i, f, w')
    ensures EvalIndex(c, side, regs, w, a, bits) == Some((r, w')) && Residue(r, Amount(i) * Factor(a, f), bits)
  {
    if a.index.None? {
      r := Bv(bits, 0);
      ProperIsResidue(r);
    } else {
      var part, mnemonic := if a.scale.Some? then a.scale else a.shift, if a.scale.Some? then "mul" else "lsl";
      var w1 :| Part(c, side, regs, w, a.index, bits, i, w1) && Part(c, side, regs, w1, part, bits, f, w');
      YieldsIff(c, side, regs, w, a.index.value, Some(bits), i.value, w1);
      r := PartEvaluates(c, side, regs, w1, part, i.value, mnemonic, f, w');
      Scales(a, i.value, f, r);
    }
  }

  /** A sum of two residues. */
  lemma SumIsResidue(x: Bv, m: int, y: Bv, n: int, bits: nat)
    requires Residue(x, m, bits) && Residue(y, n, bits)
    ensures Residue(Wrap(x.value + y.value, bits), m + n, bits)
  {
    var s := Wrap(x.value + y.value, bits);
    WrapIsResidue(x.value + y.value, bits);
    CongruentSum(x.value, m, y.value, n, Pow2(bits));
    CongruentTransitive(s.value, x.value + y.value, m + n, Pow2(bits));
  }

  lemma BaseFound(c: Context, side: string, regs: Registers, w: Widths, base: Option<Operand>, bits: nat)
      returns (b: Option<Bv>)
    requires ProperRegs(regs) && EvalPart(c, side, regs, w, base, bits, Bv(bits, 0), "add").Some?
    ensures var r := EvalPart(c, side, regs, w, base, bits, Bv(bits, 0), "add").value;
            Part(c, side, regs, w, base, bits, b, r.1) && Residue(r.0, Amount(b), bits)
  {
    var zero := Bv(bits, 0);
    ProperIsResidue(zero);
    b := PartFound(c, side, regs, w, base, zero, "add");
    AddsTo(zero, 0, b, EvalPart(c, side, regs, w, base, bits, zero, "add").value.0);
  }

  lemma BaseEvaluates(c: Context, side: string, regs: Registers, w: Widths, base: Option<Operand>, bits: nat,
      b: Option<Bv>, w1: Widths) returns (r: Bv)
    requires ProperRegs(regs) && Part(c, side, regs, w, base, bits, b, w1)
    ensures EvalPart(c, side, regs, w, base, bits, Bv(bits, 0), "add") == Some((r, w1)) && Residue(r, Amount(b), bits)
  {
    var zero := Bv(bits, 0);
    ProperIsResidue(zero);
    r := PartEvaluates(c, side, regs, w, base, zero, "add", b, w1);
    AddsTo(zero, 0, b, r);
  }

  lemma BaseIndexFound(c: Context, side: string, regs: Registers, w: Widths, a: Address, bits: nat)
      returns (b: Option<Bv>, i: Option<Bv>, f: Option<Bv>, w1: Widths)
    requires ProperRegs(regs) && EvalBaseIndex(c, side, regs, w, a, bits).Some?
    ensures var r := EvalBaseIndex(c, side, regs, w, a, bits).value;
            && Part(c, side, regs, w, a.base, bits, b, w1) && Indexes(c, side, regs, w1, a, bits, i, f, r.1)
            && Residue(r.0, Amount(b) + Amount(i) * Factor(a, f), bits)
  {
    var base := EvalPart(c, side, regs, w, a.base, bits, Bv(bits, 0), "add").value;
    w1 := base.1;
    b := BaseFound(c, side, regs, w, a.base, bits);
    var index := EvalIndex(c, side, regs, w1, a, bits).value;
    assert index.0.width == base.0.width;
    i, f := IndexFound(c, side, regs, w1, a, bits);
    SumIsResidue(base.0, Amount(b), index.0, Amount(i) * Factor(a, f), bits);
  }

  lemma BaseIndexEvaluates(c: Context, side: string, regs: Registers, w: Widths, a: Address, bits: nat, p: Parts,
      w1: Widths, w2: Widths) returns (r: Bv)
    requires ProperRegs(regs) && Part(c, side, regs, w, a.base, bits, p.base, w1)
    requires Indexes(c, side, regs, w1, a, bits, p.index, p.factor, w2)
    ensures EvalBaseIndex(c, side, regs, w, a, bits) == Some((r, w2))
    ensures Residue(r, Amount(p.base) + Amount(p.index) * Factor(a, p.factor), bits)
  {
    var base := BaseEvaluates(c, side, regs, w, a.base, bits, p.base, w1);
    var index := IndexEvaluates(c, side, regs, w1, a, bits, p.index, p.factor, w2);
    SumIsResidue(base, Amount(p.base), index, Amount(p.index) * Factor(a, p.factor), bits);
    r := Wrap(base.value + index.value, bits);
  }

  lemma AddressByParts(c: Context, side: string, regs: Registers, w: Widths, op: Operand, bits: nat, total: Bv,
      w2: Widths)
    requires op.MemoryOp? && EvalBaseIndex(c, side, regs, w, op.address, bits) == Some((total, w2))
    requires Proper(total) && total.width == bits
    ensures EvalAddress(c, side, regs, w, op, bits)
            == EvalPart(c, side, regs, w2, Last(op.address), bits, total, "add")
  {
    var r := EvalPart(c, side, regs, w2, Last(op.address), bits, total, "add");
    if r.Some? { PartWidth(c, side, regs, w2, Last(op.address), bits, total, "add"); }
  }

  lemma FoundIsLocated(c: Context, side: string, regs: Registers, w: Widths, op: Operand, bits: nat)
    requires ProperRegs(regs) && EvalAddress(c, side, regs, w, op, bits).Some?
    ensures var r := EvalAddress(c, side, regs, w, op, bits).value;
            op.MemoryOp? && Locates(c, side, regs, w, op.address, bits, r.0, r.1)
  {
    var a, r := op.address, EvalAddress(c, side, regs, w, op, bits).value;
    var (total, w2) := EvalBaseIndex(c, side, regs, w, a, bits).value;
    var b, i, f, w1 := BaseIndexFound(c, side, regs, w, a, bits);
    AddressByParts(c, side, regs, w, op, bits, total, w2);
    var d := PartFound(c, side, regs, w2, Last(a), total, "add");
    AddsTo(total, Amount(b) + Amount(i) * Factor(a, f), d, r.0);
    var p := Parts(b, i, f, d);
    assert HasParts(c, side, regs, w, a, bits, p, r.1) && Sums(a, p, bits, r.0);
  }

  lemma LocatedIsFound(c: Context, side: string, regs: Registers, w: Widths, op: Operand, bits: nat, v: Bv, w': Widths)
    requires ProperRegs(regs) && op.MemoryOp? && Locates(c, side, regs, w, op.address, bits, v, w')
    ensures EvalAddress(c, side, regs, w, op, bits) == Some((v, w'))
  {
    var a := op.address;
    var p :| HasParts(c, side, regs, w, a, bits, p, w') && Sums(a, p, bits, v);
    var w1, w2 :| Part(c, side, regs, w, a.base, bits, p.base, w1)
      && Indexes(c, side, regs, w1, a, bits, p.index, p.factor, w2)
      && Part(c, side, regs, w2, Last(a), bits, p.displacement, w');
    var total := BaseIndexEvaluates(c, side, regs, w, a, bits, p, w1, w2);
    AddressByParts(c, side, regs, w, op, bits, total, w2);
    var sum := PartEvaluates(c, side, regs, w2, Last(a), total, "add", p.displacement, w');
    var m := Amount(p.base) + Amount(p.index) * Factor(a, p.factor);
    AddsTo(total, m, p.displacement, sum);
    ResidueUnique(v, sum, m + Amount(p.displacement), bits);
  }

  /** An address is supported exactly when its parts are, and is their sum. */
  lemma LocatesIff(c: Context, side: string, regs: Registers, w: Widths, op: Operand, bits: nat, v: Bv, w': Widths)
    requires ProperRegs(regs)
    ensures EvalAddress(c, side, regs, w, op, bits) == Some((v, w')) <==>
            op.MemoryOp? && Locates(c, side, regs, w, op.address, bits, v, w')
  {
    if EvalAddress(c, side, regs, w, op, bits) == Some((v, w')) { FoundIsLocated(c, side, regs, w, op, bits); }
    if op.MemoryOp? && Locates(c, side, regs, w, op.address, bits, v, w') {
      LocatedIsFound(c, side, regs, w, op, bits, v, w');
    }
  }

  // ---- instructions ----

  /** The register an operand names as destination: itself, or the written one of a read/write pair. */
  ghost predicate Targets(op: Operand, k: Key) {
    || (op.RegOp? && k == Key(Reg, op.prefix, op.bits, op.id))
    || (op.TmpOp? && k == Key(Tmp, op.prefix, op.bits, op.id))
    || (op.ReadWriteOp? && op.write.RegOp? && k == Key(Reg, op.write.prefix, op.write.bits, op.write.id))
    || (op.ReadWriteOp? && op.write.TmpOp? && k == Key(Tmp, op.write.prefix, op.write.bits, op.write.id))
  }

  lemma TargetsIff(op: Operand, k: Key)
    ensures Destination(op) == Some(k) <==> Targets(op, k)
  {}

  /** The value lands in the destination at its width, and every other register stays. */
  ghost predicate Lands(st: State, k: Key, v: Bv, w': Widths, st': State) {
    && st'.widths == w' && k in st'.regs && Residue(st'.regs[k], v.value, Width(k.bits))
    && forall j :: j != k ==> (j in st'.regs <==> j in st.regs) && (j in st.regs ==> st'.regs[j] == st.regs[j])
  }

  lemma LandsIff(st: State, dst: Operand, v: Bv, w': Widths, st': State)
    requires Proper(v)
    ensures Assign(st, dst, Some((v, w'))) == Some(st') <==> exists k :: Targets(dst, k) && Lands(st, k, v, w', st')
  {
    if Destination(dst).Some? {
      var k := Destination(dst).value;
      TargetsIff(dst, k);
      FitIsResidue(v, Width(k.bits));
      if j :| Targets(dst, j) && Lands(st, j, v, w', st') {
        TargetsIff(dst, j);
        ResidueUnique(st'.regs[k], FitWidth(v, Width(k.bits)), v.value, Width(k.bits));
        forall i ensures (i in st'.regs <==> i == k || i in st.regs) {
          if i != k { assert i in st'.regs <==> i in st.regs; }
        }
        assert st'.regs == st.regs[k := FitWidth(v, Width(k.bits))];
      }
    } else {
      forall k ensures !Targets(dst, k) { TargetsIff(dst, k); }
    }
  }

  /** The two sources of an operation: with two operands the destination is read first. */
  ghost predicate Sources(ops: seq<Operand>, first: Operand, second: Operand) {
    (|ops| == 2 && first == ops[0] && second == ops[1]) || (|ops| == 3 && first == ops[1] && second == ops[2])
  }

  /** The second source, fitted to the width of the first, and the operation on both. */
  ghost predicate Combined(c: Context, side: string, st: State, mnemonic: string, first: Operand, second: Operand,
      v: Bv, w': Widths)
  {
    exists x, w1, y ::
      Yields(c, side, st.regs, st.widths, first, None, x, w1)
      && Yields(c, side, st.regs, w1, second, Some(x.width), y, w') && Operates(mnemonic, x, y, v)
  }

  ghost predicate Operates(mnemonic: string, x: Bv, y: Bv, v: Bv) {
    exists fitted :: Residue(fitted, y.value, x.width) && Means(mnemonic, x, fitted, v)
  }

  lemma OperatesIff(mnemonic: string, x: Bv, y: Bv, v: Bv)
    requires Proper(x) && Proper(y)
    ensures Binary(mnemonic, x, FitWidth(y, x.width)) == Some(v) <==>
            mnemonic in OPERATIONS && Operates(mnemonic, x, y, v)
  {
    var fit := FitWidth(y, x.width);
    FitIsResidue(y, x.width);
    BinaryMeansIff(mnemonic, x, fit, v);
    if Operates(mnemonic, x, y, v) {
      var fitted :| Residue(fitted, y.value, x.width) && Means(mnemonic, x, fitted, v);
      ResidueUnique(fit, fitted, y.value, x.width);
    }
  }

  ghost predicate Calculates(c: Context, side: string, st: State, mnemonic: string, ops: seq<Operand>, v: Bv,
      w': Widths)
  {
    exists first, second :: Sources(ops, first, second) && Combined(c, side, st, mnemonic, first, second, v, w')
  }

  lemma CalculatesIff(c: Context, side: string, st: State, mnemonic: string, ops: seq<Operand>, v: Bv, w': Widths)
    requires ProperRegs(st.regs) && mnemonic in OPERATIONS
    ensures EvalBinary(c, side, st, mnemonic, ops) == Some((v, w')) <==> Calculates(c, side, st, mnemonic, ops, v, w')
    ensures EvalBinary(c, side, st, mnemonic, ops) == Some((v, w')) ==> Proper(v)
  {
    if EvalBinary(c, side, st, mnemonic, ops) == Some((v, w')) { CalculatedFound(c, side, st, mnemonic, ops, v, w'); }
    if Calculates(c, side, st, mnemonic, ops, v, w') { FoundCalculated(c, side, st, mnemonic, ops, v, w'); }
  }

  lemma CalculatedFound(c: Context, side: string, st: State, mnemonic: string, ops: seq<Operand>, v: Bv, w': Widths)
    requires ProperRegs(st.regs) && mnemonic in OPERATIONS && EvalBinary(c, side, st, mnemonic, ops) == Some((v, w'))
    ensures Calculates(c, side, st, mnemonic, ops, v, w') && Proper(v)
  {
    var first, second := FirstSource(ops).value, ops[|ops| - 1];
    CombinedFound(c, side, st, mnemonic, first, second, v, w');
    assert Sources(ops, first, second);
  }

  lemma FoundCalculated(c: Context, side: string, st: State, mnemonic: string, ops: seq<Operand>, v: Bv, w': Widths)
    requires ProperRegs(st.regs) && mnemonic in OPERATIONS && Calculates(c, side, st, mnemonic, ops, v, w')
    ensures EvalBinary(c, side, st, mnemonic, ops) == Some((v, w'))
  {
    var first, second :| Sources(ops, first, second) && Combined(c, side, st, mnemonic, first, second, v, w');
    assert FirstSource(ops) == Some(first) && ops[|ops| - 1] == second;
    FoundCombined(c, side, st, mnemonic, first, second, v, w');
  }

  lemma CombinedFound(c: Context, side: string, st: State, mnemonic: string, first: Operand, second: Operand, v: Bv,
      w': Widths)
    requires ProperRegs(st.regs) && mnemonic in OPERATIONS
    requires var x := EvalOp(c, side, st.regs, st.widths, first, None);
             x.Some? && WithSecond(c, side, st.regs, mnemonic, x.value, second) == Some((v, w'))
    ensures Combined(c, side, st, mnemonic, first, second, v, w') && Proper(v)
  {
    var (x, w1) := EvalOp(c, side, st.regs, st.widths, first, None).value;
    YieldsIff(c, side, st.regs, st.widths, first, None, x, w1);
    var y := EvalOp(c, side, st.regs, w1, second, Some(x.width)).value.0;
    YieldsIff(c, side, st.regs, w1, second, Some(x.width), y, w');
    OperatesIff(mnemonic, x, y, v);
  }

  lemma FoundCombined(c: Context, side: string, st: State, mnemonic: string, first: Operand, second: Operand, v: Bv,
      w': Widths)
    requires ProperRegs(st.regs) && mnemonic in OPERATIONS
    requires Combined(c, side, st, mnemonic, first, second, v, w')
    ensures var x := EvalOp(c, side, st.regs, st.widths, first, None);
            x.Some? && WithSecond(c, side, st.regs, mnemonic, x.value, second) == Some((v, w'))
  {
    var x, w1, y :| Yields(c, side, st.regs, st.widths, first, None, x, w1)
      && Yields(c, side, st.regs, w1, second, Some(x.width), y, w') && Operates(mnemonic, x, y, v);
    YieldsIff(c, side, st.regs, st.widths, first, None, x, w1);
    YieldsIff(c, side, st.regs, w1, second, Some(x.width), y, w');
    OperatesIff(mnemonic, x, y, v);
  }

  // ---- whole instructions ----

  const UPPER := "ABCDEFGHIJKLMNOPQRSTUVWXYZ"
  const LOWER := "abcdefghijklmnopqrstuvwxyz"

  ghost predicate Folds(c: char, d: char) {
    (exists i :: 0 <= i < |UPPER| && c == UPPER[i] && d == LOWER[i]) || (c !in UPPER && d == c)
  }

  lemma LowerFolds(s: string, i: nat)
    requires i < |s|
    ensures |Lower(s)| == |s| && Folds(s[i], Lower(s)[i])
  {
    LettersInOrder();
    if 'A' <= s[i] <= 'Z' {
      var k := (s[i] - 'A') as nat;
      assert s[i] == UPPER[k] && Lower(s)[i] == LOWER[k];
    }
  }

  lemma LettersInOrder()
    ensures |UPPER| == 26 && |LOWER| == 26
    ensures forall k :: 0 <= k < 26 ==> UPPER[k] as int == 'A' as int + k && LOWER[k] as int == 'a' as int + k
  {}

  /** What the instruction computes for a destination of this width. */
  ghost predicate Computes(c: Context, side: string, st: State, mnemonic: string, ops: seq<Operand>, bits: nat, v: Bv,
      w': Widths)
    requires |ops| >= 2
  {
    if mnemonic in {"mov", "movzx"} then Yields(c, side, st.regs, st.widths, ops[1], None, v, w')
    else if mnemonic == "lea" then
      ops[1].MemoryOp? && Locates(c, side, st.regs, st.widths, ops[1].address, bits, v, w')
    else mnemonic in OPERATIONS && Calculates(c, side, st, mnemonic, ops, v, w')
  }

  /** One instruction without annotations takes one state to the next. */
  ghost predicate Executes(c: Context, side: string, st: State, inst: Instruction, st': State) {
    && inst.meta == [] && inst.postMeta == [] && |inst.operands| >= 2
    && exists k, v, w' ::
         && Targets(inst.operands[0], k)
         && Computes(c, side, st, Lower(inst.mnemonic), inst.operands, Width(k.bits), v, w') && Lands(st, k, v, w', st')
  }

  /** The value computed before it is assigned. */
  function Computed(c: Context, side: string, st: State, mnemonic: string, ops: seq<Operand>, bits: nat)
    : Option<(Bv, Widths)>
    requires |ops| >= 2
  {
    if mnemonic == "mov" || mnemonic == "movzx" then EvalOp(c, side, st.regs, st.widths, ops[1], None)
    else if mnemonic == "lea" then EvalAddress(c, side, st.regs, st.widths, ops[1], bits)
    else if mnemonic in BINARY then EvalBinary(c, side, st, mnemonic, ops) else None
  }

  lemma ComputesIff(c: Context, side: string, st: State, mnemonic: string, ops: seq<Operand>, bits: nat, v: Bv,
      w': Widths)
    requires ProperRegs(st.regs) && |ops| >= 2
    ensures Computed(c, side, st, mnemonic, ops, bits) == Some((v, w')) <==>
            Computes(c, side, st, mnemonic, ops, bits, v, w')
    ensures Computes(c, side, st, mnemonic, ops, bits, v, w') ==> Proper(v)
  {
    assert BINARY == OPERATIONS;
    if mnemonic in {"mov", "movzx"} {
      YieldsIff(c, side, st.regs, st.widths, ops[1], None, v, w');
    } else if mnemonic == "lea" {
      LocatesIff(c, side, st.regs, st.widths, ops[1], bits, v, w');
    } else if mnemonic in OPERATIONS {
      CalculatesIff(c, side, st, mnemonic, ops, v, w');
    }
  }

  lemma EvalInstComputes(c: Context, side: string, st: State, inst: Instruction)
    requires inst.meta == [] && inst.postMeta == [] && |inst.operands| >= 2
    ensures EvalInst(c, side, st, inst) ==
            if Destination(inst.operands[0]).None? then None
            else Assign(st, inst.operands[0], Computed(c, side, st, Lower(inst.mnemonic), inst.operands,
                        Width(Destination(inst.operands[0]).value.bits)))
  {}

  /** The evaluator takes exactly the steps the instructions mean. */
  lemma ExecutesIff(c: Context, side: string, st: State, inst: Instruction, st': State)
    requires ProperRegs(st.regs)
    ensures EvalInst(c, side, st, inst) == Some(st') <==> Executes(c, side, st, inst, st')
    ensures Executes(c, side, st, inst, st') ==> ProperRegs(st'.regs)
  {
    if inst.meta == [] && inst.postMeta == [] && |inst.operands| >= 2 {
      var dst, mnemonic, ops := inst.operands[0], Lower(inst.mnemonic), inst.operands;
      EvalInstComputes(c, side, st, inst);
      if EvalInst(c, side, st, inst) == Some(st') {
        var k := Destination(dst).value;
        var (v, w') := Computed(c, side, st, mnemonic, ops, Width(k.bits)).value;
        ComputesIff(c, side, st, mnemonic, ops, Width(k.bits), v, w');
        TargetsIff(dst, k);
        LandsIff(st, dst, v, w', st');
      }
      if Executes(c, side, st, inst, st') {
        var k, v, w' :| Targets(dst, k) && Computes(c, side, st, mnemonic, ops, Width(k.bits), v, w')
          && Lands(st, k, v, w', st');
        TargetsIff(dst, k);
        ComputesIff(c, side, st, mnemonic, ops, Width(k.bits), v, w');
        LandsIff(st, dst, v, w', st');
        forall j | j in st'.regs ensures Proper(st'.regs[j]) && st'.regs[j].width == Width(j.bits) {
          if j != k { assert j in st.regs; }
        }
      }
    }
  }

  // ---- runs ----

  /** The states a list of instructions goes through. */
  ghost predicate Trace(c: Context, side: string, insts: seq<Instruction>, states: seq<State>) {
    |states| == |insts| + 1 && forall i :: 0 <= i < |insts| ==> Executes(c, side, states[i], insts[i], states[i + 1])
  }

  ghost predicate Runs(c: Context, side: string, st: State, insts: seq<Instruction>, st': State) {
    exists states :: Trace(c, side, insts, states) && states[0] == st && states[|insts|] == st'
  }

  lemma {:induction false} RunFound(c: Context, side: string, st: State, insts: seq<Instruction>, st': State)
      returns (states: seq<State>)
    requires ProperRegs(st.regs) && EvalInsts(c, side, st, insts) == Some(st')
    ensures Trace(c, side, insts, states) && states[0] == st && states[|insts|] == st'
    decreases |insts|
  {
    states := [st];
    if insts != [] {
      var next := EvalInst(c, side, st, insts[0]).value;
      ExecutesIff(c, side, st, insts[0], next);
      var rest := RunFound(c, side, next, insts[1..], st');
      states := [st] + rest;
      forall i | 0 <= i < |insts| ensures Executes(c, side, states[i], insts[i], states[i + 1]) {
        if i > 0 { assert Executes(c, side, rest[i - 1], insts[1..][i - 1], rest[i]); }
      }
    }
  }

  lemma {:induction false} RunEvaluates(c: Context, side: string, insts: seq<Instruction>, states: seq<State>)
    requires Trace(c, side, insts, states) && ProperRegs(states[0].regs)
    ensures EvalInsts(c, side, states[0], insts) == Some(states[|insts|])
    decreases |insts|
  {
    if insts != [] {
      ExecutesIff(c, side, states[0], insts[0], states[1]);
      forall i | 0 <= i < |insts| - 1 ensures Executes(c, side, states[1..][i], insts[1..][i], states[1..][i + 1]) {
        assert Executes(c, side, states[i + 1], insts[i + 1], states[i + 2]);
      }
      RunEvaluates(c, side, insts[1..], states[1..]);
    }
  }

  /** The evaluator's loop ends in a state exactly when the instructions, one after the other, lead there. */
  lemma RunsIff(c: Context, side: string, st: State, insts: seq<Instruction>, st': State)
    requires ProperRegs(st.regs)
    ensures EvalInsts(c, side, st, insts) == Some(st') <==> Runs(c, side, st, insts, st')
  {
    if EvalInsts(c, side, st, insts) == Some(st') { var states := RunFound(c, side, st, insts, st'); }
    if Runs(c, side, st, insts, st') {
      var states :| Trace(c, side, insts, states) && states[0] == st && states[|insts|] == st';
      RunEvaluates(c, side, insts, states);
    }
  }

  /** No register written, and the symbols' widths as given. */
  function Fresh(w: Widths): State { State(map[], w) }

  /** Both sides run from fresh registers; the host sees the widths the guest gave the shared symbols. */
  ghost predicate RunsBoth(c: Context, r: Rule, guest: State, host: State) {
    Runs(c, "guest", Fresh(map[]), r.guest, guest) && Runs(c, "host", Fresh(guest.widths), r.host, host)
  }

  lemma BothFound(c: Context, r: Rule) returns (g: State, h: State)
    requires EvalRule(c, r).Some?
    ensures RunsBoth(c, r, g, h) && EvalRule(c, r) == Some((g.regs, h.regs))
  {
    g := EvalInsts(c, "guest", Fresh(map[]), r.guest).value;
    h := EvalInsts(c, "host", Fresh(g.widths), r.host).value;
    RunsIff(c, "guest", Fresh(map[]), r.guest, g);
    RunsIff(c, "host", Fresh(g.widths), r.host, h);
  }

  lemma BothEvaluate(c: Context, r: Rule, g: State, h: State)
    requires RunsBoth(c, r, g, h)
    ensures EvalRule(c, r) == Some((g.regs, h.regs))
  {
    RunsIff(c, "guest", Fresh(map[]), r.guest, g);
    RunsIff(c, "host", Fresh(g.widths), r.host, h);
  }

  /** Both sides give some register a value, and the same one to every register both give a value. */
  ghost predicate Matches(guest: Registers, host: Registers) {
    && (exists k :: k in guest && k in host)
    && forall k :: k in guest && k in host ==> guest[k] == host[k]
  }

  ghost predicate RunsAndMatches(c: Context, r: Rule) {
    exists g, h :: RunsBoth(c, r, g, h) && Matches(g.regs, h.regs)
  }

  ghost predicate Verdict(e: Option<(Registers, Registers)>) { e.Some? && Agree(e.value.0, e.value.1) }

  lemma AgreeIff(guest: Registers, host: Registers)
    requires ProperRegs(guest) && ProperRegs(host)
    ensures Agree(guest, host) <==> Matches(guest, host)
  {}

  lemma PassesAtIff(c: Context, r: Rule)
    ensures Verdict(EvalRule(c, r)) <==> RunsAndMatches(c, r)
  {
    if EvalRule(c, r).Some? {
      var g, h := BothFound(c, r);
      RunIsProper(c, "guest", Fresh(map[]), r.guest, g);
      RunIsProper(c, "host", Fresh(g.widths), r.host, h);
      AgreeIff(g.regs, h.regs);
    }
    if RunsAndMatches(c, r) {
      var g, h :| RunsBoth(c, r, g, h) && Matches(g.regs, h.regs);
      BothEvaluate(c, r, g, h);
    }
  }

  /** A rule passes exactly when, for all registers and all values of the immediates, both sides run and match. */
  lemma PassesIff(domains: Domains, literal: string -> Option<int>, r: Rule)
    ensures Passes(domains, literal, r) <==>
            forall vals: Valuation :: (forall id :: domains(id) != [] ==> vals.imm(id) in domains(id)) ==>
              RunsAndMatches(Context(domains, literal, vals), r)
  {
    forall vals: Valuation
      ensures Verdict(EvalRule(Context(domains, literal, vals), r)) <==>
              RunsAndMatches(Context(domains, literal, vals), r)
    {
      PassesAtIff(Context(domains, literal, vals), r);
    }
    assert Passes(domains, literal, r) <==> forall vals: Valuation :: InDomains(vals, domains) ==>
                                              Verdict(EvalRule(Context(domains, literal, vals), r));
  }

  lemma RunIsProper(c: Context, side: string, st: State, insts: seq<Instruction>, st': State)
    requires ProperRegs(st.regs) && Runs(c, side, st, insts, st')
    ensures ProperRegs(st'.regs)
  {
    var states :| Trace(c, side, insts, states) && states[0] == st && states[|insts|] == st';
    StatesProper(c, side, insts, states, |insts|);
  }

  lemma {:induction false} StatesProper(c: Context, side: string, insts: seq<Instruction>, states: seq<State>, i: nat)
    requires Trace(c, side, insts, states) && ProperRegs(states[0].regs) && i <= |insts|
    ensures ProperRegs(states[i].regs)
  {
    if i > 0 {
      StatesProper(c, side, insts, states, i - 1);
      ExecutesIff(c, side, states[i - 1], insts[i - 1], states[i]);
    }
  }
}
