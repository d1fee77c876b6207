/** Renaming placeholders does not change what a rule means. */
module AlphaSemantics {
  import opened Wrappers
  import opened RuleAst
  import opened Fingerprint
  import opened Semantics

  /** Context `d` gives each placeholder what context `c` gives the renamed one. */
  ghost predicate Follows(rho: Renaming, d: Context, c: Context) {
    && d.literal == c.literal
    && (forall k :: k in rho ==> d.vals.reg(k) == c.vals.reg(RenameKey(rho, k)))
    && (forall side, k, bits :: k in rho ==> d.vals.high(side, k, bits) == c.vals.high(side, RenameKey(rho, k), bits))
    && (forall id :: ImmKey(id) in rho ==> d.vals.imm(id) == c.vals.imm(NewId(rho, ImmKey(id))))
    && DomainsFollow(rho, d.domains, c.domains)
  }

  ghost predicate DomainsFollow(rho: Renaming, before: Domains, after: Domains) {
    forall id :: ImmKey(id) in rho ==> before(id) == after(NewId(rho, ImmKey(id)))
  }

  /** The valuation a renamed rule induces on the original placeholders; any other immediate takes a value of its
      domain. */
  function Pull(rho: Renaming, domains: Domains, vals: Valuation): Valuation {
    Valuation(
      (k: Key) => vals.reg(RenameKey(rho, k)),
      (side: string, k: Key, bits: int) => vals.high(side, RenameKey(rho, k), bits),
      (id: int) => if ImmKey(id) in rho then vals.imm(NewId(rho, ImmKey(id)))
                   else if domains(id) != [] then domains(id)[0] else 0)
  }

  lemma PullFollows(rho: Renaming, before: Domains, after: Domains, literal: string -> Option<int>, vals: Valuation)
    requires DomainsFollow(rho, before, after) && InDomains(vals, after)
    ensures InDomains(Pull(rho, before, vals), before)
    ensures Follows(rho, Context(before, literal, Pull(rho, before, vals)), Context(after, literal, vals))
  {}

  ghost predicate WidthsMatch(rho: Renaming, w: Widths, w': Widths) {
    forall id :: ImmKey(id) in rho ==>
      (id in w <==> NewId(rho, ImmKey(id)) in w') && (id in w ==> w[id] == w'[NewId(rho, ImmKey(id))])
  }

  /** The registers of the renamed run are the renamed registers of the original run. */
  ghost predicate RegsMatch(rho: Renaming, regs: Registers, regs': Registers) {
    && (forall k :: k in rho ==> (k in regs <==> RenameKey(rho, k) in regs'))
    && (forall k :: k in rho && k in regs ==> regs[k] == regs'[RenameKey(rho, k)])
    && (forall k' :: k' in regs' ==> exists k :: k in rho && k in regs && RenameKey(rho, k) == k')
  }

  ghost predicate ResultsMatch(rho: Renaming, x: Option<(Bv, Widths)>, x': Option<(Bv, Widths)>) {
    (x.Some? <==> x'.Some?) && (x.Some? ==> x.value.0 == x'.value.0 && WidthsMatch(rho, x.value.1, x'.value.1))
  }

  lemma CoversSplit(rho: Renaming, a: seq<Key>, b: seq<Key>)
    requires Covers(rho, a + b)
    ensures Covers(rho, a) && Covers(rho, b)
  {
    forall i | 0 <= i < |a| ensures a[i] in rho { assert (a + b)[i] == a[i]; }
    forall i | 0 <= i < |b| ensures b[i] in rho { assert (a + b)[|a| + i] == b[i]; }
  }

  lemma ImmediateAlpha(rho: Renaming, d: Context, c: Context, w: Widths, w': Widths, id: int, bits: nat)
    requires Injective(rho) && Follows(rho, d, c) && ImmKey(id) in rho && WidthsMatch(rho, w, w')
    ensures ResultsMatch(rho, Some(Immediate(d, w, id, bits)), Some(Immediate(c, w', NewId(rho, ImmKey(id)), bits)))
  {
    forall j | ImmKey(j) in rho && NewId(rho, ImmKey(j)) == NewId(rho, ImmKey(id)) ensures j == id {
      assert RenameKey(rho, ImmKey(j)) == RenameKey(rho, ImmKey(id));
    }
  }

  lemma ReferenceAlpha(rho: Renaming, d: Context, c: Context, w: Widths, w': Widths, e: ImmExpr, bits: nat)
    requires e.ImmRef? || (e.Log2? && e.arg.ImmRef?)
    requires Injective(rho) && Follows(rho, d, c) && Covers(rho, KeysExpr(e)) && WidthsMatch(rho, w, w')
    ensures ResultsMatch(rho, EvalExpr(d, w, e, bits), EvalExpr(c, w', RenameExpr(rho, e), bits))
  {
    var id := if e.ImmRef? then e.id else e.arg.id;
    assert KeysExpr(e) == [ImmKey(id)] && KeysExpr(e)[0] in rho;
    ImmediateAlpha(rho, d, c, w, w', id, bits);
  }

  lemma {:induction false} ExprAlpha(rho: Renaming, d: Context, c: Context, w: Widths, w': Widths, e: ImmExpr,
      bits: nat)
    requires Injective(rho) && Follows(rho, d, c) && Covers(rho, KeysExpr(e)) && WidthsMatch(rho, w, w')
    ensures ResultsMatch(rho, EvalExpr(d, w, e, bits), EvalExpr(c, w', RenameExpr(rho, e), bits))
    decreases e, 1
  {
    match e
    case ImmRef(_) => ReferenceAlpha(rho, d, c, w, w', e, bits);
    case Neg(a) => ExprAlpha(rho, d, c, w, w', a, bits);
    case BitOr(_, _) => PairAlpha(rho, d, c, w, w', e, bits);
    case ShiftLeft(_, _) => PairAlpha(rho, d, c, w, w', e, bits);
    case Log2(a) => if a.ImmRef? { ReferenceAlpha(rho, d, c, w, w', e, bits); }
    case _ =>
  }

  lemma {:induction false} PairAlpha(rho: Renaming, d: Context, c: Context, w: Widths, w': Widths, e: ImmExpr,
      bits: nat)
    requires e.BitOr? || e.ShiftLeft?
    requires Injective(rho) && Follows(rho, d, c) && Covers(rho, KeysExpr(e)) && WidthsMatch(rho, w, w')
    ensures ResultsMatch(rho, EvalExpr(d, w, e, bits), EvalExpr(c, w', RenameExpr(rho, e), bits))
    decreases e, 0
  {
    var l, r := e.left, e.right;
    CoversSplit(rho, KeysExpr(l), KeysExpr(r));
    ExprAlpha(rho, d, c, w, w', l, bits);
    var x, x' := EvalExpr(d, w, l, bits), EvalExpr(c, w', RenameExpr(rho, l), bits);
    if x.Some? { ExprAlpha(rho, d, c, x.value.1, x'.value.1, r, bits); }
  }

  lemma ReadAlpha(rho: Renaming, d: Context, c: Context, regs: Registers, regs': Registers, op: Operand)
    requires Assignable(op) && Follows(rho, d, c) && Covers(rho, KeysOp(op)) && RegsMatch(rho, regs, regs')
    ensures KeyOf(op) in rho && KeyOf(RenameOp(rho, op)) == RenameKey(rho, KeyOf(op))
    ensures ReadKey(d, regs, KeyOf(op)) == ReadKey(c, regs', KeyOf(RenameOp(rho, op)))
  {
    assert KeysOp(op)[0] == KeyOf(op);
  }

  lemma SliceAlpha(rho: Renaming, d: Context, c: Context, side: string, regs: Registers, regs': Registers, w: Widths,
      w': Widths, op: Operand, desired: Option<nat>)
    requires op.BitSliceOp?
    requires ResultsMatch(rho, EvalOp(d, side, regs, w, op.base, None),
               EvalOp(c, side, regs', w', RenameOp(rho, op.base), None))
    ensures ResultsMatch(rho, EvalOp(d, side, regs, w, op, desired),
              EvalOp(c, side, regs', w', RenameOp(rho, op), desired))
  {}

  lemma ExtAlpha(rho: Renaming, d: Context, c: Context, side: string, regs: Registers, regs': Registers, w: Widths,
      w': Widths, op: Operand, desired: Option<nat>)
    requires op.ExtOp?
    requires ResultsMatch(rho, EvalOp(d, side, regs, w, op.value, None),
               EvalOp(c, side, regs', w', RenameOp(rho, op.value), None))
    ensures ResultsMatch(rho, EvalOp(d, side, regs, w, op, desired),
              EvalOp(c, side, regs', w', RenameOp(rho, op), desired))
  {}

  /** Operands without placeholders, and those that are never read as one. */
  lemma AtomAlpha(rho: Renaming, d: Context, c: Context, side: string, regs: Registers, regs': Registers, w: Widths,
      w': Widths, op: Operand, desired: Option<nat>)
    requires op.LitOp? || op.LabelOp? || op.RegTextOp? || op.GuestRegViewOp? || op.MemoryOp?
    requires d.literal == c.literal && WidthsMatch(rho, w, w')
    ensures ResultsMatch(rho, EvalOp(d, side, regs, w, op, desired),
              EvalOp(c, side, regs', w', RenameOp(rho, op), desired))
  {}

  lemma {:induction false} OpAlpha(rho: Renaming, d: Context, c: Context, side: string, regs: Registers,
      regs': Registers, w: Widths, w': Widths, op: Operand, desired: Option<nat>)
    requires Injective(rho) && Follows(rho, d, c) && Covers(rho, KeysOp(op)) && RegsMatch(rho, regs, regs')
    requires WidthsMatch(rho, w, w')
    ensures ResultsMatch(rho, EvalOp(d, side, regs, w, op, desired),
              EvalOp(c, side, regs', w', RenameOp(rho, op), desired))
    decreases op
  {
    match op
    case RegOp(_, _, _) => RegisterAlpha(rho, d, c, side, regs, regs', w, w', op, desired);
    case TmpOp(_, _, _) => RegisterAlpha(rho, d, c, side, regs, regs', w, w', op, desired);
    case RegViewOp(_, _) => ViewAlpha(rho, d, c, side, regs, regs', w, w', op, desired);
    case ReadWriteOp(r, x) =>
      CoversSplit(rho, KeysOp(r), KeysOp(x));
      OpAlpha(rho, d, c, side, regs, regs', w, w', r, desired);
    case ImmOp(_, _, _, _) => ImmAlpha(rho, d, c, side, regs, regs', w, w', op, desired);
    case BitSliceOp(b, _) =>
      OpAlpha(rho, d, c, side, regs, regs', w, w', b, None);
      SliceAlpha(rho, d, c, side, regs, regs', w, w', op, desired);
    case ExtOp(_, _, v) =>
      OpAlpha(rho, d, c, side, regs, regs', w, w', v, None);
      ExtAlpha(rho, d, c, side, regs, regs', w, w', op, desired);
    case _ => AtomAlpha(rho, d, c, side, regs, regs', w, w', op, desired);
  }

  lemma RegisterAlpha(rho: Renaming, d: Context, c: Context, side: string, regs: Registers, regs': Registers, w: Widths,
      w': Widths, op: Operand, desired: Option<nat>)
    requires Assignable(op) && Follows(rho, d, c) && Covers(rho, KeysOp(op)) && RegsMatch(rho, regs, regs')
    requires WidthsMatch(rho, w, w')
    ensures ResultsMatch(rho, EvalOp(d, side, regs, w, op, desired),
            EvalOp(c, side, regs', w', RenameOp(rho, op), desired))
  {
    ReadAlpha(rho, d, c, regs, regs', op);
  }

  /** The unspecified high half of a view follows its register's renaming. */
  lemma HighAlpha(rho: Renaming, d: Context, c: Context, side: string, k: Key, base: Bv, viewBits: nat)
    requires Follows(rho, d, c) && k in rho
    ensures ViewOf(d, side, k, base, viewBits) == ViewOf(c, side, RenameKey(rho, k), base, viewBits)
  {}

  lemma ViewAlpha(rho: Renaming, d: Context, c: Context, side: string, regs: Registers, regs': Registers, w: Widths,
      w': Widths, op: Operand, desired: Option<nat>)
    requires op.RegViewOp? && Follows(rho, d, c) && Covers(rho, KeysOp(op)) && RegsMatch(rho, regs, regs')
    requires WidthsMatch(rho, w, w')
    ensures ResultsMatch(rho, EvalOp(d, side, regs, w, op, desired),
              EvalOp(c, side, regs', w', RenameOp(rho, op), desired))
  {
    if Assignable(op.base) {
      ReadAlpha(rho, d, c, regs, regs', op.base);
      ViewRead(d, side, regs, w, op, desired);
      ViewRead(c, side, regs', w', RenameOp(rho, op), desired);
      var value := FitWidth(ReadKey(d, regs, KeyOf(op.base)), Width(op.base.bits));
      HighAlpha(rho, d, c, side, KeyOf(op.base), value, Width(op.viewBits));
    }
  }

  lemma ViewRead(c: Context, side: string, regs: Registers, w: Widths, op: Operand, desired: Option<nat>)
    requires op.RegViewOp? && Assignable(op.base)
    ensures var base := FitWidth(ReadKey(c, regs, KeyOf(op.base)), Width(op.base.bits));
            var view := ViewOf(c, side, KeyOf(op.base), base, Width(op.viewBits));
            EvalOp(c, side, regs, w, op, desired) == Some((FitWidth(view, Or(desired, Width(op.viewBits))), w))
  {}

  lemma DerivedAlpha(rho: Renaming, d: Context, c: Context, side: string, regs: Registers, regs': Registers, w: Widths,
      w': Widths, op: Operand, desired: Option<nat>)
    requires op.ImmOp? && op.derived.Some? && Injective(rho) && Follows(rho, d, c)
    requires Covers(rho, KeysExpr(op.derived.value)) && WidthsMatch(rho, w, w')
    ensures ResultsMatch(rho, EvalOp(d, side, regs, w, op, desired),
              EvalOp(c, side, regs', w', RenameOp(rho, op), desired))
  {
    ExprAlpha(rho, d, c, w, w', op.derived.value, Or(desired, 64));
  }

  lemma PlainAlpha(rho: Renaming, d: Context, c: Context, side: string, regs: Registers, regs': Registers, w: Widths,
      w': Widths, op: Operand, desired: Option<nat>)
    requires op.ImmOp? && op.derived.None? && Injective(rho) && Follows(rho, d, c)
    requires ImmKey(op.id) in rho && WidthsMatch(rho, w, w')
    ensures ResultsMatch(rho, EvalOp(d, side, regs, w, op, desired),
              EvalOp(c, side, regs', w', RenameOp(rho, op), desired))
  {
    ImmediateAlpha(rho, d, c, w, w', op.id, Or(desired, 64));
  }

  lemma ImmAlpha(rho: Renaming, d: Context, c: Context, side: string, regs: Registers, regs': Registers, w: Widths,
      w': Widths, op: Operand, desired: Option<nat>)
    requires op.ImmOp? && Injective(rho) && Follows(rho, d, c) && Covers(rho, KeysOp(op)) && WidthsMatch(rho, w, w')
    ensures ResultsMatch(rho, EvalOp(d, side, regs, w, op, desired),
              EvalOp(c, side, regs', w', RenameOp(rho, op), desired))
  {
    if op.derived.Some? {
      DerivedAlpha(rho, d, c, side, regs, regs', w, w', op, desired);
    } else {
      assert KeysOp(op)[0] == ImmKey(op.id);
      PlainAlpha(rho, d, c, side, regs, regs', w, w', op, desired);
    }
  }

  lemma {:induction false} PartAlpha(rho: Renaming, d: Context, c: Context, side: string, regs: Registers,
      regs': Registers, w: Widths, w': Widths, part: Option<Operand>, bits: nat, acc: Bv, mnemonic: string)
    requires Injective(rho) && Follows(rho, d, c) && Covers(rho, KeysOpt(part)) && RegsMatch(rho, regs, regs')
    requires WidthsMatch(rho, w, w')
    ensures ResultsMatch(rho, EvalPart(d, side, regs, w, part, bits, acc, mnemonic),
                         EvalPart(c, side, regs', w', RenameOpt(rho, part), bits, acc, mnemonic))
  {
    if part.Some? { OpAlpha(rho, d, c, side, regs, regs', w, w', part.value, Some(bits)); }
  }

  lemma CoversAddress(rho: Renaming, a: Address)
    requires Covers(rho, KeysAddress(a))
    ensures Covers(rho, KeysOpt(a.base)) && Covers(rho, KeysOpt(a.index)) && Covers(rho, KeysOpt(a.scale))
    ensures Covers(rho, KeysOpt(a.shift)) && Covers(rho, KeysOpt(a.displacement))
  {
    CoversSplit(rho, KeysOpt(a.base) + KeysOpt(a.index) + KeysOpt(a.scale) + KeysOpt(a.shift), KeysOpt(a.displacement));
    CoversSplit(rho, KeysOpt(a.base) + KeysOpt(a.index) + KeysOpt(a.scale), KeysOpt(a.shift));
    CoversSplit(rho, KeysOpt(a.base) + KeysOpt(a.index), KeysOpt(a.scale));
    CoversSplit(rho, KeysOpt(a.base), KeysOpt(a.index));
  }

  lemma {:induction false} IndexAlpha(rho: Renaming, d: Context, c: Context, side: string, regs: Registers,
      regs': Registers, w: Widths, w': Widths, a: Address, bits: nat)
    requires Injective(rho) && Follows(rho, d, c) && Covers(rho, KeysAddress(a)) && RegsMatch(rho, regs, regs')
    requires WidthsMatch(rho, w, w')
    ensures ResultsMatch(rho, EvalIndex(d, side, regs, w, a, bits),
            EvalIndex(c, side, regs', w', RenameAddress(rho, a), bits))
  {
    CoversAddress(rho, a);
    if a.index.Some? {
      OpAlpha(rho, d, c, side, regs, regs', w, w', a.index.value, Some(bits));
      var x := EvalOp(d, side, regs, w, a.index.value, Some(bits));
      var x' := EvalOp(c, side, regs', w', RenameOp(rho, a.index.value), Some(bits));
      if x.Some? {
        PartAlpha(rho, d, c, side, regs, regs', x.value.1, x'.value.1, a.scale, bits, x.value.0, "mul");
        PartAlpha(rho, d, c, side, regs, regs', x.value.1, x'.value.1, a.shift, bits, x.value.0, "lsl");
      }
    }
  }

  lemma AddIndexAlpha(rho: Renaming, base: Bv, index: Option<(Bv, Widths)>, index': Option<(Bv, Widths)>)
    requires ResultsMatch(rho, index, index')
    ensures ResultsMatch(rho, AddIndex(base, index), AddIndex(base, index'))
  {}

  lemma BaseAlpha(rho: Renaming, d: Context, c: Context, side: string, regs: Registers, regs': Registers, w: Widths,
      w': Widths, a: Address, bits: nat)
    requires Injective(rho) && Follows(rho, d, c) && Covers(rho, KeysAddress(a))
    requires RegsMatch(rho, regs, regs') && WidthsMatch(rho, w, w')
    ensures ResultsMatch(rho, EvalPart(d, side, regs, w, a.base, bits, Bv(bits, 0), "add"),
      EvalPart(c, side, regs', w', RenameAddress(rho, a).base, bits, Bv(bits, 0), "add"))
  {
    CoversAddress(rho, a);
    PartAlpha(rho, d, c, side, regs, regs', w, w', a.base, bits, Bv(bits, 0), "add");
  }

  lemma BaseIndexAlpha(rho: Renaming, d: Context, c: Context, side: string, regs: Registers, regs': Registers,
      w: Widths, w': Widths, a: Address, bits: nat)
    requires Injective(rho) && Follows(rho, d, c) && Covers(rho, KeysAddress(a))
    requires RegsMatch(rho, regs, regs') && WidthsMatch(rho, w, w')
    ensures ResultsMatch(rho, EvalBaseIndex(d, side, regs, w, a, bits),
      EvalBaseIndex(c, side, regs', w', RenameAddress(rho, a), bits))
  {
    var a' := RenameAddress(rho, a);
    BaseAlpha(rho, d, c, side, regs, regs', w, w', a, bits);
    var base := EvalPart(d, side, regs, w, a.base, bits, Bv(bits, 0), "add");
    var base' := EvalPart(c, side, regs', w', a'.base, bits, Bv(bits, 0), "add");
    if base.Some? {
      var more, more' := base.value.1, base'.value.1;
      IndexAlpha(rho, d, c, side, regs, regs', more, more', a, bits);
      AddIndexAlpha(rho, base.value.0, EvalIndex(d, side, regs, more, a, bits),
          EvalIndex(c, side, regs', more', a', bits));
    }
  }

  lemma FittedAlpha(rho: Renaming, x: Option<(Bv, Widths)>, x': Option<(Bv, Widths)>, bits: nat)
    requires ResultsMatch(rho, x, x')
    ensures ResultsMatch(rho, Fitted(x, bits), Fitted(x', bits))
  {}

  lemma DisplacementAlpha(rho: Renaming, d: Context, c: Context, side: string, regs: Registers, regs': Registers,
      w: Widths, w': Widths, a: Address, bits: nat, total: Bv)
    requires Injective(rho) && Follows(rho, d, c) && Covers(rho, KeysAddress(a))
    requires RegsMatch(rho, regs, regs') && WidthsMatch(rho, w, w')
    ensures ResultsMatch(rho, EvalPart(d, side, regs, w, a.displacement, bits, total, "add"),
              EvalPart(c, side, regs', w', RenameAddress(rho, a).displacement, bits, total, "add"))
  {
    CoversAddress(rho, a);
    PartAlpha(rho, d, c, side, regs, regs', w, w', a.displacement, bits, total, "add");
  }

  lemma AddressAlpha(rho: Renaming, d: Context, c: Context, side: string, regs: Registers, regs': Registers, w: Widths,
      w': Widths, op: Operand, bits: nat)
    requires Injective(rho) && Follows(rho, d, c) && Covers(rho, KeysOp(op)) && RegsMatch(rho, regs, regs')
    requires WidthsMatch(rho, w, w')
    ensures ResultsMatch(rho, EvalAddress(d, side, regs, w, op, bits),
              EvalAddress(c, side, regs', w', RenameOp(rho, op), bits))
  {
    if op.MemoryOp? {
      var a, a' := op.address, RenameAddress(rho, op.address);
      BaseIndexAlpha(rho, d, c, side, regs, regs', w, w', a, bits);
      var total := EvalBaseIndex(d, side, regs, w, a, bits);
      var total' := EvalBaseIndex(c, side, regs', w', a', bits);
      FittedAlpha(rho, total, total', bits);
      if total.Some? {
        var v, v', t := total.value.1, total'.value.1, total.value.0;
        DisplacementAlpha(rho, d, c, side, regs, regs', v, v', a, bits, t);
        FittedAlpha(rho, EvalPart(d, side, regs, v, a.displacement, bits, t, "add"),
          EvalPart(c, side, regs', v', a'.displacement, bits, t, "add"), bits);
      }
    }
  }

  ghost predicate StatesMatch(rho: Renaming, st: Option<State>, st': Option<State>) {
    (st.Some? <==> st'.Some?)
    && (st.Some? ==> RegsMatch(rho, st.value.regs, st'.value.regs))
    && (st.Some? ==> WidthsMatch(rho, st.value.widths, st'.value.widths))
  }

  lemma DestinationAlpha(rho: Renaming, dst: Operand)
    requires Covers(rho, KeysOp(dst))
    ensures Destination(dst).Some? <==> Destination(RenameOp(rho, dst)).Some?
    ensures Destination(dst).Some? ==>
              Destination(dst).value in rho
                  && Destination(RenameOp(rho, dst)).value == RenameKey(rho, Destination(dst).value)
  {
    if Assignable(dst) {
      assert KeysOp(dst)[0] == KeyOf(dst);
    } else if dst.ReadWriteOp? && Assignable(dst.write) {
      CoversSplit(rho, KeysOp(dst.read), KeysOp(dst.write));
      assert KeysOp(dst.write)[0] == KeyOf(dst.write);
    }
  }

  lemma AssignRegsAlpha(rho: Renaming, regs: Registers, regs': Registers, k: Key, v: Bv)
    requires Injective(rho) && k in rho && RegsMatch(rho, regs, regs')
    ensures RegsMatch(rho, regs[k := v], regs'[RenameKey(rho, k) := v])
  {
    var more, more' := regs[k := v], regs'[RenameKey(rho, k) := v];
    forall k' | k' in more' ensures exists j :: j in rho && j in more && RenameKey(rho, j) == k' {
      if k' == RenameKey(rho, k) { assert k in more; } else {
        var j :| j in rho && j in regs && RenameKey(rho, j) == k';
        assert j in more;
      }
    }
  }

  lemma AssignAlpha(rho: Renaming, st: State, st': State, dst: Operand, x: Option<(Bv, Widths)>,
      x': Option<(Bv, Widths)>)
    requires Injective(rho) && Covers(rho, KeysOp(dst)) && StatesMatch(rho, Some(st), Some(st'))
    requires ResultsMatch(rho, x, x')
    ensures StatesMatch(rho, Assign(st, dst, x), Assign(st', RenameOp(rho, dst), x'))
  {
    DestinationAlpha(rho, dst);
    if x.Some? && Destination(dst).Some? {
      var k := Destination(dst).value;
      AssignRegsAlpha(rho, st.regs, st'.regs, k, FitWidth(x.value.0, Width(k.bits)));
    }
  }

  lemma {:induction false} CoversOps(rho: Renaming, ops: seq<Operand>, i: nat)
    requires Covers(rho, KeysOps(ops)) && i < |ops|
    ensures Covers(rho, KeysOp(ops[i]))
  {
    CoversSplit(rho, KeysOp(ops[0]), KeysOps(ops[1..]));
    if i > 0 { CoversOps(rho, ops[1..], i - 1); }
  }

  lemma CoversSources(rho: Renaming, ops: seq<Operand>)
    requires Covers(rho, KeysOps(ops)) && FirstSource(ops).Some?
    ensures Covers(rho, KeysOp(FirstSource(ops).value)) && Covers(rho, KeysOp(ops[|ops| - 1]))
    ensures FirstSource(RenameOps(rho, ops)) == Some(RenameOp(rho, FirstSource(ops).value))
  {
    CoversOps(rho, ops, if |ops| == 2 then 0 else 1);
    CoversOps(rho, ops, |ops| - 1);
  }

  lemma OperateAlpha(rho: Renaming, mnemonic: string, x: Bv, y: Option<(Bv, Widths)>, y': Option<(Bv, Widths)>)
    requires ResultsMatch(rho, y, y')
    ensures ResultsMatch(rho, Operate(mnemonic, x, y), Operate(mnemonic, x, y'))
  {}

  lemma SecondAlpha(rho: Renaming, d: Context, c: Context, side: string, regs: Registers, regs': Registers,
      mnemonic: string, x: (Bv, Widths), x': (Bv, Widths), last: Operand)
    requires Injective(rho) && Follows(rho, d, c) && Covers(rho, KeysOp(last)) && RegsMatch(rho, regs, regs')
    requires ResultsMatch(rho, Some(x), Some(x'))
    ensures ResultsMatch(rho, WithSecond(d, side, regs, mnemonic, x, last),
              WithSecond(c, side, regs', mnemonic, x', RenameOp(rho, last)))
  {
    var bits := Some(x.0.width);
    OpAlpha(rho, d, c, side, regs, regs', x.1, x'.1, last, bits);
    OperateAlpha(rho, mnemonic, x.0, EvalOp(d, side, regs, x.1, last, bits),
      EvalOp(c, side, regs', x'.1, RenameOp(rho, last), bits));
  }

  lemma BinaryAlpha(rho: Renaming, d: Context, c: Context, side: string, st: State, st': State, mnemonic: string,
      ops: seq<Operand>)
    requires Injective(rho) && Follows(rho, d, c) && Covers(rho, KeysOps(ops)) && StatesMatch(rho, Some(st), Some(st'))
    ensures ResultsMatch(rho, EvalBinary(d, side, st, mnemonic, ops),
              EvalBinary(c, side, st', mnemonic, RenameOps(rho, ops)))
  {
    if FirstSource(ops).Some? {
      var s, last := FirstSource(ops).value, ops[|ops| - 1];
      CoversSources(rho, ops);
      OpAlpha(rho, d, c, side, st.regs, st'.regs, st.widths, st'.widths, s, None);
      var x := EvalOp(d, side, st.regs, st.widths, s, None);
      var x' := EvalOp(c, side, st'.regs, st'.widths, RenameOp(rho, s), None);
      if x.Some? { SecondAlpha(rho, d, c, side, st.regs, st'.regs, mnemonic, x.value, x'.value, last); }
    }
  }

  lemma MoveAlpha(rho: Renaming, d: Context, c: Context, side: string, st: State, st': State, dst: Operand,
      src: Operand)
    requires Injective(rho) && Follows(rho, d, c) && Covers(rho, KeysOp(dst)) && Covers(rho, KeysOp(src))
    requires StatesMatch(rho, Some(st), Some(st'))
    ensures StatesMatch(rho, Assign(st, dst, EvalOp(d, side, st.regs, st.widths, src, None)),
                        Assign(st', RenameOp(rho, dst),
                            EvalOp(c, side, st'.regs, st'.widths, RenameOp(rho, src), None)))
  {
    OpAlpha(rho, d, c, side, st.regs, st'.regs, st.widths, st'.widths, src, None);
    AssignAlpha(rho, st, st', dst, EvalOp(d, side, st.regs, st.widths, src, None),
                EvalOp(c, side, st'.regs, st'.widths, RenameOp(rho, src), None));
  }

  lemma LeaAlpha(rho: Renaming, d: Context, c: Context, side: string, st: State, st': State, dst: Operand, src: Operand)
    requires Injective(rho) && Follows(rho, d, c) && Covers(rho, KeysOp(dst)) && Covers(rho, KeysOp(src))
    requires StatesMatch(rho, Some(st), Some(st'))
    requires Destination(dst).Some?
    ensures var bits := Width(Destination(dst).value.bits);
            StatesMatch(rho, Assign(st, dst, EvalAddress(d, side, st.regs, st.widths, src, bits)),
                        Assign(st', RenameOp(rho, dst),
                            EvalAddress(c, side, st'.regs, st'.widths, RenameOp(rho, src), bits)))
  {
    var bits := Width(Destination(dst).value.bits);
    AddressAlpha(rho, d, c, side, st.regs, st'.regs, st.widths, st'.widths, src, bits);
    AssignAlpha(rho, st, st', dst, EvalAddress(d, side, st.regs, st.widths, src, bits),
                EvalAddress(c, side, st'.regs, st'.widths, RenameOp(rho, src), bits));
  }

  lemma {:induction false} InstAlpha(rho: Renaming, d: Context, c: Context, side: string, st: State, st': State,
      inst: Instruction)
    requires Injective(rho) && Follows(rho, d, c) && Covers(rho, KeysInst(inst))
    requires StatesMatch(rho, Some(st), Some(st'))
    ensures StatesMatch(rho, EvalInst(d, side, st, inst), EvalInst(c, side, st', RenameInst(rho, inst)))
  {
    CoversSplit(rho, KeysMetas(inst.meta) + KeysOps(inst.operands), KeysMetas(inst.postMeta));
    CoversSplit(rho, KeysMetas(inst.meta), KeysOps(inst.operands));
    var ops, m := inst.operands, Lower(inst.mnemonic);
    assert |RenameMetas(rho, inst.meta)| == |inst.meta| && |RenameMetas(rho, inst.postMeta)| == |inst.postMeta|;
    if inst.meta == [] && inst.postMeta == [] && |ops| >= 2 {
      CoversOps(rho, ops, 0);
      CoversOps(rho, ops, 1);
      if m == "mov" || m == "movzx" {
        MoveAlpha(rho, d, c, side, st, st', ops[0], ops[1]);
      } else if m == "lea" {
        DestinationAlpha(rho, ops[0]);
        if Destination(ops[0]).Some? { LeaAlpha(rho, d, c, side, st, st', ops[0], ops[1]); }
      } else if m in BINARY {
        BinaryAlpha(rho, d, c, side, st, st', m, ops);
        AssignAlpha(rho, st, st', ops[0], EvalBinary(d, side, st, m, ops),
                    EvalBinary(c, side, st', m, RenameOps(rho, ops)));
      }
    }
  }

  lemma {:induction false} InstsAlpha(rho: Renaming, d: Context, c: Context, side: string, st: State, st': State,
      insts: seq<Instruction>)
    requires Injective(rho) && Follows(rho, d, c) && Covers(rho, KeysInsts(insts))
    requires StatesMatch(rho, Some(st), Some(st'))
    ensures StatesMatch(rho, EvalInsts(d, side, st, insts), EvalInsts(c, side, st', RenameInsts(rho, insts)))
    decreases |insts|
  {
    if insts != [] {
      CoversSplit(rho, KeysInst(insts[0]), KeysInsts(insts[1..]));
      InstAlpha(rho, d, c, side, st, st', insts[0]);
      var next, next' := EvalInst(d, side, st, insts[0]), EvalInst(c, side, st', RenameInst(rho, insts[0]));
      assert RenameInsts(rho, insts)[1..] == RenameInsts(rho, insts[1..]);
      if next.Some? { InstsAlpha(rho, d, c, side, next.value, next'.value, insts[1..]); }
    }
  }

  lemma AgreeAlpha(rho: Renaming, guest: Registers, guest': Registers, host: Registers, host': Registers)
    requires Injective(rho) && RegsMatch(rho, guest, guest') && RegsMatch(rho, host, host') && Agree(guest, host)
    requires forall k :: k in guest ==> k in rho
    ensures Agree(guest', host')
  {
    var k :| k in guest && k in host;
    assert RenameKey(rho, k) in guest' && RenameKey(rho, k) in host';
    forall k' | k' in guest' && k' in host' ensures guest'[k'].value == host'[k'].value {
      var i :| i in rho && i in guest && RenameKey(rho, i) == k';
      var j :| j in rho && j in host && RenameKey(rho, j) == k';
    }
  }

  lemma AssignedCovered(rho: Renaming, c: Context, side: string, st: State, insts: seq<Instruction>)
    requires Covers(rho, KeysInsts(insts)) && forall k :: k in st.regs ==> k in rho
    ensures var next := EvalInsts(c, side, st, insts);
            next.Some? ==> forall k :: k in next.value.regs ==> k in rho
    decreases |insts|
  {
    if insts != [] {
      CoversSplit(rho, KeysInst(insts[0]), KeysInsts(insts[1..]));
      var inst := insts[0];
      CoversSplit(rho, KeysMetas(inst.meta) + KeysOps(inst.operands), KeysMetas(inst.postMeta));
      CoversSplit(rho, KeysMetas(inst.meta), KeysOps(inst.operands));
      var next := EvalInst(c, side, st, inst);
      if next.Some? {
        CoversOps(rho, inst.operands, 0);
        DestinationAlpha(rho, inst.operands[0]);
        AssignedCovered(rho, c, side, next.value, insts[1..]);
      }
    }
  }

  /** One side of a rule, run from no written register. */
  lemma SideAlpha(rho: Renaming, d: Context, c: Context, side: string, w: Widths, w': Widths, insts: seq<Instruction>)
    requires Injective(rho) && Follows(rho, d, c) && Covers(rho, KeysInsts(insts)) && WidthsMatch(rho, w, w')
    ensures var st := EvalInsts(d, side, State(map[], w), insts);
            && StatesMatch(rho, st, EvalInsts(c, side, State(map[], w'), RenameInsts(rho, insts)))
            && (st.Some? ==> forall k :: k in st.value.regs ==> k in rho)
  {
    InstsAlpha(rho, d, c, side, State(map[], w), State(map[], w'), insts);
    AssignedCovered(rho, d, side, State(map[], w), insts);
  }

  /** What a rule's evaluation is made of. */
  lemma RuleSides(c: Context, r: Rule, guest: State, host: State)
    requires EvalInsts(c, "guest", State(map[], map[]), r.guest) == Some(guest)
    requires EvalInsts(c, "host", State(map[], guest.widths), r.host) == Some(host)
    ensures EvalRule(c, r) == Some((guest.regs, host.regs))
  {}

  lemma RuleAlpha(rho: Renaming, d: Context, c: Context, a: Rule, b: Rule)
    requires Renames(rho, a, b) && Follows(rho, d, c)
    requires var result := EvalRule(d, a); result.Some? && Agree(result.value.0, result.value.1)
    ensures var result := EvalRule(c, b); result.Some? && Agree(result.value.0, result.value.1)
  {
    CoversSplit(rho, KeysInsts(a.guest), KeysInsts(a.host));
    SideAlpha(rho, d, c, "guest", map[], map[], a.guest);
    var guest := EvalInsts(d, "guest", State(map[], map[]), a.guest).value;
    var guest' := EvalInsts(c, "guest", State(map[], map[]), b.guest).value;
    SideAlpha(rho, d, c, "host", guest.widths, guest'.widths, a.host);
    var host := EvalInsts(d, "host", State(map[], guest.widths), a.host).value;
    var host' := EvalInsts(c, "host", State(map[], guest'.widths), b.host).value;
    RuleSides(d, a, guest, host);
    RuleSides(c, b, guest', host');
    AgreeAlpha(rho, guest.regs, guest'.regs, host.regs, host'.regs);
  }

  lemma PassesRenamed(rho: Renaming, before: Domains, after: Domains, literal: string -> Option<int>, a: Rule, b: Rule)
    requires Renames(rho, a, b) && DomainsFollow(rho, before, after) && Passes(before, literal, a)
    ensures Passes(after, literal, b)
  {
    forall vals: Valuation | InDomains(vals, after)
      ensures var result := EvalRule(Context(after, literal, vals), b);
              result.Some? && Agree(result.value.0, result.value.1)
    {
      PullFollows(rho, before, after, literal, vals);
      RuleAlpha(rho, Context(before, literal, Pull(rho, before, vals)), Context(after, literal, vals), a, b);
    }
  }

  lemma DomainsFollowBack(rho: Renaming, before: Domains, after: Domains)
    requires Injective(rho) && DomainsFollow(rho, before, after)
    ensures DomainsFollow(Inverse(rho), after, before)
  {
    var inv := Inverse(rho);
    forall id | ImmKey(id) in inv ensures after(id) == before(NewId(inv, ImmKey(id))) {
      var k :| k in rho && ImmKey(id) == RenameKey(rho, k);
      assert k == ImmKey(k.id) && inv[RenameKey(rho, k)] == k.id;
    }
  }

  /** A renamed rule gets the same verdict when every immediate keeps its domain. */
  lemma PassesAlpha(rho: Renaming, before: Domains, after: Domains, literal: string -> Option<int>, a: Rule, b: Rule)
    requires Renames(rho, a, b) && DomainsFollow(rho, before, after)
    ensures Passes(before, literal, a) <==> Passes(after, literal, b)
  {
    if Passes(before, literal, a) { PassesRenamed(rho, before, after, literal, a, b); }
    if Passes(after, literal, b) {
      InverseRenames(rho, a, b);
      DomainsFollowBack(rho, before, after);
      PassesRenamed(Inverse(rho), after, before, literal, b, a);
    }
  }

  /** The same for two requests, whose domains are named by the immediates of their rules. */
  lemma RequestPassesAlpha(rho: Renaming, given: map<int, seq<int>>, given': map<int, seq<int>>,
      literal: string -> Option<int>, a: Rule, b: Rule)
    requires Renames(rho, a, b)
    requires forall id :: ImmKey(id) in rho ==> (id in given <==> NewId(rho, ImmKey(id)) in given')
    requires forall id :: ImmKey(id) in rho && id in given ==> given[id] == given'[NewId(rho, ImmKey(id))]
    ensures Passes(RequestDomains(given), literal, a) <==> Passes(RequestDomains(given'), literal, b)
  {
    PassesAlpha(rho, RequestDomains(given), RequestDomains(given'), literal, a, b);
  }
}
