/**
 When the derivation strategies apply, said about spellings, parts of addresses and bits; the strategies are proved to
 apply exactly then.
 */
module DerivationRules {
  import opened Wrappers
  import opened RuleAst
  import opened Semantics
  import opened OperatorLaws
  import opened InstructionLaws
  import opened ImmText
  import opened Derivation

  type Context = Derivation.Context

  // ---- mnemonics ----

  const SPACES := " \t\n\U{0B}\U{0C}\r\U{1C}\U{1D}\U{1E}\U{1F}"

  ghost predicate Blank(s: string) { forall i :: 0 <= i < |s| ==> s[i] in SPACES }

  /** The name in letters of either case. */
  ghost predicate InAnyCase(s: string, name: string) {
    |s| == |name| && forall i :: 0 <= i < |s| ==> Folds(s[i], name[i])
  }

  /** The mnemonic is the name in any case, with white space around it. */
  ghost predicate Spelled(mnemonic: string, name: string) {
    exists before, core, after ::
      mnemonic == before + core + after && Blank(before) && Blank(after) && InAnyCase(core, name)
  }

  predicate IsWord(name: string) { name != "" && forall i :: 0 <= i < |name| ==> 'a' <= name[i] <= 'z' }

  lemma SpacesAre(c: char)
    ensures IsSpace(c) <==> c in SPACES
  {
    assert SPACES[0] == ' ' && SPACES[1] == '\t' && SPACES[2] == '\n' && SPACES[3] == '\U{0B}';
    assert SPACES[4] == '\U{0C}' && SPACES[5] == '\r' && SPACES[6] == '\U{1C}' && SPACES[7] == '\U{1D}';
    assert SPACES[8] == '\U{1E}' && SPACES[9] == '\U{1F}';
  }

  lemma {:induction false} TrimLeftBlank(before: string, s: string)
    requires Blank(before) && s != "" && !IsSpace(s[0])
    ensures TrimLeft(before + s) == s
  {
    if before == "" {
      assert before + s == s;
    } else {
      SpacesAre(before[0]);
      assert (before + s)[1..] == before[1..] + s;
      TrimLeftBlank(before[1..], s);
    }
  }

  lemma {:induction false} TrimRightBlank(s: string, after: string)
    requires Blank(after) && s != "" && !IsSpace(s[|s| - 1])
    ensures TrimRight(s + after) == s
    decreases |after|
  {
    if after == "" {
      assert s + after == s;
    } else {
      SpacesAre(after[|after| - 1]);
      assert (s + after)[..|s + after| - 1] == s + after[..|after| - 1];
      TrimRightBlank(s, after[..|after| - 1]);
    }
  }

  lemma StripBlank(before: string, core: string, after: string)
    requires Blank(before) && Blank(after) && core != "" && !IsSpace(core[0]) && !IsSpace(core[|core| - 1])
    ensures Strip(before + core + after) == core
  {
    assert before + core + after == before + (core + after) && (core + after)[0] == core[0];
    TrimLeftBlank(before, core + after);
    TrimRightBlank(core, after);
  }

  lemma {:induction false} TrimLeftIs(s: string) returns (before: string)
    ensures Blank(before) && s == before + TrimLeft(s)
  {
    before := "";
    if s != "" && IsSpace(s[0]) {
      SpacesAre(s[0]);
      var rest := TrimLeftIs(s[1..]);
      before := [s[0]] + rest;
      assert s == [s[0]] + s[1..];
    }
  }

  lemma {:induction false} TrimRightIs(s: string) returns (after: string)
    ensures Blank(after) && s == TrimRight(s) + after
  {
    after := "";
    if s != "" && IsSpace(s[|s| - 1]) {
      SpacesAre(s[|s| - 1]);
      var rest := TrimRightIs(s[..|s| - 1]);
      after := rest + [s[|s| - 1]];
      assert s == s[..|s| - 1] + [s[|s| - 1]];
    }
  }

  lemma LowerIff(s: string, name: string)
    requires IsWord(name)
    ensures Lower(s) == name <==> InAnyCase(s, name)
    ensures InAnyCase(s, name) ==> forall i :: 0 <= i < |s| ==> !IsSpace(s[i])
  {
    LettersInOrder();
    forall i | 0 <= i < |s| ensures Folds(s[i], Lower(s)[i]) { LowerFolds(s, i); }
    if InAnyCase(s, name) {
      forall i | 0 <= i < |s| ensures Lower(s)[i] == name[i] && !IsSpace(s[i]) {
        FoldsOnce(s[i], Lower(s)[i], name[i]);
      }
    }
  }

  lemma FoldsOnce(c: char, d: char, e: char)
    requires Folds(c, d) && Folds(c, e) && 'a' <= e <= 'z'
    ensures d == e && !IsSpace(c)
  {
    LettersInOrder();
    if i :| 0 <= i < |UPPER| && c == UPPER[i] && d == LOWER[i] { assert c in UPPER; }
  }

  /** The strategies compare mnemonics without white space and case. */
  lemma SpelledIff(mnemonic: string, name: string)
    requires IsWord(name)
    ensures Name(mnemonic) == name <==> Spelled(mnemonic, name)
  {
    if Name(mnemonic) == name {
      var before := TrimLeftIs(mnemonic);
      var after := TrimRightIs(TrimLeft(mnemonic));
      LowerIff(Strip(mnemonic), name);
      assert mnemonic == before + Strip(mnemonic) + after;
    }
    if before, core, after :|
      mnemonic == before + core + after && Blank(before) && Blank(after) && InAnyCase(core, name) {
      LowerIff(core, name);
      StripBlank(before, core, after);
    }
  }

  // ---- bits ----

  /** Equal bits everywhere mean equal integers. */
  lemma {:induction false} IntegerBits(a: int, b: int)
    requires forall k :: BitAt(a, k) == BitAt(b, k)
    ensures a == b
    decreases Magnitude(a) + Magnitude(b)
  {
    assert BitAt(a, 0) == BitAt(b, 0);
    forall k: nat ensures BitAt(a / 2, k) == BitAt(b / 2, k) { assert BitAt(a, k + 1) == BitAt(b, k + 1); }
    if (a == 0 || a == -1) && (b == 0 || b == -1) {
      BitsOfConstant(0);
    } else {
      IntegerBits(a / 2, b / 2);
    }
  }

  /** Each bit of the integer is the or of the bits at its place. */
  ghost predicate IsOr(a: int, b: int, r: int) {
    forall k :: BitAt(r, k) == 1 <==> BitAt(a, k) == 1 || BitAt(b, k) == 1
  }

  lemma IsOrIff(a: int, b: int, r: int)
    ensures OrInt(a, b) == r <==> IsOr(a, b, r)
  {
    forall k: nat ensures BitAt(OrInt(a, b), k) == 1 <==> BitAt(a, k) == 1 || BitAt(b, k) == 1 { OrIntBits(a, b, k); }
    if IsOr(a, b, r) {
      forall k: nat ensures BitAt(OrInt(a, b), k) == BitAt(r, k) {
        BitAtIsBit(OrInt(a, b), k);
        BitAtIsBit(r, k);
      }
      IntegerBits(OrInt(a, b), r);
    }
  }

  // ---- where strategies apply ----

  /** The operand is the placeholder of an immediate recorded with this value. */
  ghost predicate Records(c: Context, op: Operand, v: int) {
    op.ImmOp? && op.id != 0 && op.id in c.values && c.values[op.id] == v
  }

  /** The guest tests the one bit that is set in the mask. */
  ghost predicate MaskOfTest(c: Context, mask: int) {
    exists i ::
      && 0 <= i < |c.guest| && |c.guest[i].operands| >= 2
      && (Spelled(c.guest[i].mnemonic, "tbz") || Spelled(c.guest[i].mnemonic, "tbnz"))
      && TestsMask(c, c.guest[i].operands[1], mask)
  }

  ghost predicate TestsMask(c: Context, op: Operand, mask: int) {
    || (exists v: nat :: Records(c, op, v) && mask == Pow2(v))
    || ((op == LitOp("0") || op == LitOp("#0")) && mask == 1)
  }

  /** A guest move and a move-keep into one register leave the constant there. */
  ghost predicate MovedConstant(c: Context, constant: int) {
    exists i, j :: 0 <= i < |c.guest| && 0 <= j < |c.guest| && MovesTo(c, c.guest[i], c.guest[j], constant)
  }

  ghost predicate MovesTo(c: Context, mov: Instruction, movk: Instruction, constant: int) {
    && Spelled(mov.mnemonic, "mov") && |mov.operands| >= 2 && Spelled(movk.mnemonic, "movk") && |movk.operands| >= 3
    && c.text(mov.operands[0]) == c.text(movk.operands[0])
    && exists low, high, shift: nat ::
         && Records(c, mov.operands[1], low) && Records(c, movk.operands[1], high)
         && Records(c, movk.operands[2], shift) && IsOr(high * Pow2(shift), low, constant)
  }

  /** Some guest memory operand shifts its index by the logarithm of the scale. */
  ghost predicate ScaleOfShift(c: Context, scale: int) {
    exists i, k :: 0 <= i < |c.guest| && 0 <= k < |c.guest[i].operands| && ShiftedBy(c, c.guest[i].operands[k], scale)
  }

  ghost predicate ShiftedBy(c: Context, op: Operand, scale: int) {
    && op.MemoryOp? && op.address.shift.Some?
    && exists v: nat :: Records(c, op.address.shift.value, v) && scale == Pow2(v)
  }

  /** Some guest memory operand scales its index by two to the shift. */
  ghost predicate ShiftOfScale(c: Context, shift: int) {
    exists i, k :: 0 <= i < |c.guest| && 0 <= k < |c.guest[i].operands| && ScaledBy(c, c.guest[i].operands[k], shift)
  }

  ghost predicate ScaledBy(c: Context, op: Operand, shift: int) {
    op.MemoryOp? && op.address.scale.Some? && shift >= 0 && Records(c, op.address.scale.value, Pow2(shift))
  }

  /** Some strategy of the architecture pair applies to the immediate where it stands. */
  ghost predicate Applicable(c: Context, id: int, mnemonic: string, role: Role) {
    id in c.values &&
    match c.pair
    case AArch64ToX86 =>
      || (Spelled(mnemonic, "and") && MaskOfTest(c, c.values[id]))
      || ((Spelled(mnemonic, "mov") || Spelled(mnemonic, "movabs")) && MovedConstant(c, c.values[id]))
      || (role == ScaleRole && ScaleOfShift(c, c.values[id]))
    case X86ToAArch64 => role == ShiftRole && ShiftOfScale(c, c.values[id])
    case OtherPair => false
  }

  lemma TestsIff(c: Context, inst: Instruction, mask: int)
    ensures TestsBit(c, inst, mask) <==>
            && |inst.operands| >= 2 && (Spelled(inst.mnemonic, "tbz") || Spelled(inst.mnemonic, "tbnz"))
            && TestsMask(c, inst.operands[1], mask)
  {
    SpelledIff(inst.mnemonic, "tbz");
    SpelledIff(inst.mnemonic, "tbnz");
    if |inst.operands| >= 2 && PlainImm(inst.operands[1]) {
      var op := inst.operands[1];
      if PowerOf(c, op.id, mask) { assert Records(c, op, c.values[op.id] as nat); }
    }
  }

  lemma MovesIff(c: Context, mov: Instruction, movk: Instruction, constant: int)
    ensures Builds(c, mov, movk, constant) <==> MovesTo(c, mov, movk, constant)
  {
    SpelledIff(mov.mnemonic, "mov");
    SpelledIff(movk.mnemonic, "movk");
    if Pair(c, mov, movk) {
      var low, high, shift := c.values[mov.operands[1].id], c.values[movk.operands[1].id],
        c.values[movk.operands[2].id];
      assert Records(c, mov.operands[1], low) && Records(c, movk.operands[1], high);
      if shift >= 0 {
        assert Records(c, movk.operands[2], shift as nat);
        IsOrIff(high * Pow2(shift), low, constant);
      }
    }
  }

  lemma ShiftedIff(c: Context, op: Operand, scale: int)
    ensures ShiftsTo(c, op, scale) <==> ShiftedBy(c, op, scale)
  {
    if op.MemoryOp? && op.address.shift.Some? {
      var part := op.address.shift.value;
      if PlainImm(part) && PowerOf(c, part.id, scale) { assert Records(c, part, c.values[part.id] as nat); }
    }
  }

  lemma ScaledIff(c: Context, op: Operand, shift: int)
    ensures ScalesTo(c, op, shift) <==> ScaledBy(c, op, shift)
  {}

  /** A strategy is found to apply exactly when one does. */
  lemma DerivableIff(c: Context, id: int, mnemonic: string, role: Role)
    ensures Derivable(c, id, mnemonic, role) <==> Applicable(c, id, mnemonic, role)
  {
    if id in c.values {
      var target := c.values[id];
      SpelledIff(mnemonic, "and");
      SpelledIff(mnemonic, "mov");
      SpelledIff(mnemonic, "movabs");
      AnyTestIff(c, target);
      AnyMoveIff(c, target);
      AnyScaleIff(c, target);
    }
  }

  lemma AnyScaleIff(c: Context, target: int)
    ensures (exists i, k :: 0 <= i < |c.guest| && 0 <= k < |c.guest[i].operands|
                            && ShiftsTo(c, c.guest[i].operands[k], target)) <==> ScaleOfShift(c, target)
    ensures (exists i, k :: 0 <= i < |c.guest| && 0 <= k < |c.guest[i].operands|
                            && ScalesTo(c, c.guest[i].operands[k], target)) <==> ShiftOfScale(c, target)
  {
    forall op ensures ShiftsTo(c, op, target) <==> ShiftedBy(c, op, target) { ShiftedIff(c, op, target); }
    forall op ensures ScalesTo(c, op, target) <==> ScaledBy(c, op, target) { ScaledIff(c, op, target); }
  }

  lemma AnyTestIff(c: Context, mask: int)
    ensures (exists i :: 0 <= i < |c.guest| && TestsBit(c, c.guest[i], mask)) <==> MaskOfTest(c, mask)
  {
    forall i | 0 <= i < |c.guest|
      ensures TestsBit(c, c.guest[i], mask) <==>
              && |c.guest[i].operands| >= 2
              && (Spelled(c.guest[i].mnemonic, "tbz") || Spelled(c.guest[i].mnemonic, "tbnz"))
              && TestsMask(c, c.guest[i].operands[1], mask)
    {
      TestsIff(c, c.guest[i], mask);
    }
  }

  lemma AnyMoveIff(c: Context, constant: int)
    ensures (exists i :: 0 <= i < |c.guest| && BuiltFrom(c, i, constant)) <==> MovedConstant(c, constant)
  {
    forall i, j | 0 <= i < |c.guest| && 0 <= j < |c.guest|
      ensures Builds(c, c.guest[i], c.guest[j], constant) <==> MovesTo(c, c.guest[i], c.guest[j], constant)
    {
      MovesIff(c, c.guest[i], c.guest[j], constant);
    }
    if MovedConstant(c, constant) {
      var i, j :| 0 <= i < |c.guest| && 0 <= j < |c.guest| && MovesTo(c, c.guest[i], c.guest[j], constant);
      assert BuiltFrom(c, i, constant);
    }
  }
}
