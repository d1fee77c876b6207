/** Reading instruction lines back, with save and restore lines attached to their instructions. */
module SequenceText {
  import opened Wrappers
  import opened RuleAst
  import opened Semantics

  /** A line once its mnemonic and operands are read. */
  datatype Line = Line(mnemonic: string, operands: seq<Operand>)

  // ---- printing ----

  function MetaLine(m: MetaOp): Line { Line(if m.kind.Save? then "save" else "restore", m.regs) }

  function MetaLines(ms: seq<MetaOp>): seq<Line> {
    if ms == [] then [] else [MetaLine(ms[0])] + MetaLines(ms[1..])
  }

  function InstLines(i: Instruction): seq<Line> {
    MetaLines(i.meta) + [Line(i.mnemonic, i.operands)] + MetaLines(i.postMeta)
  }

  function AllLines(insts: seq<Instruction>): seq<Line> {
    if insts == [] then [] else InstLines(insts[0]) + AllLines(insts[1..])
  }

  // ---- parsing ----

  /** Instructions read so far, and saves waiting for theirs. */
  datatype Progress = Progress(result: seq<Instruction>, pending: seq<MetaOp>)

  function WithRestore(i: Instruction, regs: seq<Operand>): Instruction {
    i.(postMeta := i.postMeta + [MetaOp(Restore, regs)])
  }

  function Step(p: Progress, line: Line): Option<Progress> {
    if Lower(line.mnemonic) == "save" then
      if line.operands == [] then None else Some(p.(pending := p.pending + [MetaOp(Save, line.operands)]))
    else if Lower(line.mnemonic) == "restore" then
      if p.pending != [] || p.result == [] || line.operands == [] then None
      else Some(Progress(p.result[..|p.result| - 1] + [WithRestore(p.result[|p.result| - 1], line.operands)], []))
    else Some(Progress(p.result + [Instruction(line.mnemonic, line.operands, p.pending, [])], []))
  }

  function RunFrom(p: Progress, lines: seq<Line>): Option<Progress>
    decreases |lines|
  {
    if lines == [] then Some(p) else
    var next := Step(p, lines[0]);
    if next.None? then None else RunFrom(next.value, lines[1..])
  }

  function Parsed(lines: seq<Line>): Option<seq<Instruction>> {
    var end := RunFrom(Progress([], []), lines);
    if end.None? || end.value.pending != [] then None else Some(end.value.result)
  }

  method ParseInstructionSequence(lines: seq<Line>) returns (r: Option<seq<Instruction>>)
    ensures r == Parsed(lines)
  {
    var result: seq<Instruction> := [];
    var pending: seq<MetaOp> := [];
    for k := 0 to |lines|
      invariant RunFrom(Progress(result, pending), lines[k..]) == RunFrom(Progress([], []), lines)
    {
      var line := lines[k];
      assert lines[k..][0] == line && lines[k..][1..] == lines[k + 1..];
      var mnemonic := Lower(line.mnemonic);
      if mnemonic == "save" {
        if line.operands == [] { return None; }
        pending := pending + [MetaOp(Save, line.operands)];
      } else if mnemonic == "restore" {
        if pending != [] || result == [] || line.operands == [] { return None; }
        result := result[..|result| - 1] + [WithRestore(result[|result| - 1], line.operands)];
      } else {
        result := result + [Instruction(line.mnemonic, line.operands, pending, [])];
        pending := [];
      }
    }
    assert lines[|lines|..] == [];
    r := if pending != [] then None else Some(result);
  }

  // ---- the round trip ----

  predicate AllOf(ms: seq<MetaOp>, kind: MetaKind) {
    forall i :: 0 <= i < |ms| ==> ms[i].kind == kind && ms[i].regs != []
  }

  /** Saves before, restores after, and a mnemonic that is neither. */
  predicate Attachable(i: Instruction) {
    AllOf(i.meta, Save) && AllOf(i.postMeta, Restore) && Lower(i.mnemonic) != "save" && Lower(i.mnemonic) != "restore"
  }

  predicate AllAttachable(insts: seq<Instruction>) { forall i :: 0 <= i < |insts| ==> Attachable(insts[i]) }

  lemma Keywords()
    ensures Lower("save") == "save" && Lower("restore") == "restore"
  {
    assert "save"[1..] == "ave" && "ave"[1..] == "ve" && "ve"[1..] == "e" && "e"[1..] == "";
    assert "restore"[1..] == "estore" && "estore"[1..] == "store" && "store"[1..] == "tore" && "tore"[1..] == "ore"
      && "ore"[1..] == "re" && "re"[1..] == "e";
  }

  lemma StepFirst(p: Progress, line: Line, rest: seq<Line>)
    ensures RunFrom(p, [line] + rest) == if Step(p, line).None? then None else RunFrom(Step(p, line).value, rest)
  {
    assert ([line] + rest)[1..] == rest;
  }

  lemma {:induction false} SavesPend(p: Progress, ms: seq<MetaOp>, rest: seq<Line>)
    requires AllOf(ms, Save)
    ensures RunFrom(p, MetaLines(ms) + rest) == RunFrom(p.(pending := p.pending + ms), rest)
    decreases |ms|
  {
    if ms == [] {
      assert MetaLines(ms) + rest == rest && p.pending + ms == p.pending;
    } else {
      Keywords();
      assert MetaLines(ms) + rest == [MetaLine(ms[0])] + (MetaLines(ms[1..]) + rest);
      StepFirst(p, MetaLine(ms[0]), MetaLines(ms[1..]) + rest);
      SavesPend(p.(pending := p.pending + [ms[0]]), ms[1..], rest);
      assert p.pending + [ms[0]] + ms[1..] == p.pending + ms;
    }
  }

  lemma {:induction false} RestoresAttach(done: seq<Instruction>, i: Instruction, ms: seq<MetaOp>, rest: seq<Line>)
    requires AllOf(ms, Restore)
    ensures RunFrom(Progress(done + [i], []), MetaLines(ms) + rest)
            == RunFrom(Progress(done + [i.(postMeta := i.postMeta + ms)], []), rest)
    decreases |ms|
  {
    if ms == [] {
      assert MetaLines(ms) + rest == rest && i.postMeta + ms == i.postMeta;
    } else {
      Keywords();
      var p := Progress(done + [i], []);
      assert MetaLines(ms) + rest == [MetaLine(ms[0])] + (MetaLines(ms[1..]) + rest);
      StepFirst(p, MetaLine(ms[0]), MetaLines(ms[1..]) + rest);
      assert (done + [i])[..|done|] == done;
      var next := WithRestore(i, ms[0].regs);
      RestoresAttach(done, next, ms[1..], rest);
      assert i.postMeta + [ms[0]] + ms[1..] == i.postMeta + ms;
    }
  }

  lemma InstructionReads(done: seq<Instruction>, i: Instruction, rest: seq<Line>)
    requires Attachable(i)
    ensures RunFrom(Progress(done, []), InstLines(i) + rest) == RunFrom(Progress(done + [i], []), rest)
  {
    var own, after := Line(i.mnemonic, i.operands), MetaLines(i.postMeta) + rest;
    assert InstLines(i) + rest == MetaLines(i.meta) + ([own] + after);
    SavesPend(Progress(done, []), i.meta, [own] + after);
    assert [] + i.meta == i.meta;
    StepFirst(Progress(done, i.meta), own, after);
    RestoresAttach(done, Instruction(i.mnemonic, i.operands, i.meta, []), i.postMeta, rest);
    assert [] + i.postMeta == i.postMeta;
  }

  lemma {:induction false} AllRead(done: seq<Instruction>, insts: seq<Instruction>)
    requires AllAttachable(insts)
    ensures RunFrom(Progress(done, []), AllLines(insts)) == Some(Progress(done + insts, []))
    decreases |insts|
  {
    if insts == [] {
      assert done + insts == done;
    } else {
      InstructionReads(done, insts[0], AllLines(insts[1..]));
      AllRead(done + [insts[0]], insts[1..]);
      assert done + [insts[0]] + insts[1..] == done + insts;
    }
  }

  lemma {:induction false} RunIsAttachable(p: Progress, lines: seq<Line>)
    requires AllAttachable(p.result) && AllOf(p.pending, Save) && RunFrom(p, lines).Some?
    ensures AllAttachable(RunFrom(p, lines).value.result)
    decreases |lines|
  {
    if lines != [] {
      var next := Step(p, lines[0]).value;
      StepIsAttachable(p, lines[0]);
      RunIsAttachable(next, lines[1..]);
    }
  }

  lemma StepIsAttachable(p: Progress, line: Line)
    requires AllAttachable(p.result) && AllOf(p.pending, Save) && Step(p, line).Some?
    ensures AllAttachable(Step(p, line).value.result) && AllOf(Step(p, line).value.pending, Save)
  {}

  /** Printed instructions read back as themselves exactly when saves come before, restores after, and no mnemonic is
      either. */
  lemma SequenceRoundTripIff(insts: seq<Instruction>)
    ensures Parsed(AllLines(insts)) == Some(insts) <==> AllAttachable(insts)
  {
    if AllAttachable(insts) {
      AllRead([], insts);
      assert [] + insts == insts;
    }
    if Parsed(AllLines(insts)) == Some(insts) { RunIsAttachable(Progress([], []), AllLines(insts)); }
  }

  // ---- exactly the printed sequences are read ----

  /** Equal lines, but for the case of a keyword. */
  ghost predicate SameLine(a: Line, b: Line) {
    && a.operands == b.operands
    && (a.mnemonic == b.mnemonic
        || (Lower(a.mnemonic) == Lower(b.mnemonic) && Lower(a.mnemonic) in {"save", "restore"}))
  }

  ghost predicate SameLines(a: seq<Line>, b: seq<Line>) {
    |a| == |b| && forall i :: 0 <= i < |a| ==> SameLine(a[i], b[i])
  }

  lemma {:induction false} MetaLinesSnoc(ms: seq<MetaOp>, m: MetaOp)
    ensures MetaLines(ms + [m]) == MetaLines(ms) + [MetaLine(m)]
  {
    if ms == [] {
      assert ms + [m] == [m] && MetaLines([m]) == [MetaLine(m)] + MetaLines([]);
    } else {
      assert (ms + [m])[1..] == ms[1..] + [m];
      MetaLinesSnoc(ms[1..], m);
    }
  }

  lemma {:induction false} AllLinesSnoc(insts: seq<Instruction>, i: Instruction)
    ensures AllLines(insts + [i]) == AllLines(insts) + InstLines(i)
  {
    if insts == [] {
      assert insts + [i] == [i] && AllLines([i]) == InstLines(i) + AllLines([]);
    } else {
      assert (insts + [i])[1..] == insts[1..] + [i];
      AllLinesSnoc(insts[1..], i);
    }
  }

  /** The lines read so far are those the instructions and waiting saves print as. */
  ghost predicate Consumed(lines: seq<Line>, p: Progress) {
    && AllAttachable(p.result) && AllOf(p.pending, Save)
    && SameLines(AllLines(p.result) + MetaLines(p.pending), lines)
  }

  lemma SaveConsumes(done: seq<Line>, p: Progress, line: Line)
    requires Consumed(done, p) && Lower(line.mnemonic) == "save"
    ensures SameLines(AllLines(p.result) + MetaLines(p.pending + [MetaOp(Save, line.operands)]), done + [line])
  {
    Keywords();
    var m := MetaOp(Save, line.operands);
    MetaLinesSnoc(p.pending, m);
    OneMoreSame(AllLines(p.result) + MetaLines(p.pending), done, MetaLine(m), line);
    assert AllLines(p.result) + (MetaLines(p.pending) + [MetaLine(m)])
      == (AllLines(p.result) + MetaLines(p.pending)) + [MetaLine(m)];
  }

  lemma OneMoreSame(a: seq<Line>, b: seq<Line>, x: Line, y: Line)
    requires SameLines(a, b) && SameLine(x, y)
    ensures SameLines(a + [x], b + [y])
  {}

  lemma RestoreConsumes(done: seq<Line>, p: Progress, line: Line)
    requires Consumed(done, p) && Lower(line.mnemonic) == "restore" && p.pending == [] && p.result != []
    ensures var front, last := p.result[..|p.result| - 1], p.result[|p.result| - 1];
            SameLines(AllLines(front + [WithRestore(last, line.operands)]) + MetaLines([]), done + [line])
  {
    Keywords();
    var printed := AllLines(p.result);
    assert printed + MetaLines(p.pending) == printed;
    var front, last := p.result[..|p.result| - 1], p.result[|p.result| - 1];
    assert p.result == front + [last];
    RestorePrints(front, last, line.operands);
    OneMoreSame(printed, done, MetaLine(MetaOp(Restore, line.operands)), line);
    var after := AllLines(front + [WithRestore(last, line.operands)]);
    assert after + MetaLines([]) == after;
  }

  lemma PlainConsumes(done: seq<Line>, p: Progress, line: Line)
    requires Consumed(done, p)
    ensures var i := Instruction(line.mnemonic, line.operands, p.pending, []);
            SameLines(AllLines(p.result + [i]) + MetaLines([]), done + [line])
  {
    var i := Instruction(line.mnemonic, line.operands, p.pending, []);
    AllLinesSnoc(p.result, i);
    OneMoreSame(AllLines(p.result) + MetaLines(p.pending), done, line, line);
    assert AllLines(p.result + [i]) + MetaLines([]) == (AllLines(p.result) + MetaLines(p.pending)) + [line];
  }

  lemma StepConsumes(done: seq<Line>, p: Progress, line: Line)
    requires Consumed(done, p) && Step(p, line).Some?
    ensures Consumed(done + [line], Step(p, line).value)
  {
    StepIsAttachable(p, line);
    if Lower(line.mnemonic) == "save" { SaveConsumes(done, p, line); }
    else if Lower(line.mnemonic) == "restore" { RestoreConsumes(done, p, line); }
    else { PlainConsumes(done, p, line); }
  }

  lemma RestoreLine(i: Instruction, regs: seq<Operand>)
    ensures InstLines(WithRestore(i, regs)) == InstLines(i) + [MetaLine(MetaOp(Restore, regs))]
  {
    MetaLinesSnoc(i.postMeta, MetaOp(Restore, regs));
  }

  lemma Associate<T>(a: seq<T>, b: seq<T>, c: seq<T>)
    ensures a + (b + c) == (a + b) + c
  {}

  lemma RestorePrints(front: seq<Instruction>, last: Instruction, regs: seq<Operand>)
    ensures AllLines(front + [WithRestore(last, regs)])
            == AllLines(front + [last]) + [MetaLine(MetaOp(Restore, regs))]
  {
    AllLinesSnoc(front, last);
    AllLinesSnoc(front, WithRestore(last, regs));
    RestoreLine(last, regs);
    Associate(AllLines(front), InstLines(last), [MetaLine(MetaOp(Restore, regs))]);
  }

  lemma {:induction false} RunConsumes(done: seq<Line>, p: Progress, lines: seq<Line>)
    requires Consumed(done, p) && RunFrom(p, lines).Some?
    ensures Consumed(done + lines, RunFrom(p, lines).value)
    decreases |lines|
  {
    if lines == [] {
      assert done + lines == done;
    } else {
      var first, rest := lines[0], lines[1..];
      assert lines == [first] + rest;
      StepConsumes(done, p, first);
      RunConsumes(done + [first], Step(p, first).value, rest);
      Associate(done, [first], rest);
    }
  }

  lemma {:induction false} SameRun(p: Progress, a: seq<Line>, b: seq<Line>)
    requires SameLines(a, b)
    ensures RunFrom(p, a) == RunFrom(p, b)
    decreases |a|
  {
    if a != [] {
      assert SameLine(a[0], b[0]) && Step(p, a[0]) == Step(p, b[0]);
      forall i | 0 <= i < |a| - 1 ensures SameLine(a[1..][i], b[1..][i]) { assert SameLine(a[i + 1], b[i + 1]); }
      if Step(p, a[0]).Some? { SameRun(Step(p, a[0]).value, a[1..], b[1..]); }
    }
  }

  /**
   The parser returns instructions exactly when these print as the lines; so it fails exactly on the sequences no
   instructions print as, such as a save that nothing follows or a restore that follows nothing.
   */
  lemma ParsedIff(lines: seq<Line>, insts: seq<Instruction>)
    ensures Parsed(lines) == Some(insts) <==> AllAttachable(insts) && SameLines(AllLines(insts), lines)
  {
    if Parsed(lines) == Some(insts) {
      assert Consumed([], Progress([], []));
      RunConsumes([], Progress([], []), lines);
      assert [] + lines == lines && AllLines(insts) + [] == AllLines(insts);
    }
    if AllAttachable(insts) && SameLines(AllLines(insts), lines) {
      SameRun(Progress([], []), AllLines(insts), lines);
      AllRead([], insts);
      assert [] + insts == insts;
    }
  }

  /** A save must be followed by another save or by its instruction; a restore must follow its instruction. */
  lemma DanglingFails(lines: seq<Line>, insts: seq<Instruction>)
    requires Parsed(lines) == Some(insts) && lines != []
    ensures Lower(lines[0].mnemonic) != "restore" && Lower(lines[|lines| - 1].mnemonic) != "save"
  {
    ParsedIff(lines, insts);
    var printed := AllLines(insts);
    FirstPrinted(insts);
    LastPrinted(insts);
    assert SameLine(printed[0], lines[0]) && SameLine(printed[|lines| - 1], lines[|lines| - 1]);
  }

  lemma FirstPrinted(insts: seq<Instruction>)
    requires AllAttachable(insts) && insts != []
    ensures AllLines(insts) != [] && Lower(AllLines(insts)[0].mnemonic) != "restore"
  {
    Keywords();
    assert Attachable(insts[0]);
  }

  lemma LastPrinted(insts: seq<Instruction>)
    requires AllAttachable(insts) && insts != []
    ensures var printed := AllLines(insts); printed != [] && Lower(printed[|printed| - 1].mnemonic) != "save"
  {
    var front, last := insts[..|insts| - 1], insts[|insts| - 1];
    assert insts == front + [last] && Attachable(last);
    AllLinesSnoc(front, last);
    LastOfInstruction(last);
  }

  lemma LastOfInstruction(i: Instruction)
    requires Attachable(i)
    ensures InstLines(i) != [] && Lower(InstLines(i)[|InstLines(i)| - 1].mnemonic) != "save"
  {
    Keywords();
    if i.postMeta != [] {
      var k := |i.postMeta| - 1;
      assert i.postMeta == i.postMeta[..k] + [i.postMeta[k]];
      MetaLinesSnoc(i.postMeta[..k], i.postMeta[k]);
    }
  }
}
