/** Finding a register binding by proposing, verifying and learning from counterexamples. */
module Cegis {
  import opened Wrappers
  import opened Sorting
  import opened Permutations
  import opened RegisterBinding
  import Bv = Semantics
  import Laws = OperatorLaws

  /** What a window computes: output values from input values. */
  datatype Transfer = Transfer(inputs: seq<string>, inWidths: seq<nat>, outputs: seq<string>, outWidths: seq<nat>,
      run: seq<nat> -> seq<nat>)

  /** Values of the guest inputs. */
  type Sample = seq<nat>

  ghost predicate WellFormed(t: Transfer) {
    && |t.inWidths| == |t.inputs| && |t.outWidths| == |t.outputs|
    && forall v: seq<nat> :: |v| == |t.inputs| ==> |t.run(v)| == |t.outputs|
  }

  function Masked(v: seq<nat>, widths: seq<nat>): (r: Sample)
    requires |v| == |widths|
    ensures |r| == |v|
  {
    seq(|v|, i requires 0 <= i < |v| => v[i] % Bv.Pow2(widths[i]))
  }

  /** The values cut to their widths. */
  ghost predicate Residues(v: seq<nat>, widths: seq<nat>, r: Sample)
    requires |v| == |widths|
  {
    |r| == |v| && forall i :: 0 <= i < |v| ==> Laws.Residue(Bv.Bv(widths[i], r[i]), v[i], widths[i])
  }

  lemma MaskedIff(v: seq<nat>, widths: seq<nat>, r: Sample)
    requires |v| == |widths|
    ensures Masked(v, widths) == r <==> Residues(v, widths, r)
  {
    forall i | 0 <= i < |v|
      ensures Laws.Residue(Bv.Bv(widths[i], Masked(v, widths)[i]), v[i], widths[i])
      ensures Residues(v, widths, r) ==> r[i] == Masked(v, widths)[i]
    {
      Laws.WrapIsResidue(v[i], widths[i]);
      if Residues(v, widths, r) {
        Laws.ResidueUnique(Bv.Bv(widths[i], r[i]), Bv.Wrap(v[i], widths[i]), v[i], widths[i]);
      }
    }
  }

  // ---- bindings ----

  /** Which guest index feeds each host input, and which guest output each host output must equal. */
  datatype Choice = Choice(ins: seq<nat>, outs: seq<nat>)

  predicate WidthRespecting(g: Transfer, h: Transfer, c: Choice) {
    Preserves(c.ins, g.inWidths, h.inWidths) && Preserves(c.outs, g.outWidths, h.outWidths)
  }

  /** Every host place takes a guest place of its width; one may be taken twice. */
  predicate Fitting(g: Transfer, h: Transfer, c: Choice) {
    && Inside(c.ins, |g.inWidths|) && Pick(g.inWidths, c.ins) == h.inWidths
    && Inside(c.outs, |g.outWidths|) && Pick(g.outWidths, c.outs) == h.outWidths
  }

  /** Both sides compute the same on one guest input. */
  ghost predicate AgreesOn(g: Transfer, h: Transfer, c: Choice, v: Sample)
    requires WellFormed(g) && WellFormed(h) && Fitting(g, h, c)
  {
    |v| == |g.inputs| ==>
      var gv := Masked(v, g.inWidths);
      h.run(Pick(gv, c.ins)) == Pick(g.run(gv), c.outs)
  }

  ghost predicate AgreesOnAll(g: Transfer, h: Transfer, c: Choice, samples: seq<Sample>)
    requires WellFormed(g) && WellFormed(h) && Fitting(g, h, c)
  {
    forall i :: 0 <= i < |samples| ==> AgreesOn(g, h, c, samples[i])
  }

  /** The two sides are equal under the binding. */
  ghost predicate Equal(g: Transfer, h: Transfer, c: Choice)
    requires WellFormed(g) && WellFormed(h) && Fitting(g, h, c)
  {
    forall v: Sample :: AgreesOn(g, h, c, v)
  }

  // ---- selector variables ----

  function Max(a: nat, b: nat): nat { if a < b then b else a }

  /** Enough bits for every guest index, and at least one. */
  function SelectorBits(n: nat): nat { Max(1, Bv.BitLength(Max(1, n) - 1)) }

  lemma {:induction false} BelowBitLength(n: nat)
    ensures n < Bv.Pow2(Bv.BitLength(n))
  {
    if n > 0 { BelowBitLength(n / 2); }
  }

  lemma IndexFits(i: nat, n: nat)
    requires i < n
    ensures i < Bv.Pow2(SelectorBits(n))
  {
    BelowBitLength(n - 1);
    assert Bv.Pow2(1) == 2 * Bv.Pow2(0) == 2;
  }

  lemma {:induction false} AboveBitLength(n: nat)
    requires n > 0
    ensures Bv.BitLength(n) > 0 && Bv.Pow2(Bv.BitLength(n) - 1) <= n
  {
    if n > 1 {
      AboveBitLength(n / 2);
    } else {
      assert Bv.BitLength(1) == 1 + Bv.BitLength(0);
    }
  }

  /** With one bit less, the last guest index would not fit. */
  lemma NoBitToSpare(n: nat)
    ensures SelectorBits(n) >= 1 && (SelectorBits(n) > 1 ==> Bv.Pow2(SelectorBits(n) - 1) <= n - 1)
  {
    if n > 1 { AboveBitLength(n - 1); }
  }

  /** Guest indices whose width matches. */
  function DomainUpTo(gw: seq<nat>, width: nat, n: nat): (d: seq<nat>)
    requires n <= |gw|
    ensures Inside(d, n) && forall i: nat :: i in d <==> i < n && gw[i] == width
  {
    if n == 0 then [] else DomainUpTo(gw, width, n - 1) + if gw[n - 1] == width then [n - 1] else []
  }

  function Domain(gw: seq<nat>, width: nat): (d: seq<nat>)
    ensures Inside(d, |gw|)
  {
    DomainUpTo(gw, width, |gw|)
  }

  method SelectorsForWidths(gw: seq<nat>, hw: seq<nat>) returns (domains: Option<seq<seq<nat>>>)
    ensures domains.None? <==> exists i :: 0 <= i < |hw| && Domain(gw, hw[i]) == []
    ensures domains.Some? ==> |domains.value| == |hw| && forall i :: 0 <= i < |hw| ==>
            domains.value[i] == Domain(gw, hw[i])
  {
    var found: seq<seq<nat>> := [];
    for i := 0 to |hw|
      invariant |found| == i && forall k :: 0 <= k < i ==> found[k] == Domain(gw, hw[k]) && found[k] != []
    {
      var d := Domain(gw, hw[i]);
      if d == [] { return None; }
      found := found + [d];
    }
    domains := Some(found);
  }

  /** The selector chain: each index of the domain but the last by comparison, the last otherwise. */
  function SelectValue(domain: seq<nat>, choice: nat, values: seq<nat>): nat
    requires domain != [] && Inside(domain, |values|)
  {
    if |domain| == 1 || choice == domain[0] then values[domain[0]] else SelectValue(domain[1..], choice, values)
  }

  lemma {:induction false} SelectsChoice(domain: seq<nat>, choice: nat, values: seq<nat>)
    requires domain != [] && Inside(domain, |values|) && choice in domain
    ensures choice < |values| && SelectValue(domain, choice, values) == values[choice]
    decreases |domain|
  {
    if |domain| > 1 && choice != domain[0] {
      assert domain == [domain[0]] + domain[1..];
      SelectsChoice(domain[1..], choice, values);
    }
  }

  // ---- the constraints ----

  datatype Selectors = Selectors(ins: seq<seq<nat>>, outs: seq<seq<nat>>)

  ghost predicate SelectorsFor(g: Transfer, h: Transfer, s: Selectors) {
    && |s.ins| == |h.inWidths| && |s.outs| == |h.outWidths|
    && (forall i :: 0 <= i < |s.ins| ==> s.ins[i] == Domain(g.inWidths, h.inWidths[i]) && s.ins[i] != [])
    && (forall i :: 0 <= i < |s.outs| ==> s.outs[i] == Domain(g.outWidths, h.outWidths[i]) && s.outs[i] != [])
  }

  predicate SelectorsHold(domains: seq<seq<nat>>, bits: nat, choice: seq<nat>) {
    && |choice| == |domains|
    && (forall i :: 0 <= i < |choice| ==> choice[i] < Bv.Pow2(bits) && choice[i] in domains[i])
    && Distinct(choice)
  }

  /** Values selected for each host place. */
  function SelectAll(domains: seq<seq<nat>>, choice: seq<nat>, values: seq<nat>): (r: seq<nat>)
    requires |choice| == |domains| && forall i :: 0 <= i < |domains| ==>
             domains[i] != [] && Inside(domains[i], |values|)
    ensures |r| == |domains| && forall i :: 0 <= i < |domains| ==> r[i] == SelectValue(domains[i], choice[i], values)
  {
    seq(|domains|, i requires 0 <= i < |domains| => SelectValue(domains[i], choice[i], values))
  }

  /** The constraint one sample adds. */
  ghost predicate SampleHolds(g: Transfer, h: Transfer, s: Selectors, c: Choice, v: Sample)
    requires WellFormed(g) && WellFormed(h) && SelectorsFor(g, h, s) && |v| == |g.inputs| && |c.ins| == |s.ins|
    requires |c.outs| == |s.outs|
  {
    var gv := Masked(v, g.inWidths);
    h.run(SelectAll(s.ins, c.ins, gv)) == SelectAll(s.outs, c.outs, g.run(gv))
  }

  predicate Sized(g: Transfer, samples: seq<Sample>) { forall i :: 0 <= i < |samples| ==> |samples[i]| == |g.inputs| }

  /** Everything the solver is asked to satisfy. */
  ghost predicate Satisfies(g: Transfer, h: Transfer, s: Selectors, samples: seq<Sample>, c: Choice)
    requires WellFormed(g) && WellFormed(h) && SelectorsFor(g, h, s) && Sized(g, samples)
  {
    && SelectorsHold(s.ins, SelectorBits(|g.inWidths|), c.ins)
       && SelectorsHold(s.outs, SelectorBits(|g.outWidths|), c.outs)
    && forall i :: 0 <= i < |samples| ==> SampleHolds(g, h, s, c, samples[i])
  }

  /** Selector variables over matching widths, pairwise different, are the width-preserving bijections. */
  lemma SelectorsAreBijections(gw: seq<nat>, hw: seq<nat>, domains: seq<seq<nat>>, choice: seq<nat>)
    requires |gw| == |hw| == |domains| && forall i :: 0 <= i < |hw| ==> domains[i] == Domain(gw, hw[i])
    ensures SelectorsHold(domains, SelectorBits(|gw|), choice) <==> Preserves(choice, gw, hw)
  {
    if Preserves(choice, gw, hw) {
      forall i | 0 <= i < |choice| ensures choice[i] < Bv.Pow2(SelectorBits(|gw|)) && choice[i] in domains[i] {
        IndexFits(choice[i], |gw|);
        assert Pick(gw, choice)[i] == hw[i];
      }
    }
    if SelectorsHold(domains, SelectorBits(|gw|), choice) {
      assert forall i :: 0 <= i < |choice| ==> choice[i] in domains[i];
    }
  }

  lemma SelectIsPick(gw: seq<nat>, hw: seq<nat>, domains: seq<seq<nat>>, choice: seq<nat>, values: seq<nat>)
    requires |gw| == |hw| == |domains| == |values| && Preserves(choice, gw, hw)
    requires forall i :: 0 <= i < |domains| ==>
             domains[i] == Domain(gw, hw[i]) && domains[i] != [] && Inside(domains[i], |values|)
    ensures SelectAll(domains, choice, values) == Pick(values, choice)
  {
    forall i | 0 <= i < |domains| ensures SelectValue(domains[i], choice[i], values) == values[choice[i]] {
      assert Pick(gw, choice)[i] == hw[i];
      SelectsChoice(domains[i], choice[i], values);
    }
  }

  lemma SampleMeans(g: Transfer, h: Transfer, s: Selectors, c: Choice, v: Sample)
    requires WellFormed(g) && WellFormed(h) && SelectorsFor(g, h, s) && |v| == |g.inputs| && WidthRespecting(g, h, c)
    ensures SampleHolds(g, h, s, c, v) <==> AgreesOn(g, h, c, v)
  {
    var gv := Masked(v, g.inWidths);
    SelectIsPick(g.inWidths, h.inWidths, s.ins, c.ins, gv);
    SelectIsPick(g.outWidths, h.outWidths, s.outs, c.outs, g.run(gv));
  }

  /** The constraints say: a width-preserving bijection that agrees on every sample. */
  lemma ConstraintsMean(g: Transfer, h: Transfer, s: Selectors, samples: seq<Sample>, c: Choice)
    requires WellFormed(g) && WellFormed(h) && SelectorsFor(g, h, s) && Sized(g, samples)
    requires |g.inputs| == |h.inputs| && |g.outputs| == |h.outputs|
    ensures Satisfies(g, h, s, samples, c) <==> WidthRespecting(g, h, c) && AgreesOnAll(g, h, c, samples)
  {
    SelectorsAreBijections(g.inWidths, h.inWidths, s.ins, c.ins);
    SelectorsAreBijections(g.outWidths, h.outWidths, s.outs, c.outs);
    if WidthRespecting(g, h, c) {
      forall i | 0 <= i < |samples| ensures SampleHolds(g, h, s, c, samples[i]) <==> AgreesOn(g, h, c, samples[i]) {
        SampleMeans(g, h, s, c, samples[i]);
      }
    }
  }

  // ---- what the solver answers ----

  /** The solver finds a satisfying assignment whenever there is one. */
  ghost predicate ExactSolver(solve: (Selectors, seq<Sample>) -> Option<Choice>, g: Transfer, h: Transfer)
    requires WellFormed(g) && WellFormed(h)
  {
    forall s: Selectors, samples: seq<Sample> {:trigger solve(s, samples)} ::
      SelectorsFor(g, h, s) && Sized(g, samples) ==>
        match solve(s, samples)
        case Some(c) => Satisfies(g, h, s, samples, c)
        case None => forall c :: !Satisfies(g, h, s, samples, c)
  }

  // ---- selectors evaluated one by one ----

  /** A value some satisfying assignment gives the host input at `i`. */
  ghost predicate InputAnswer(g: Transfer, h: Transfer, s: Selectors, samples: seq<Sample>, i: nat, value: nat)
    requires WellFormed(g) && WellFormed(h) && SelectorsFor(g, h, s) && Sized(g, samples)
  {
    exists d: Choice :: Satisfies(g, h, s, samples, d) && i < |d.ins| && d.ins[i] == value
  }

  ghost predicate OutputAnswer(g: Transfer, h: Transfer, s: Selectors, samples: seq<Sample>, i: nat, value: nat)
    requires WellFormed(g) && WellFormed(h) && SelectorsFor(g, h, s) && Sized(g, samples)
  {
    exists d: Choice :: Satisfies(g, h, s, samples, d) && i < |d.outs| && d.outs[i] == value
  }

  /** Every selector has a value it takes in some satisfying assignment, not necessarily the same one. */
  ghost predicate Separately(g: Transfer, h: Transfer, s: Selectors, samples: seq<Sample>, c: Choice)
    requires WellFormed(g) && WellFormed(h) && SelectorsFor(g, h, s) && Sized(g, samples)
  {
    && |c.ins| == |s.ins| && |c.outs| == |s.outs|
    && (forall i :: 0 <= i < |c.ins| ==> InputAnswer(g, h, s, samples, i, c.ins[i]))
    && (forall i :: 0 <= i < |c.outs| ==> OutputAnswer(g, h, s, samples, i, c.outs[i]))
  }

  lemma AnswersItself(g: Transfer, h: Transfer, s: Selectors, samples: seq<Sample>, c: Choice)
    requires WellFormed(g) && WellFormed(h) && SelectorsFor(g, h, s) && Sized(g, samples)
    requires Satisfies(g, h, s, samples, c)
    ensures Separately(g, h, s, samples, c)
  {}

  /** One value changed to what another permutation has there is no permutation any more. */
  lemma MixedIsNotDistinct(p: seq<nat>, q: seq<nat>, n: nat, i: nat)
    requires IsPermutation(p, n) && IsPermutation(q, n) && i < n && p[i] != q[i]
    ensures !Distinct(p[i := q[i]])
  {
    PermutationCovers(p, n);
    assert q[i] in p;
    var j :| 0 <= j < n && p[j] == q[i];
    var m := p[i := q[i]];
    assert m[i] == m[j] && (i < j || j < i);
  }

  lemma MixedInputs(g: Transfer, h: Transfer, s: Selectors, samples: seq<Sample>, c: Choice, d: Choice, i: nat)
    requires WellFormed(g) && WellFormed(h) && SelectorsFor(g, h, s) && Sized(g, samples)
    requires Separately(g, h, s, samples, c) && Separately(g, h, s, samples, d)
    requires Preserves(c.ins, g.inWidths, h.inWidths) && Preserves(d.ins, g.inWidths, h.inWidths)
    requires i < |c.ins| && c.ins[i] != d.ins[i]
    ensures var mixed := Choice(c.ins[i := d.ins[i]], c.outs);
      Separately(g, h, s, samples, mixed) && !Satisfies(g, h, s, samples, mixed)
  {
    MixedIsNotDistinct(c.ins, d.ins, |g.inWidths|, i);
  }

  lemma MixedOutputs(g: Transfer, h: Transfer, s: Selectors, samples: seq<Sample>, c: Choice, d: Choice, i: nat)
    requires WellFormed(g) && WellFormed(h) && SelectorsFor(g, h, s) && Sized(g, samples)
    requires Separately(g, h, s, samples, c) && Separately(g, h, s, samples, d)
    requires Preserves(c.outs, g.outWidths, h.outWidths) && Preserves(d.outs, g.outWidths, h.outWidths)
    requires i < |c.outs| && c.outs[i] != d.outs[i]
    ensures var mixed := Choice(c.ins, c.outs[i := d.outs[i]]);
      Separately(g, h, s, samples, mixed) && !Satisfies(g, h, s, samples, mixed)
  {
    MixedIsNotDistinct(c.outs, d.outs, |g.outWidths|, i);
  }

  /** Two satisfying assignments that differ can be mixed, selector by selector, into one that does not satisfy. */
  lemma MixedAnswers(g: Transfer, h: Transfer, s: Selectors, samples: seq<Sample>, c: Choice, d: Choice)
    returns (mixed: Choice)
    requires WellFormed(g) && WellFormed(h) && SelectorsFor(g, h, s) && Sized(g, samples)
    requires |g.inputs| == |h.inputs| && |g.outputs| == |h.outputs|
    requires Satisfies(g, h, s, samples, c) && Satisfies(g, h, s, samples, d) && c != d
    ensures Separately(g, h, s, samples, mixed) && !Satisfies(g, h, s, samples, mixed)
  {
    ConstraintsMean(g, h, s, samples, c);
    ConstraintsMean(g, h, s, samples, d);
    AnswersItself(g, h, s, samples, c);
    AnswersItself(g, h, s, samples, d);
    if c.ins != d.ins {
      var i :| 0 <= i < |c.ins| && c.ins[i] != d.ins[i];
      MixedInputs(g, h, s, samples, c, d, i);
      mixed := Choice(c.ins[i := d.ins[i]], c.outs);
    } else {
      var i :| 0 <= i < |c.outs| && c.outs[i] != d.outs[i];
      MixedOutputs(g, h, s, samples, c, d, i);
      mixed := Choice(c.ins, c.outs[i := d.outs[i]]);
    }
  }

  /** Evaluating each selector by itself is sure to give a satisfying assignment exactly when there is only one. */
  lemma SeparateAnswersIff(g: Transfer, h: Transfer, s: Selectors, samples: seq<Sample>, c: Choice)
    requires WellFormed(g) && WellFormed(h) && SelectorsFor(g, h, s) && Sized(g, samples)
    requires |g.inputs| == |h.inputs| && |g.outputs| == |h.outputs| && Satisfies(g, h, s, samples, c)
    ensures (forall d :: Separately(g, h, s, samples, d) ==> Satisfies(g, h, s, samples, d))
            <==> forall d :: Satisfies(g, h, s, samples, d) ==> d == c
  {
    if forall d :: Satisfies(g, h, s, samples, d) ==> d == c {
      forall d | Separately(g, h, s, samples, d) ensures d == c {
        assert d.ins == c.ins && d.outs == c.outs;
      }
    } else {
      var d :| Satisfies(g, h, s, samples, d) && d != c;
      var mixed := MixedAnswers(g, h, s, samples, c, d);
    }
  }

  /** The solver says whether the constraints can hold, and evaluates each selector by itself. */
  ghost predicate SeparateSolver(solve: (Selectors, seq<Sample>) -> Option<Choice>, g: Transfer, h: Transfer)
    requires WellFormed(g) && WellFormed(h)
  {
    forall s: Selectors, samples: seq<Sample> {:trigger solve(s, samples)} ::
      SelectorsFor(g, h, s) && Sized(g, samples) ==>
        match solve(s, samples)
        case Some(c) => (exists d :: Satisfies(g, h, s, samples, d)) && Separately(g, h, s, samples, c)
        case None => forall c :: !Satisfies(g, h, s, samples, c)
  }

  lemma ExactAnswersSeparately(solve: (Selectors, seq<Sample>) -> Option<Choice>, g: Transfer, h: Transfer)
    requires WellFormed(g) && WellFormed(h) && ExactSolver(solve, g, h)
    ensures SeparateSolver(solve, g, h)
  {
    forall s: Selectors, samples: seq<Sample> | SelectorsFor(g, h, s) && Sized(g, samples)
      ensures match solve(s, samples)
              case Some(c) => Satisfies(g, h, s, samples, c) && Separately(g, h, s, samples, c)
              case None => forall c :: !Satisfies(g, h, s, samples, c)
    {
      var answer := solve(s, samples);
      if answer.Some? { AnswersItself(g, h, s, samples, answer.value); }
    }
  }

  /** A bijection that preserves widths and agrees on the samples. */
  ghost predicate Consistent(g: Transfer, h: Transfer, samples: seq<Sample>, c: Choice)
    requires WellFormed(g) && WellFormed(h)
  {
    WidthRespecting(g, h, c) && AgreesOnAll(g, h, c, samples)
  }

  /** Each selector has its value in some consistent bijection. */
  ghost predicate Selected(g: Transfer, h: Transfer, samples: seq<Sample>, c: Choice)
    requires WellFormed(g) && WellFormed(h)
  {
    && |c.ins| == |h.inputs| && |c.outs| == |h.outputs|
    && (forall i :: 0 <= i < |c.ins| ==>
          exists d: Choice :: Consistent(g, h, samples, d) && i < |d.ins| && d.ins[i] == c.ins[i])
    && (forall i :: 0 <= i < |c.outs| ==>
          exists d: Choice :: Consistent(g, h, samples, d) && i < |d.outs| && d.outs[i] == c.outs[i])
  }

  lemma SeparatelySelected(g: Transfer, h: Transfer, s: Selectors, samples: seq<Sample>, c: Choice)
    requires WellFormed(g) && WellFormed(h) && SelectorsFor(g, h, s) && Sized(g, samples)
    requires Separately(g, h, s, samples, c)
    requires forall d :: Satisfies(g, h, s, samples, d) <==> Consistent(g, h, samples, d)
    ensures Selected(g, h, samples, c)
  {
    forall i: nat | i < |c.ins|
      ensures exists d: Choice :: Consistent(g, h, samples, d) && i < |d.ins| && d.ins[i] == c.ins[i]
    {
      assert InputAnswer(g, h, s, samples, i, c.ins[i]);
    }
    forall i: nat | i < |c.outs|
      ensures exists d: Choice :: Consistent(g, h, samples, d) && i < |d.outs| && d.outs[i] == c.outs[i]
    {
      assert OutputAnswer(g, h, s, samples, i, c.outs[i]);
    }
  }

  /** Separately chosen places have the right widths, though a place may be chosen twice. */
  lemma SelectedFits(g: Transfer, h: Transfer, samples: seq<Sample>, c: Choice)
    requires WellFormed(g) && WellFormed(h) && Selected(g, h, samples, c)
    ensures Fitting(g, h, c)
  {
    forall i: nat | i < |c.ins| ensures c.ins[i] < |g.inWidths| && g.inWidths[c.ins[i]] == h.inWidths[i] {
      var d: Choice :| Consistent(g, h, samples, d) && i < |d.ins| && d.ins[i] == c.ins[i];
      assert Pick(g.inWidths, d.ins)[i] == h.inWidths[i];
    }
    forall i: nat | i < |c.outs| ensures c.outs[i] < |g.outWidths| && g.outWidths[c.outs[i]] == h.outWidths[i] {
      var d: Choice :| Consistent(g, h, samples, d) && i < |d.outs| && d.outs[i] == c.outs[i];
      assert Pick(g.outWidths, d.outs)[i] == h.outWidths[i];
    }
  }

  // ---- synthesis ----

  /** No answer exactly when no bijection is consistent; with one model for all selectors, the answer is one. */
  method Synthesize(g: Transfer, h: Transfer, samples: seq<Sample>, solve: (Selectors, seq<Sample>) -> Option<Choice>)
    returns (r: Option<Choice>)
    requires WellFormed(g) && WellFormed(h) && SeparateSolver(solve, g, h) && Sized(g, samples)
    ensures r.None? <==> forall c :: !Consistent(g, h, samples, c)
    ensures r.Some? ==> Selected(g, h, samples, r.value)
    ensures r.Some? && ExactSolver(solve, g, h) ==> Consistent(g, h, samples, r.value)
  {
    if |g.inputs| != |h.inputs| || |g.outputs| != |h.outputs| { return None; }
    var ins := SelectorsForWidths(g.inWidths, h.inWidths);
    var outs := SelectorsForWidths(g.outWidths, h.outWidths);
    if ins.None? || outs.None? {
      forall c ensures !WidthRespecting(g, h, c) { NoDomainNoBijection(g, h, c); }
      return None;
    }
    var s := Selectors(ins.value, outs.value);
    r := solve(s, samples);
    forall c ensures Satisfies(g, h, s, samples, c) <==> Consistent(g, h, samples, c) {
      ConstraintsMean(g, h, s, samples, c);
    }
    if r.Some? { SeparatelySelected(g, h, s, samples, r.value); }
  }

  lemma NoDomainNoBijection(g: Transfer, h: Transfer, c: Choice)
    requires (exists i :: 0 <= i < |h.inWidths| && Domain(g.inWidths, h.inWidths[i]) == [])
             || exists i :: 0 <= i < |h.outWidths| && Domain(g.outWidths, h.outWidths[i]) == []
    ensures !WidthRespecting(g, h, c)
  {
    if i :| 0 <= i < |h.inWidths| && Domain(g.inWidths, h.inWidths[i]) == [] {
      NoPlace(g.inWidths, h.inWidths, c.ins, i);
    } else {
      var i :| 0 <= i < |h.outWidths| && Domain(g.outWidths, h.outWidths[i]) == [];
      NoPlace(g.outWidths, h.outWidths, c.outs, i);
    }
  }

  lemma NoPlace(gw: seq<nat>, hw: seq<nat>, p: seq<nat>, i: nat)
    requires i < |hw| && Domain(gw, hw[i]) == []
    ensures !Preserves(p, gw, hw)
  {
    if Preserves(p, gw, hw) { PreservedIndex(p, gw, hw, i); }
  }

  lemma PreservedIndex(p: seq<nat>, gw: seq<nat>, hw: seq<nat>, i: nat)
    requires Preserves(p, gw, hw) && i < |hw|
    ensures p[i] in Domain(gw, hw[i])
  {
    assert Pick(gw, p)[i] == hw[i];
  }

  // ---- verification reports ----

  /** `counterexample` gives the registers of a failed check their values; an empty one says nothing. */
  datatype Check = Check(failed: bool, counterexample: map<string, nat>)

  datatype Report = Report(status: Status, checks: seq<Check>)

  /** The guest inputs of the first failed check that has a counterexample, cut to their widths. */
  function GuestCounterexample(r: Report, g: Transfer): Option<Sample>
    requires |g.inWidths| == |g.inputs|
  {
    FirstCounterexample(r.checks, g)
  }

  function FirstCounterexample(checks: seq<Check>, g: Transfer): Option<Sample>
    requires |g.inWidths| == |g.inputs|
  {
    if checks == [] then None
    else if !checks[0].failed || checks[0].counterexample == map[] then FirstCounterexample(checks[1..], g)
    else if exists i :: 0 <= i < |g.inputs| && g.inputs[i] !in checks[0].counterexample then None
    else Some(ValuesOf(checks[0].counterexample, g))
  }

  function ValuesOf(values: map<string, nat>, g: Transfer): Sample
    requires |g.inWidths| == |g.inputs|
  {
    Masked(seq(|g.inputs|, i requires 0 <= i < |g.inputs| => ValueIn(values, g.inputs[i])), g.inWidths)
  }

  function ValueIn(values: map<string, nat>, register: string): nat {
    if register in values then values[register] else 0
  }

  /** The first failed check that gives any register a value. */
  ghost predicate FirstFailure(checks: seq<Check>, k: nat) {
    && k < |checks| && Fails(checks[k])
    && forall j :: 0 <= j < k ==> !Fails(checks[j])
  }

  ghost predicate Fails(check: Check) { check.failed && exists register :: register in check.counterexample }

  /** Every guest input has a value, and the sample is these values cut to the widths. */
  ghost predicate Assigns(values: map<string, nat>, g: Transfer, v: Sample)
    requires |g.inWidths| == |g.inputs|
  {
    && |v| == |g.inputs|
    && forall i :: 0 <= i < |v| ==>
         && g.inputs[i] in values
         && Laws.Residue(Bv.Bv(g.inWidths[i], v[i]), values[g.inputs[i]], g.inWidths[i])
  }

  /** The guest input a report gives away: what its first failed check says about every guest input. */
  ghost predicate Witnesses(r: Report, g: Transfer, v: Sample)
    requires |g.inWidths| == |g.inputs|
  {
    exists k: nat :: FirstFailure(r.checks, k) && Assigns(r.checks[k].counterexample, g, v)
  }

  lemma {:induction false} WitnessFound(checks: seq<Check>, g: Transfer)
    requires |g.inWidths| == |g.inputs|
    ensures var v := FirstCounterexample(checks, g);
            v.Some? ==> exists k: nat :: FirstFailure(checks, k) && Assigns(checks[k].counterexample, g, v.value)
  {
    var v := FirstCounterexample(checks, g);
    if checks != [] && v.Some? {
      var values := checks[0].counterexample;
      if Fails(checks[0]) {
        AssignsMasked(values, g);
        assert FirstFailure(checks, 0);
      } else {
        NotFailed(checks[0]);
        WitnessFound(checks[1..], g);
        var k: nat :| FirstFailure(checks[1..], k) && Assigns(checks[1..][k].counterexample, g, v.value);
        assert forall j :: 0 < j < k + 1 ==> checks[j] == checks[1..][j - 1];
        assert FirstFailure(checks, k + 1) && checks[k + 1] == checks[1..][k];
      }
    }
  }

  lemma NotFailed(check: Check)
    ensures Fails(check) <==> check.failed && check.counterexample != map[]
  {
    if check.counterexample != map[] { var register :| register in check.counterexample; }
  }

  lemma AssignsMasked(values: map<string, nat>, g: Transfer)
    requires |g.inWidths| == |g.inputs| && forall i :: 0 <= i < |g.inputs| ==> g.inputs[i] in values
    ensures Assigns(values, g, ValuesOf(values, g))
  {
    var raw := seq(|g.inputs|, i requires 0 <= i < |g.inputs| => ValueIn(values, g.inputs[i]));
    MaskedIff(raw, g.inWidths, ValuesOf(values, g));
  }

  lemma AssignsOnce(values: map<string, nat>, g: Transfer, v: Sample)
    requires |g.inWidths| == |g.inputs| && Assigns(values, g, v)
    ensures v == ValuesOf(values, g)
  {
    var raw := seq(|g.inputs|, i requires 0 <= i < |g.inputs| => ValueIn(values, g.inputs[i]));
    MaskedIff(raw, g.inWidths, v);
  }

  lemma {:induction false} FoundWitness(checks: seq<Check>, g: Transfer, k: nat, v: Sample)
    requires |g.inWidths| == |g.inputs| && FirstFailure(checks, k) && Assigns(checks[k].counterexample, g, v)
    ensures FirstCounterexample(checks, g) == Some(v)
  {
    NotFailed(checks[0]);
    if k == 0 {
      AssignsOnce(checks[0].counterexample, g, v);
    } else {
      assert forall j :: 0 <= j < k - 1 ==> checks[1..][j] == checks[j + 1];
      FoundWitness(checks[1..], g, k - 1, v);
    }
  }

  /** The sample read off a report is exactly the guest input the report gives away. */
  lemma CounterexampleIff(r: Report, g: Transfer, v: Sample)
    requires |g.inWidths| == |g.inputs|
    ensures GuestCounterexample(r, g) == Some(v) <==> Witnesses(r, g, v)
  {
    WitnessFound(r.checks, g);
    if Witnesses(r, g, v) {
      var k: nat :| FirstFailure(r.checks, k) && Assigns(r.checks[k].counterexample, g, v);
      FoundWitness(r.checks, g, k, v);
    }
  }

  /** The verifier accepts only equal sides, and a guest input its refusal gives away is one on which they differ. */
  ghost predicate Faithful(verify: Choice -> Report, g: Transfer, h: Transfer)
    requires WellFormed(g) && WellFormed(h)
  {
    forall c {:trigger verify(c)} :: Fitting(g, h, c) ==>
      && (verify(c).status == Equivalent ==> Equal(g, h, c))
      && (verify(c).status == Failed ==> forall v :: Witnesses(verify(c), g, v) ==> !AgreesOn(g, h, c, v))
  }

  /** Every question gets an answer, and every refusal gives a guest input away. */
  ghost predicate Conclusive(verify: Choice -> Report, g: Transfer, h: Transfer)
    requires WellFormed(g) && WellFormed(h)
  {
    forall c {:trigger verify(c)} :: Fitting(g, h, c) ==>
      verify(c).status == Equivalent || (verify(c).status == Failed && exists v :: Witnesses(verify(c), g, v))
  }

  // ---- the loop ----

  /** Each proposal agrees on the samples known when it was made and fails on the one it produced. */
  ghost predicate Progress(g: Transfer, h: Transfer, samples: seq<Sample>, proposals: seq<Choice>)
    requires WellFormed(g) && WellFormed(h)
  {
    && |samples| == |proposals| + 1 && (forall i :: 0 <= i < |samples| ==> |samples[i]| == |g.inputs|)
    && forall i :: 0 <= i < |proposals| ==>
         && WidthRespecting(g, h, proposals[i])
         && (forall j :: 0 <= j <= i ==> AgreesOn(g, h, proposals[i], samples[j]))
         && !AgreesOn(g, h, proposals[i], samples[i + 1])
  }

  /** No counterexample and no proposal repeats. */
  lemma ProgressNeverRepeats(g: Transfer, h: Transfer, samples: seq<Sample>, proposals: seq<Choice>)
    requires WellFormed(g) && WellFormed(h) && Progress(g, h, samples, proposals)
    ensures Distinct(samples) && Distinct(proposals)
  {
    forall i, j | 0 <= i < j < |samples| ensures samples[i] != samples[j] {
      assert AgreesOn(g, h, proposals[j - 1], samples[i]) && !AgreesOn(g, h, proposals[j - 1], samples[j - 1 + 1]);
    }
    forall i, j | 0 <= i < j < |proposals| ensures proposals[i] != proposals[j] {
      assert !AgreesOn(g, h, proposals[i], samples[i + 1]) && AgreesOn(g, h, proposals[j], samples[i + 1]);
    }
  }

  /** Each proposal fits and was refused with the next sample; no sample repeats. */
  ghost predicate Tried(g: Transfer, h: Transfer, verify: Choice -> Report, samples: seq<Sample>,
      proposals: seq<Choice>)
    requires WellFormed(g) && WellFormed(h)
  {
    && |samples| == |proposals| + 1 && Sized(g, samples) && Distinct(samples)
    && forall i :: 0 <= i < |proposals| ==>
         && Fitting(g, h, proposals[i]) && !AgreesOn(g, h, proposals[i], samples[i + 1])
         && verify(proposals[i]).status == Failed && Witnesses(verify(proposals[i]), g, samples[i + 1])
  }

  lemma TriedOnce(g: Transfer, h: Transfer, verify: Choice -> Report, samples: seq<Sample>, proposals: seq<Choice>)
    requires WellFormed(g) && WellFormed(h) && Tried(g, h, verify, samples, proposals)
    ensures Distinct(proposals)
  {
    forall i, j | 0 <= i < j < |proposals| ensures proposals[i] != proposals[j] {
      assert samples[i + 1] != samples[j + 1];
      CounterexampleIff(verify(proposals[i]), g, samples[i + 1]);
      CounterexampleIff(verify(proposals[i]), g, samples[j + 1]);
    }
  }

  lemma OneMoreTried(g: Transfer, h: Transfer, verify: Choice -> Report, samples: seq<Sample>, proposals: seq<Choice>,
      c: Choice, v: Sample)
    requires WellFormed(g) && WellFormed(h) && Tried(g, h, verify, samples, proposals)
    requires Fitting(g, h, c) && !AgreesOn(g, h, c, v) && |v| == |g.inputs| && v !in samples
    requires verify(c).status == Failed && Witnesses(verify(c), g, v)
    ensures Tried(g, h, verify, samples + [v], proposals + [c])
  {}

  /** A proposal refused with a known sample did not agree with the samples it was made for. */
  lemma RepeatedIsMixed(g: Transfer, h: Transfer, verify: Choice -> Report, samples: seq<Sample>, c: Choice)
    requires WellFormed(g) && WellFormed(h) && Faithful(verify, g, h) && Fitting(g, h, c)
    requires verify(c).status == Failed && exists v :: Witnesses(verify(c), g, v) && v in samples
    ensures !Consistent(g, h, samples, c)
  {
    var v :| Witnesses(verify(c), g, v) && v in samples;
    var i :| 0 <= i < |samples| && samples[i] == v;
    assert !AgreesOn(g, h, c, samples[i]);
  }

  /** Separately evaluated selectors that form no consistent bijection: what a repeated counterexample gives away. */
  ghost predicate MixedProposal(g: Transfer, h: Transfer, samples: seq<Sample>)
    requires WellFormed(g) && WellFormed(h)
  {
    exists c :: Selected(g, h, samples, c) && !Consistent(g, h, samples, c)
  }

  datatype Outcome = Found(choice: Choice) | NoBinding | GaveUp(detail: string)

  /** How the verdict on the last proposal ends the search. */
  ghost predicate Concludes(g: Transfer, report: Report, c: Choice, samples: seq<Sample>, r: Outcome)
    requires |g.inWidths| == |g.inputs|
  {
    match report.status
    case Equivalent => r == Found(c)
    case Unsupported => r == GaveUp("verification_unsupported")
    case Error => r == GaveUp("verification_error")
    case Failed =>
      if exists v :: Witnesses(report, g, v) then
        r == GaveUp("counterexample_repeated") && exists v :: Witnesses(report, g, v) && v in samples
      else r == GaveUp("counterexample_missing")
  }

  /** The search ends because nothing is left to propose, because of a verdict, or because of the limit. */
  ghost predicate Ends(g: Transfer, h: Transfer, verify: Choice -> Report, samples: seq<Sample>, r: Outcome)
    requires WellFormed(g) && WellFormed(h)
  {
    match r
    case NoBinding => forall c :: !Consistent(g, h, samples, c)
    case _ =>
      r == GaveUp("iteration_limit")
      || exists c :: Selected(g, h, samples, c) && Concludes(g, verify(c), c, samples, r)
  }

  /** The search starts from the zero input. */
  ghost predicate StartsAtZero(g: Transfer, samples: seq<Sample>) {
    samples != [] && |samples[0]| == |g.inputs| && forall i :: 0 <= i < |samples[0]| ==> samples[0][i] == 0
  }

  /** What a report on a proposal decides: the outcome, or else a guest input not known before. */
  method Judge(g: Transfer, report: Report, c: Choice, known: seq<Sample>)
    returns (verdict: Option<Outcome>, counterexample: Sample)
    requires |g.inWidths| == |g.inputs|
    ensures verdict.Some? ==> Concludes(g, report, c, known, verdict.value)
    ensures verdict.None? ==>
              && report.status == Failed && Witnesses(report, g, counterexample) && counterexample !in known
              && |counterexample| == |g.inputs|
  {
    counterexample := [];
    if report.status == Equivalent { return Some(Found(c)), []; }
    if report.status == Unsupported { return Some(GaveUp("verification_unsupported")), []; }
    if report.status == Error { return Some(GaveUp("verification_error")), []; }
    var sample := GuestCounterexample(report, g);
    WitnessedIff(report, g);
    if sample.None? { return Some(GaveUp("counterexample_missing")), []; }
    if sample.value in known { return Some(GaveUp("counterexample_repeated")), []; }
    return None, sample.value;
  }

  /**
   With selectors evaluated one by one an accepted binding is equal, though it may take a guest place twice, and no
   binding means that no bijection is equal; the search can also end on a repeated counterexample, which it cannot with
   one model for all selectors.
   */
  method Learn(g: Transfer, h: Transfer, solve: (Selectors, seq<Sample>) -> Option<Choice>, verify: Choice -> Report,
      maxIterations: nat)
    returns (r: Outcome, ghost samples: seq<Sample>, ghost proposals: seq<Choice>)
    requires WellFormed(g) && WellFormed(h) && SeparateSolver(solve, g, h) && Faithful(verify, g, h)
    ensures Tried(g, h, verify, samples, proposals) && StartsAtZero(g, samples) && |proposals| <= maxIterations
    ensures ExactSolver(solve, g, h) ==> Progress(g, h, samples, proposals)
    ensures Ends(g, h, verify, samples, r)
    ensures r.Found? ==> Fitting(g, h, r.choice) && Equal(g, h, r.choice)
    ensures r.Found? && ExactSolver(solve, g, h) ==> WidthRespecting(g, h, r.choice)
    ensures r.NoBinding? ==> forall c :: WidthRespecting(g, h, c) ==> !Equal(g, h, c)
    ensures r == GaveUp("iteration_limit") ==> |proposals| == maxIterations
    ensures r == GaveUp("counterexample_repeated") ==> MixedProposal(g, h, samples) && !ExactSolver(solve, g, h)
    ensures r.GaveUp? && Conclusive(verify, g, h) ==> r.detail in {"iteration_limit", "counterexample_repeated"}
  {
    var known: seq<Sample> := [seq(|g.inputs|, i => 0)];
    ghost var exact := ExactSolver(solve, g, h);
    samples, proposals := known, [];
    for n := 0 to maxIterations
      invariant samples == known && |proposals| == n && Tried(g, h, verify, samples, proposals)
      invariant StartsAtZero(g, samples) && (exact ==> Progress(g, h, samples, proposals))
    {
      var proposal := Synthesize(g, h, known, solve);
      if proposal.None? {
        forall c | WidthRespecting(g, h, c) ensures !Equal(g, h, c) { NotEqual(g, h, known, c); }
        return NoBinding, samples, proposals;
      }
      var c := proposal.value;
      SelectedFits(g, h, known, c);
      var verdict, counterexample := Judge(g, verify(c), c, known);
      if verdict.Some? {
        if verdict.value == GaveUp("counterexample_repeated") { RepeatedIsMixed(g, h, verify, known, c); }
        return verdict.value, samples, proposals;
      }
      OneMoreTried(g, h, verify, samples, proposals, c, counterexample);
      if exact { MoreProgress(g, h, samples, proposals, c, counterexample); }
      known := known + [counterexample];
      samples, proposals := known, proposals + [c];
    }
    r := GaveUp("iteration_limit");
  }

  lemma WitnessedIff(r: Report, g: Transfer)
    requires |g.inWidths| == |g.inputs|
    ensures var v := GuestCounterexample(r, g);
            if v.Some? then Witnesses(r, g, v.value) && |v.value| == |g.inputs|
            else forall v :: !Witnesses(r, g, v)
  {
    forall v ensures GuestCounterexample(r, g) == Some(v) <==> Witnesses(r, g, v) { CounterexampleIff(r, g, v); }
  }

  lemma NotEqual(g: Transfer, h: Transfer, samples: seq<Sample>, c: Choice)
    requires WellFormed(g) && WellFormed(h) && WidthRespecting(g, h, c) && !Consistent(g, h, samples, c)
    ensures !Equal(g, h, c)
  {}

  lemma MoreProgress(g: Transfer, h: Transfer, samples: seq<Sample>, proposals: seq<Choice>, c: Choice, v: Sample)
    requires WellFormed(g) && WellFormed(h) && Progress(g, h, samples, proposals)
    requires WidthRespecting(g, h, c) && AgreesOnAll(g, h, c, samples) && |v| == |g.inputs| && !AgreesOn(g, h, c, v)
    ensures Progress(g, h, samples + [v], proposals + [c])
  {}

  // ---- how many iterations can be needed ----

  lemma MembersWithout<T>(s: seq<T>, t: seq<T>, k: nat)
    requires s != [] && Distinct(s) && k < |t| && t[k] == s[|s| - 1] && forall x :: x in s ==> x in t
    ensures forall x :: x in s[..|s| - 1] ==> x in Without(t, k)
  {
    var front := s[..|s| - 1];
    assert s[|s| - 1] !in front;
    forall x | x in front ensures x in Without(t, k) {
      assert x in s;
      var i :| 0 <= i < |t| && t[i] == x;
      assert Without(t, k)[if i < k then i else i - 1] == x;
    }
  }

  lemma {:induction false} DistinctWithin<T>(s: seq<T>, t: seq<T>)
    requires Distinct(s) && forall x :: x in s ==> x in t
    ensures |s| <= |t|
    decreases |s|
  {
    if s != [] {
      assert s[|s| - 1] in t;
      var k :| 0 <= k < |t| && t[k] == s[|s| - 1];
      MembersWithout(s, t, k);
      DistinctWithin(s[..|s| - 1], Without(t, k));
    }
  }

  function WithOutputs(ins: seq<nat>, outs: seq<seq<nat>>): (r: seq<Choice>)
    ensures |r| == |outs| && forall i :: 0 <= i < |outs| ==> r[i] == Choice(ins, outs[i])
  {
    seq(|outs|, i requires 0 <= i < |outs| => Choice(ins, outs[i]))
  }

  function AllChoices(ins: seq<seq<nat>>, outs: seq<seq<nat>>): seq<Choice> {
    if ins == [] then [] else AllChoices(ins[..|ins| - 1], outs) + WithOutputs(ins[|ins| - 1], outs)
  }

  lemma {:induction false} ChoicesListed(ins: seq<seq<nat>>, outs: seq<seq<nat>>)
    ensures |AllChoices(ins, outs)| == |ins| * |outs|
    ensures forall c: Choice :: c.ins in ins && c.outs in outs ==> c in AllChoices(ins, outs)
  {
    if ins != [] {
      var front, last := ins[..|ins| - 1], ins[|ins| - 1];
      ChoicesListed(front, outs);
      assert |ins| * |outs| == |front| * |outs| + |outs|;
      forall c: Choice | c.ins in ins && c.outs in outs ensures c in AllChoices(ins, outs) {
        if c.ins == last {
          var i :| 0 <= i < |outs| && outs[i] == c.outs;
          assert WithOutputs(last, outs)[i] == c;
        } else {
          assert ins == front + [last];
        }
      }
    }
  }

  /** The loop cannot propose more bindings than there are width-preserving ones. */
  lemma ProposalsBounded(g: Transfer, h: Transfer, samples: seq<Sample>, proposals: seq<Choice>, ins: seq<seq<nat>>,
      outs: seq<seq<nat>>)
    requires WellFormed(g) && WellFormed(h) && Progress(g, h, samples, proposals)
    requires forall p :: p in ins <==> Preserves(p, g.inWidths, h.inWidths)
    requires forall p :: p in outs <==> Preserves(p, g.outWidths, h.outWidths)
    ensures |proposals| <= |ins| * |outs|
  {
    ProgressNeverRepeats(g, h, samples, proposals);
    ChoicesListed(ins, outs);
    DistinctWithin(proposals, AllChoices(ins, outs));
  }

  // ---- the whole solver ----

  function ToProposal(g: Transfer, h: Transfer, c: Choice): Proposal
    requires |g.inWidths| == |g.inputs| && |g.outWidths| == |g.outputs| && |h.inWidths| == |h.inputs|
    requires |h.outWidths| == |h.outputs|
    requires Fitting(g, h, c)
  {
    Proposal(Named(g.inputs, h.inputs, c.ins), Named(g.outputs, h.outputs, c.outs))
  }

  /** The transfers describe the registers of the problem. */
  ghost predicate Describes(g: Transfer, h: Transfer, p: Problem) {
    && WellFormed(g) && WellFormed(h)
    && g.inputs == p.guestIn && g.outputs == p.guestOut && h.inputs == p.hostIn && h.outputs == p.hostOut
    && Some(g.inWidths) == WidthsOf(p.guestIn, p.guestWidth) && Some(g.outWidths) == WidthsOf(p.guestOut, p.guestWidth)
    && Some(h.inWidths) == WidthsOf(p.hostIn, p.hostWidth) && Some(h.outWidths) == WidthsOf(p.hostOut, p.hostWidth)
  }

  function Asked(verify: Proposal -> Report, g: Transfer, h: Transfer): Choice -> Report
    requires |g.inWidths| == |g.inputs| && |g.outWidths| == |g.outputs| && |h.inWidths| == |h.inputs|
    requires |h.outWidths| == |h.outputs|
  {
    (c: Choice) => if Fitting(g, h, c) then verify(ToProposal(g, h, c)) else Report(Error, [])
  }

  datatype Extraction = Extracted(guest: Transfer, host: Transfer) | NotExtracted(detail: string)

  /** What a search by proposing and learning answers. */
  ghost predicate Answers(g: Transfer, h: Transfer, solve: (Selectors, seq<Sample>) -> Option<Choice>, r: Result)
    requires WellFormed(g) && WellFormed(h)
  {
    match r
    case Bound(q) =>
      exists c :: Fitting(g, h, c) && Equal(g, h, c) && q == ToProposal(g, h, c)
                  && (ExactSolver(solve, g, h) ==> WidthRespecting(g, h, c))
    case Unsat => forall c :: WidthRespecting(g, h, c) ==> !Equal(g, h, c)
    case Fallback(detail) => detail == "counterexample_repeated" ==> !ExactSolver(solve, g, h)
  }

  method SolveByLearning(g: Transfer, h: Transfer, solve: (Selectors, seq<Sample>) -> Option<Choice>,
      verify: Proposal -> Report, maxIterations: nat)
    returns (r: Result)
    requires WellFormed(g) && WellFormed(h) && SeparateSolver(solve, g, h) && Faithful(Asked(verify, g, h), g, h)
    ensures Answers(g, h, solve, r)
  {
    var outcome;
    ghost var samples, proposals;
    outcome, samples, proposals := Learn(g, h, solve, Asked(verify, g, h), maxIterations);
    match outcome
    case Found(c) => r := Bound(ToProposal(g, h, c));
    case NoBinding => r := Unsat;
    case GaveUp(why) => r := Fallback(why);
  }

  method Solve(p: Problem, needsSearch: bool, transfers: Extraction, solve: (Selectors, seq<Sample>) -> Option<Choice>,
      verify: Proposal -> Report, maxIterations: nat)
    returns (r: Result)
    requires Distinct(p.guestIn) && Distinct(p.hostIn)
    requires transfers.Extracted? ==>
               var (g, h) := (transfers.guest, transfers.host);
               Describes(g, h, p) && SeparateSolver(solve, g, h) && Faithful(Asked(verify, g, h), g, h)
    ensures !Eligible(p) ==> r.Fallback? && Ineligible(p, r.detail)
    ensures Eligible(p) && needsSearch ==>
              && r != Fallback("selector_domain_empty")
              && (r.Bound? ==> Admissible(p, r.proposal) && verify(r.proposal).status == Equivalent)
              && (r.Unsat? ==> forall q :: Admissible(p, q) ==> verify(q).status == Failed)
    ensures Eligible(p) && !needsSearch && transfers.NotExtracted? ==> r == Fallback(transfers.detail)
    ensures Eligible(p) && !needsSearch && transfers.Extracted? ==> Answers(transfers.guest, transfers.host, solve, r)
  {
    var detail := EligibilityDetail(p);
    if detail.Some? { return Fallback(detail.value); }
    if needsSearch {
      var status: Proposal -> Status := q => verify(q).status;
      assert forall q :: status(q) == verify(q).status;
      r := SolveWithVerifier(p, status);
    } else if transfers.NotExtracted? {
      r := Fallback(transfers.detail);
    } else {
      r := SolveByLearning(transfers.guest, transfers.host, solve, verify, maxIterations);
    }
  }
}
