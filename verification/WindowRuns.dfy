/** What a window's slice determines about its runs, and exactly when it determines the outputs. */
module WindowRuns {
  import opened Wrappers
  import opened Liveness
  import opened Runs
  import opened WindowSlice

  // ---- runs of a window ----

  /** Registers and memory before instruction `k`. */
  function Before<V, M>(m: Machine<V, M>, window: seq<Inst>, regs: Regs<V>, mem: M, k: nat): (Regs<V>, M)
    requires k <= |window|
  {
    if k == 0 then (regs, mem) else
    var (r, n) := Before(m, window, regs, mem, k - 1);
    var x := m.exec(window[k - 1].address, r, n);
    (x.regs, x.mem)
  }

  /** Where control goes and which values are written, memory aside. */
  ghost predicate SameControl<V(!new), M(!new)>(x: Outcome<V, M>, y: Outcome<V, M>, families: set<Family>) {
    && (x.Next? <==> y.Next?) && (x.Next? ==> x.address == y.address)
    && AgreeOn(families, x.regs, y.regs)
  }

  /** Only a storing instruction changes memory, and only a loading one depends on it. */
  ghost predicate UsesMemory<V(!new), M(!new)>(m: Machine<V, M>, arch: Arch, inst: Inst) {
    && (!inst.stores ==> forall regs: Regs<V>, mem: M :: m.exec(inst.address, regs, mem).mem == mem)
    && (!inst.loads ==> forall r: Regs<V>, s: Regs<V>, mem: M, mem': M :: AgreeOn(Reads(arch, inst), r, s) ==>
          SameControl(m.exec(inst.address, r, mem), m.exec(inst.address, s, mem'), Writes(arch, inst)))
  }

  ghost predicate RespectedAt<V(!new), M(!new)>(m: Machine<V, M>, arch: Arch, inst: Inst) {
    KeepsOthers(m, arch, inst) && DependsOnReads(m, arch, inst) && UsesMemory(m, arch, inst)
  }

  ghost predicate WindowRespected<V(!new), M(!new)>(m: Machine<V, M>, arch: Arch, window: seq<Inst>) {
    forall k :: 0 <= k < |window| ==> RespectedAt(m, arch, window[k])
  }

  // ---- what the inputs determine ----

  /** Families, and whether memory, that two runs are bound to share. */
  datatype Known = Known(families: set<Family>, memory: bool)

  predicate InputsKnown(arch: Arch, inst: Inst, known: Known) {
    Reads(arch, inst) <= known.families && (inst.loads ==> known.memory)
  }

  function KnownAfter(arch: Arch, inst: Inst, known: Known): Known {
    Known(if InputsKnown(arch, inst, known) then known.families + Writes(arch, inst)
        else known.families - Writes(arch, inst),
          known.memory && (inst.stores ==> Reads(arch, inst) <= known.families))
  }

  /** What is shared before instruction `k` by runs that start with `start` and memory in common. */
  function KnownAt(arch: Arch, window: seq<Inst>, start: set<Family>, k: nat): Known
    requires k <= |window|
  {
    if k == 0 then Known(start, true) else KnownAfter(arch, window[k - 1], KnownAt(arch, window, start, k - 1))
  }

  ghost predicate Share<V(!new), M(!new)>(known: Known, p: (Regs<V>, M), q: (Regs<V>, M)) {
    AgreeOn(known.families, p.0, q.0) && (known.memory ==> p.1 == q.1)
  }

  lemma ShareStep<V(!new), M(!new)>(m: Machine<V, M>, arch: Arch, inst: Inst, known: Known, p: (Regs<V>, M),
      q: (Regs<V>, M))
    requires RespectedAt(m, arch, inst) && Share(known, p, q)
    ensures var x, y := m.exec(inst.address, p.0, p.1), m.exec(inst.address, q.0, q.1);
            && Share(KnownAfter(arch, inst, known), (x.regs, x.mem), (y.regs, y.mem))
            && (InputsKnown(arch, inst, known) ==> SameControl(x, y, Writes(arch, inst)))
  {
    var x, y := m.exec(inst.address, p.0, p.1), m.exec(inst.address, q.0, q.1);
    if Reads(arch, inst) <= known.families {
      assert AgreeOn(Reads(arch, inst), p.0, q.0);
      if known.memory { assert SameEffect(x, y, Writes(arch, inst)); }
    }
  }

  /** Two runs from one memory that share the starting families share everything that is known. */
  lemma {:induction false} RunsShare<V(!new), M(!new)>(m: Machine<V, M>, arch: Arch, window: seq<Inst>,
      start: set<Family>, r: Regs<V>, s: Regs<V>, mem: M, k: nat)
    requires WindowRespected(m, arch, window) && AgreeOn(start, r, s) && k <= |window|
    ensures Share(KnownAt(arch, window, start, k), Before(m, window, r, mem, k), Before(m, window, s, mem, k))
  {
    if k > 0 {
      RunsShare(m, arch, window, start, r, s, mem, k - 1);
      ShareStep(m, arch, window[k - 1], KnownAt(arch, window, start, k - 1),
                Before(m, window, r, mem, k - 1), Before(m, window, s, mem, k - 1));
    }
  }

  // ---- the condition ----

  function Inputs(arch: Arch, window: seq<Inst>, terminal: bool, seed: set<Family>): set<Family> {
    Needed(arch, window, terminal, seed, 0)
  }

  /** Whatever is stored before a load that the slice takes comes from families the inputs determine. */
  predicate StoresCovered(arch: Arch, window: seq<Inst>, terminal: bool, seed: set<Family>) {
    forall k, l |
      0 <= k < l < |window| && window[k].stores && window[l].loads && Takes(arch, window, terminal, seed, l) ::
      Reads(arch, window[k]) <= KnownAt(arch, window, Inputs(arch, window, terminal, seed), k).families
  }

  /** Up to the last load the slice takes, memory is known. */
  lemma {:induction false} MemoryKnown(arch: Arch, window: seq<Inst>, terminal: bool, seed: set<Family>, l: nat, k: nat)
    requires StoresCovered(arch, window, terminal, seed) && k <= l < |window|
    requires window[l].loads && Takes(arch, window, terminal, seed, l)
    ensures KnownAt(arch, window, Inputs(arch, window, terminal, seed), k).memory
  {
    if k > 0 { MemoryKnown(arch, window, terminal, seed, l, k - 1); }
  }

  lemma KnownPasses(arch: Arch, window: seq<Inst>, terminal: bool, seed: set<Family>, k: nat, known: Known)
    requires k < |window| && Needed(arch, window, terminal, seed, k) <= known.families
    requires Takes(arch, window, terminal, seed, k) && window[k].loads ==> known.memory
    ensures Needed(arch, window, terminal, seed, k + 1) <= KnownAfter(arch, window[k], known).families
    ensures Takes(arch, window, terminal, seed, k) ==> InputsKnown(arch, window[k], known)
  {
    var w, n := Writes(arch, window[k]), Needed(arch, window, terminal, seed, k + 1);
    assert forall g :: g in w && g in n ==> g in w * n;
  }

  /** Under the condition every needed family is known, and so is all that the instructions taken depend on. */
  lemma {:induction false} NeededIsKnown(arch: Arch, window: seq<Inst>, terminal: bool, seed: set<Family>, k: nat)
    requires StoresCovered(arch, window, terminal, seed) && k <= |window|
    ensures Needed(arch, window, terminal, seed, k)
            <= KnownAt(arch, window, Inputs(arch, window, terminal, seed), k).families
    ensures k > 0 && Takes(arch, window, terminal, seed, k - 1) ==>
              InputsKnown(arch, window[k - 1], KnownAt(arch, window, Inputs(arch, window, terminal, seed), k - 1))
  {
    if k > 0 {
      NeededIsKnown(arch, window, terminal, seed, k - 1);
      if Takes(arch, window, terminal, seed, k - 1) && window[k - 1].loads {
        MemoryKnown(arch, window, terminal, seed, k - 1, k - 1);
      }
      KnownPasses(arch, window, terminal, seed, k - 1,
          KnownAt(arch, window, Inputs(arch, window, terminal, seed), k - 1));
    }
  }

  // ---- the slice is sufficient ----

  /** Equal seeded families, and the same decision of a terminal branch. */
  ghost predicate SameResult<V(!new), M(!new)>(m: Machine<V, M>, window: seq<Inst>, terminal: bool, seed: set<Family>,
      r: Regs<V>, s: Regs<V>, mem: M)
    requires window != []
  {
    var n := |window| - 1;
    var p, q := Before(m, window, r, mem, n), Before(m, window, s, mem, n);
    var x, y := m.exec(window[n].address, p.0, p.1), m.exec(window[n].address, q.0, q.1);
    AgreeOn(seed, x.regs, y.regs) && (terminal ==> (x.Next? <==> y.Next?) && (x.Next? ==> x.address == y.address))
  }

  /** Entry states that agree on the slice, with one memory, end with the same seeded families and decision. */
  lemma SliceIsSufficient<V(!new), M(!new)>(m: Machine<V, M>, arch: Arch, window: seq<Inst>, terminal: bool,
      seed: set<Family>, r: Regs<V>, s: Regs<V>, mem: M)
    requires window != [] && WindowRespected(m, arch, window) && StoresCovered(arch, window, terminal, seed)
    requires AgreeOn(Inputs(arch, window, terminal, seed), r, s)
    ensures SameResult(m, window, terminal, seed, r, s, mem)
  {
    var n, start := |window| - 1, Inputs(arch, window, terminal, seed);
    var known := KnownAt(arch, window, start, n);
    RunsShare(m, arch, window, start, r, s, mem, n);
    NeededIsKnown(arch, window, terminal, seed, n + 1);
    assert Needed(arch, window, terminal, seed, n + 1) == seed;
    LastStep(m, arch, window, terminal, seed, r, s, mem, known);
  }

  lemma LastStep<V(!new), M(!new)>(m: Machine<V, M>, arch: Arch, window: seq<Inst>, terminal: bool, seed: set<Family>,
      r: Regs<V>, s: Regs<V>, mem: M, known: Known)
    requires window != [] && WindowRespected(m, arch, window)
    requires var n := |window| - 1; Share(known, Before(m, window, r, mem, n), Before(m, window, s, mem, n))
    requires seed <= KnownAfter(arch, window[|window| - 1], known).families
    requires terminal ==> InputsKnown(arch, window[|window| - 1], known)
    ensures SameResult(m, window, terminal, seed, r, s, mem)
  {
    var n := |window| - 1;
    ShareStep(m, arch, window[n], known, Before(m, window, r, mem, n), Before(m, window, s, mem, n));
  }

  // ---- and only then ----

  lemma MemoryUnknownOnce(arch: Arch, inst: Inst, known: Known)
    requires !known.memory
    ensures !KnownAfter(arch, inst, known).memory
  {}

  lemma {:induction false} MemoryStaysUnknown(arch: Arch, window: seq<Inst>, start: set<Family>, j: nat, k: nat)
    requires j <= k <= |window| && !KnownAt(arch, window, start, j).memory
    ensures !KnownAt(arch, window, start, k).memory
  {
    if j < k {
      MemoryStaysUnknown(arch, window, start, j, k - 1);
      MemoryUnknownOnce(arch, window[k - 1], KnownAt(arch, window, start, k - 1));
    }
  }

  /** A terminal branch decides on something unknown. */
  predicate DecisionUnknown(arch: Arch, window: seq<Inst>, terminal: bool, start: set<Family>)
    requires window != []
  {
    terminal && !InputsKnown(arch, window[|window| - 1], KnownAt(arch, window, start, |window| - 1))
  }

  /** A family the slice needs before an instruction, not known there, leaves one it needs afterwards, or the
      instruction, unknown. */
  lemma UnknownPasses(f: Family, needed: set<Family>, w: set<Family>, inputs: set<Family>, known: set<Family>,
      shared: bool)
    requires f !in known && (f in needed || f in inputs)
    requires f in needed && f in w ==> f in inputs
    requires shared ==> inputs <= known
    requires f in inputs ==> w * needed != {}
    ensures !(needed <= if shared then known + w else known - w)
  {
    if f in inputs {
      var g :| g in w * needed;
      assert g in needed && g !in known - w;
    }
  }

  lemma UnknownStep(arch: Arch, window: seq<Inst>, terminal: bool, seed: set<Family>, start: set<Family>, k: nat)
    requires k < |window|
    requires !(Needed(arch, window, terminal, seed, k) <= KnownAt(arch, window, start, k).families)
    ensures !(Needed(arch, window, terminal, seed, k + 1) <= KnownAt(arch, window, start, k + 1).families)
            || (k == |window| - 1 && DecisionUnknown(arch, window, terminal, start))
  {
    var w, n, known := Writes(arch, window[k]), Needed(arch, window, terminal, seed, k + 1),
      KnownAt(arch, window, start, k);
    var f :| f in Needed(arch, window, terminal, seed, k) && f !in known.families;
    assert forall g :: g in w && g in n ==> g in w * n;
    var shared := InputsKnown(arch, window[k], known);
    if w * n != {} {
      UnknownPasses(f, n, w, Reads(arch, window[k]), known.families, shared);
    } else if f in n {
      UnknownPasses(f, n, w, {}, known.families, shared);
    }
  }

  /** A needed family that is not known leaves a seeded family or the decision unknown. */
  lemma {:induction false} UnknownReachesEnd(arch: Arch, window: seq<Inst>, terminal: bool, seed: set<Family>,
      start: set<Family>, k: nat)
    requires k <= |window| && window != []
    requires !(Needed(arch, window, terminal, seed, k) <= KnownAt(arch, window, start, k).families)
    ensures !(seed <= KnownAt(arch, window, start, |window|).families) || DecisionUnknown(arch, window, terminal, start)
    decreases |window| - k
  {
    if k < |window| {
      UnknownStep(arch, window, terminal, seed, start, k);
      if !DecisionUnknown(arch, window, terminal, start) {
        UnknownReachesEnd(arch, window, terminal, seed, start, k + 1);
      }
    }
  }

  lemma UnknownLoad(arch: Arch, window: seq<Inst>, terminal: bool, seed: set<Family>, start: set<Family>, l: nat)
    requires l < |window| && window[l].loads && Takes(arch, window, terminal, seed, l)
    requires !KnownAt(arch, window, start, l).memory
    ensures !(seed <= KnownAt(arch, window, start, |window|).families) || DecisionUnknown(arch, window, terminal, start)
  {
    var w, n := Writes(arch, window[l]), Needed(arch, window, terminal, seed, l + 1);
    if w * n != {} {
      var g :| g in w * n;
      assert g !in KnownAt(arch, window, start, l + 1).families;
      UnknownReachesEnd(arch, window, terminal, seed, start, l + 1);
    }
  }

  lemma StoreForgets(arch: Arch, window: seq<Inst>, start: set<Family>, k: nat)
    requires k < |window| && window[k].stores && !(Reads(arch, window[k]) <= KnownAt(arch, window, start, k).families)
    ensures !KnownAt(arch, window, start, k + 1).memory
  {}

  lemma UncoveredStore(arch: Arch, window: seq<Inst>, terminal: bool, seed: set<Family>, k: nat, l: nat)
    requires k < l < |window| && window[k].stores && window[l].loads && Takes(arch, window, terminal, seed, l)
    requires !(Reads(arch, window[k]) <= KnownAt(arch, window, Inputs(arch, window, terminal, seed), k).families)
    ensures var start := Inputs(arch, window, terminal, seed);
            !(seed <= KnownAt(arch, window, start, |window|).families) || DecisionUnknown(arch, window, terminal, start)
  {
    var start := Inputs(arch, window, terminal, seed);
    StoreForgets(arch, window, start, k);
    MemoryStaysUnknown(arch, window, start, k + 1, l);
    UnknownLoad(arch, window, terminal, seed, start, l);
  }

  lemma UncoveredLeavesUnknown(arch: Arch, window: seq<Inst>, terminal: bool, seed: set<Family>)
    requires window != [] && !StoresCovered(arch, window, terminal, seed)
    ensures var start := Inputs(arch, window, terminal, seed);
            !(seed <= KnownAt(arch, window, start, |window|).families) || DecisionUnknown(arch, window, terminal, start)
  {
    var k: nat, l: nat :|
      k < l < |window| && window[k].stores && window[l].loads && Takes(arch, window, terminal, seed, l)
      && !(Reads(arch, window[k]) <= KnownAt(arch, window, Inputs(arch, window, terminal, seed), k).families);
    UncoveredStore(arch, window, terminal, seed, k, l);
  }

  // ---- a machine that passes every difference on ----

  function IndexOf(window: seq<Inst>, address: int): (k: nat)
    ensures k <= |window| && (k < |window| ==> window[k].address == address)
  {
    if window == [] || window[0].address == address then 0 else 1 + IndexOf(window[1..], address)
  }

  lemma {:induction false} IndexOfAddress(window: seq<Inst>, k: nat)
    requires DistinctAddresses(window) && k < |window|
    ensures IndexOf(window, window[k].address) == k
    decreases k
  {
    if k > 0 {
      assert window[0].address != window[k].address;
      var rest := window[1..];
      forall i, j | 0 <= i < j < |rest| ensures rest[i].address != rest[j].address {
        assert window[i + 1].address != window[j + 1].address;
      }
      IndexOfAddress(rest, k - 1);
    }
  }

  /** Is anything the instruction depends on marked? */
  ghost predicate Marked(arch: Arch, inst: Inst, regs: Regs<bool>, mem: bool) {
    (exists f :: f in Reads(arch, inst) && regs(f)) || (inst.loads && mem)
  }

  ghost function MarkStep(arch: Arch, inst: Inst, regs: Regs<bool>, mem: bool): Outcome<bool, bool> {
    var marked := Marked(arch, inst, regs, mem);
    Next(if marked && inst.flow == Conditional then 1 else 0,
         f => if f in Writes(arch, inst) then marked else regs(f),
         mem || (inst.stores && exists f :: f in Reads(arch, inst) && regs(f)))
  }

  /** Every written family and the memory get marked when an input is; a conditional branch decides on it. */
  ghost function Tracker(arch: Arch, window: seq<Inst>): Machine<bool, bool> {
    Machine((address: int, regs: Regs<bool>, mem: bool) =>
      var k := IndexOf(window, address);
      if k < |window| then MarkStep(arch, window[k], regs, mem) else Exit(regs, mem))
  }

  lemma TrackerStep(arch: Arch, window: seq<Inst>, k: nat, regs: Regs<bool>, mem: bool)
    requires DistinctAddresses(window) && k < |window|
    ensures Tracker(arch, window).exec(window[k].address, regs, mem) == MarkStep(arch, window[k], regs, mem)
  {
    IndexOfAddress(window, k);
  }

  lemma MarkedAlike(arch: Arch, inst: Inst, r: Regs<bool>, s: Regs<bool>, mem: bool, mem': bool)
    requires AgreeOn(Reads(arch, inst), r, s) && (inst.loads ==> mem == mem')
    ensures Marked(arch, inst, r, mem) <==> Marked(arch, inst, s, mem')
    ensures (exists f :: f in Reads(arch, inst) && r(f)) <==> exists f :: f in Reads(arch, inst) && s(f)
  {}

  lemma TrackerRespects(arch: Arch, window: seq<Inst>)
    requires DistinctAddresses(window)
    ensures WindowRespected(Tracker(arch, window), arch, window)
  {
    var m := Tracker(arch, window);
    forall k | 0 <= k < |window| ensures RespectedAt(m, arch, window[k]) {
      var inst := window[k];
      forall regs: Regs<bool>, mem: bool
        ensures m.exec(inst.address, regs, mem) == MarkStep(arch, inst, regs, mem)
      {
        TrackerStep(arch, window, k, regs, mem);
      }
      forall r: Regs<bool>, s: Regs<bool>, mem: bool, mem': bool
        | AgreeOn(Reads(arch, inst), r, s) && (inst.loads ==> mem == mem')
        ensures SameControl(m.exec(inst.address, r, mem), m.exec(inst.address, s, mem'), Writes(arch, inst))
        ensures mem == mem' ==> m.exec(inst.address, r, mem).mem == m.exec(inst.address, s, mem').mem
      {
        MarkedAlike(arch, inst, r, s, mem, mem');
      }
    }
  }

  /** Exactly what is not known. */
  /** Marks on every family but the given ones. */
  function Unknown(start: set<Family>): Regs<bool> { (f: Family) => f !in start }

  function NoMarks(): Regs<bool> { (f: Family) => false }

  ghost predicate MarksUnknown(known: Known, p: (Regs<bool>, bool)) {
    (forall f :: p.0(f) <==> f !in known.families) && (p.1 <==> !known.memory)
  }

  lemma MarkUnknownStep(arch: Arch, inst: Inst, known: Known, p: (Regs<bool>, bool))
    requires MarksUnknown(known, p)
    ensures Marked(arch, inst, p.0, p.1) <==> !InputsKnown(arch, inst, known)
    ensures var x := MarkStep(arch, inst, p.0, p.1); MarksUnknown(KnownAfter(arch, inst, known), (x.regs, x.mem))
  {
    assert (exists f :: f in Reads(arch, inst) && p.0(f)) <==> !(Reads(arch, inst) <= known.families);
  }

  /** The machine marks what is unknown after an instruction if what is unknown before it is marked. */
  ghost predicate KeepsMarks(m: Machine<bool, bool>, arch: Arch, inst: Inst) {
    forall known: Known, regs: Regs<bool>, mem: bool
      {:trigger KnownAfter(arch, inst, known), m.exec(inst.address, regs, mem)} ::
      MarksUnknown(known, (regs, mem)) ==>
        var x := m.exec(inst.address, regs, mem);
        MarksUnknown(KnownAfter(arch, inst, known), (x.regs, x.mem))
  }

  lemma TrackerKeepsMarks(arch: Arch, window: seq<Inst>, k: nat)
    requires DistinctAddresses(window) && k < |window|
    ensures KeepsMarks(Tracker(arch, window), arch, window[k])
  {
    forall known: Known, regs: Regs<bool>, mem: bool | MarksUnknown(known, (regs, mem))
      ensures var x := Tracker(arch, window).exec(window[k].address, regs, mem);
              MarksUnknown(KnownAfter(arch, window[k], known), (x.regs, x.mem))
    {
      TrackerStep(arch, window, k, regs, mem);
      MarkUnknownStep(arch, window[k], known, (regs, mem));
    }
  }

  lemma {:induction false} MarksFollow(m: Machine<bool, bool>, arch: Arch, window: seq<Inst>, start: set<Family>,
      r: Regs<bool>, k: nat)
    requires (forall j :: 0 <= j < |window| ==> KeepsMarks(m, arch, window[j])) && k <= |window|
    requires MarksUnknown(Known(start, true), (r, false))
    ensures MarksUnknown(KnownAt(arch, window, start, k), Before(m, window, r, false, k))
  {
    if k > 0 {
      MarksFollow(m, arch, window, start, r, k - 1);
      assert KeepsMarks(m, arch, window[k - 1]);
    }
  }

  lemma TrackerMarks(arch: Arch, window: seq<Inst>, start: set<Family>, k: nat)
    requires DistinctAddresses(window) && k <= |window|
    ensures MarksUnknown(KnownAt(arch, window, start, k),
              Before(Tracker(arch, window), window, Unknown(start), false, k))
  {
    forall j: nat | j < |window| ensures KeepsMarks(Tracker(arch, window), arch, window[j]) {
      TrackerKeepsMarks(arch, window, j);
    }
    MarksFollow(Tracker(arch, window), arch, window, start, Unknown(start), k);
  }

  /** A run without marks never gets one. */
  lemma {:induction false} TrackerStaysClean(arch: Arch, window: seq<Inst>, k: nat)
    requires DistinctAddresses(window) && k <= |window|
    ensures var p := Before(Tracker(arch, window), window, NoMarks(), false, k); (forall f :: !p.0(f)) && !p.1
  {
    if k > 0 {
      var p := Before(Tracker(arch, window), window, NoMarks(), false, k - 1);
      TrackerStaysClean(arch, window, k - 1);
      TrackerStep(arch, window, k - 1, p.0, p.1);
    }
  }

  /** A window whose stores are not covered has a machine and two entry states that agree on the slice and end
      differently. */
  lemma UncoveredIsNotSufficient(arch: Arch, window: seq<Inst>, terminal: bool, seed: set<Family>)
    returns (m: Machine<bool, bool>)
    requires window != [] && DistinctAddresses(window) && !StoresCovered(arch, window, terminal, seed)
    requires terminal ==> window[|window| - 1].flow == Conditional
    ensures WindowRespected(m, arch, window)
    ensures var start := Inputs(arch, window, terminal, seed);
            && AgreeOn(start, Unknown(start), NoMarks())
            && !SameResult(m, window, terminal, seed, Unknown(start), NoMarks(), false)
  {
    var n, start := |window| - 1, Inputs(arch, window, terminal, seed);
    m := Tracker(arch, window);
    TrackerRespects(arch, window);
    UncoveredLeavesUnknown(arch, window, terminal, seed);
    TrackerMarks(arch, window, start, n);
    TrackerStaysClean(arch, window, n);
    DifferenceShows(arch, window, terminal, seed, start);
  }

  lemma DifferenceShows(arch: Arch, window: seq<Inst>, terminal: bool, seed: set<Family>, start: set<Family>)
    requires window != [] && DistinctAddresses(window) && (terminal ==> window[|window| - 1].flow == Conditional)
    requires !(seed <= KnownAt(arch, window, start, |window|).families)
             || DecisionUnknown(arch, window, terminal, start)
    ensures !SameResult(Tracker(arch, window), window, terminal, seed, Unknown(start), NoMarks(),
            false)
  {
    var n, m := |window| - 1, Tracker(arch, window);
    var p := Before(m, window, Unknown(start), false, n);
    var q := Before(m, window, NoMarks(), false, n);
    TrackerMarks(arch, window, start, n);
    TrackerStaysClean(arch, window, n);
    TrackerStep(arch, window, n, p.0, p.1);
    TrackerStep(arch, window, n, q.0, q.1);
    MarkUnknownStep(arch, window[n], KnownAt(arch, window, start, n), p);
    var x, y := MarkStep(arch, window[n], p.0, p.1), MarkStep(arch, window[n], q.0, q.1);
    assert forall f :: !y.regs(f);
    if !(seed <= KnownAt(arch, window, start, |window|).families) {
      var f :| f in seed && f !in KnownAt(arch, window, start, |window|).families;
      assert x.regs(f) && !y.regs(f);
    }
  }

  /** On every machine that respects the recorded effects, the slice determines outputs and terminal decision. */
  ghost predicate Sufficient(arch: Arch, window: seq<Inst>, terminal: bool, seed: set<Family>)
    requires window != []
  {
    forall m: Machine<bool, bool>, r: Regs<bool>, s: Regs<bool>, mem: bool ::
      WindowRespected(m, arch, window) && AgreeOn(Inputs(arch, window, terminal, seed), r, s) ==>
        SameResult(m, window, terminal, seed, r, s, mem)
  }

  lemma CoveredIsSufficient(arch: Arch, window: seq<Inst>, terminal: bool, seed: set<Family>)
    requires window != [] && StoresCovered(arch, window, terminal, seed)
    ensures Sufficient(arch, window, terminal, seed)
  {
    forall m: Machine<bool, bool>, r: Regs<bool>, s: Regs<bool>, mem: bool
      | WindowRespected(m, arch, window) && AgreeOn(Inputs(arch, window, terminal, seed), r, s)
      ensures SameResult(m, window, terminal, seed, r, s, mem)
    {
      SliceIsSufficient(m, arch, window, terminal, seed, r, s, mem);
    }
  }

  lemma InsufficientAt(arch: Arch, window: seq<Inst>, terminal: bool, seed: set<Family>, m: Machine<bool, bool>,
      r: Regs<bool>, s: Regs<bool>, mem: bool)
    requires window != [] && WindowRespected(m, arch, window) && AgreeOn(Inputs(arch, window, terminal, seed), r, s)
    requires !SameResult(m, window, terminal, seed, r, s, mem)
    ensures !Sufficient(arch, window, terminal, seed)
  {}

  /** The slice determines outputs and terminal decision on every machine exactly when its stores are covered. */
  lemma SliceIsSufficientIff(arch: Arch, window: seq<Inst>, terminal: bool, seed: set<Family>)
    requires window != [] && DistinctAddresses(window) && (terminal ==> window[|window| - 1].flow == Conditional)
    ensures StoresCovered(arch, window, terminal, seed) <==> Sufficient(arch, window, terminal, seed)
  {
    if StoresCovered(arch, window, terminal, seed) {
      CoveredIsSufficient(arch, window, terminal, seed);
    } else {
      var m := UncoveredIsNotSufficient(arch, window, terminal, seed);
      var start := Inputs(arch, window, terminal, seed);
      InsufficientAt(arch, window, terminal, seed, m, Unknown(start), NoMarks(), false);
    }
  }

  // ---- a simpler condition ----

  /** Whatever is stored before a load that the slice takes is itself still needed by the slice. */
  predicate StoresNeeded(arch: Arch, window: seq<Inst>, terminal: bool, seed: set<Family>) {
    forall k, l |
      0 <= k < l < |window| && window[k].stores && window[l].loads && Takes(arch, window, terminal, seed, l) ::
      Reads(arch, window[k]) <= Needed(arch, window, terminal, seed, k)
  }

  /** Whatever is stored before instruction `l` is itself still needed by the slice. */
  predicate StoresNeededBefore(arch: Arch, window: seq<Inst>, terminal: bool, seed: set<Family>, l: nat)
    requires l <= |window|
  {
    forall k :: 0 <= k < l && window[k].stores ==> Reads(arch, window[k]) <= Needed(arch, window, terminal, seed, k)
  }

  ghost predicate NeededKnown(arch: Arch, window: seq<Inst>, terminal: bool, seed: set<Family>, k: nat, known: Known)
    requires k <= |window|
  {
    known.memory && Needed(arch, window, terminal, seed, k) <= known.families
  }

  /** What is needed stays known, and so does memory. */
  lemma NeededStep(arch: Arch, window: seq<Inst>, terminal: bool, seed: set<Family>, l: nat, k: nat, known: Known)
    requires k < l <= |window| && StoresNeededBefore(arch, window, terminal, seed, l)
    requires NeededKnown(arch, window, terminal, seed, k, known)
    ensures NeededKnown(arch, window, terminal, seed, k + 1, KnownAfter(arch, window[k], known))
  {
    KnownPasses(arch, window, terminal, seed, k, known);
  }

  lemma {:induction false} NeededStaysKnown(arch: Arch, window: seq<Inst>, terminal: bool, seed: set<Family>,
      start: set<Family>, l: nat, k: nat)
    requires k <= l <= |window| && StoresNeededBefore(arch, window, terminal, seed, l)
    requires NeededKnown(arch, window, terminal, seed, 0, Known(start, true))
    ensures NeededKnown(arch, window, terminal, seed, k, KnownAt(arch, window, start, k))
  {
    if k > 0 {
      NeededStaysKnown(arch, window, terminal, seed, start, l, k - 1);
      NeededStep(arch, window, terminal, seed, l, k - 1, KnownAt(arch, window, start, k - 1));
    }
  }

  /** The simpler condition is enough. */
  lemma NeededStoresAreCovered(arch: Arch, window: seq<Inst>, terminal: bool, seed: set<Family>)
    requires StoresNeeded(arch, window, terminal, seed)
    ensures StoresCovered(arch, window, terminal, seed)
  {
    forall k, l | 0 <= k < l < |window| && window[k].stores && window[l].loads && Takes(arch, window, terminal, seed, l)
      ensures Reads(arch, window[k]) <= KnownAt(arch, window, Inputs(arch, window, terminal, seed), k).families
    {
      assert StoresNeededBefore(arch, window, terminal, seed, l);
      NeededStaysKnown(arch, window, terminal, seed, Inputs(arch, window, terminal, seed), l, k);
    }
  }

  /** `mov a, b`, then a store of `b`, then a load of `d` from `c`. */
  predicate RepeatsInput(arch: Arch, window: seq<Inst>, a: Family, b: Family, c: Family, d: Family) {
    && |window| == 3 && a != c && a != d && b !in {a, c, d}
    && Reads(arch, window[0]) == {b} && Writes(arch, window[0]) == {a} && !window[0].stores && !window[0].loads
    && Reads(arch, window[1]) == {b} && Writes(arch, window[1]) == {} && window[1].stores
    && Reads(arch, window[2]) == {c} && Writes(arch, window[2]) == {d} && window[2].loads
  }

  lemma RepeatedNeeds(arch: Arch, window: seq<Inst>, a: Family, b: Family, c: Family, d: Family)
    requires RepeatsInput(arch, window, a, b, c, d)
    ensures Needed(arch, window, false, {a, d}, 1) == {a, c} && Inputs(arch, window, false, {a, d}) == {b, c}
    ensures Takes(arch, window, false, {a, d}, 2)
  {
    var seed := {a, d};
    assert Needed(arch, window, false, seed, 3) == seed && d in Writes(arch, window[2]) * seed;
    assert Needed(arch, window, false, seed, 2) == {a, c};
    assert Needed(arch, window, false, seed, 1) == {a, c} && a in Writes(arch, window[0]) * {a, c};
  }

  lemma RepeatedKnown(arch: Arch, window: seq<Inst>, a: Family, b: Family, c: Family, d: Family)
    requires RepeatsInput(arch, window, a, b, c, d)
    ensures KnownAt(arch, window, {b, c}, 1).families == {a, b, c}
  {
    assert KnownAt(arch, window, {b, c}, 0) == Known({b, c}, true);
  }

  /** But not required: a store may repeat an input that an earlier instruction was the last to need. */
  lemma StoredInputIsCovered(arch: Arch, window: seq<Inst>, a: Family, b: Family, c: Family, d: Family)
    requires RepeatsInput(arch, window, a, b, c, d)
    ensures StoresCovered(arch, window, false, {a, d}) && !StoresNeeded(arch, window, false, {a, d})
  {
    RepeatedNeeds(arch, window, a, b, c, d);
    RepeatedKnown(arch, window, a, b, c, d);
    assert window[1].stores && window[2].loads && Takes(arch, window, false, {a, d}, 2);
  }

  // ---- windows that store and load ----

  /** A window that stores a register, loads it back and is observed only through the loaded one. */
  predicate StoresThenLoads(arch: Arch, window: seq<Inst>, liveOut: set<Family>) {
    && |window| == 2 && window[0].stores && window[1].loads && window[1].flow == Straight
    && Writes(arch, window[0]) == {} && Writes(arch, window[1]) == FamilySet(arch, AllWrites(window)) == liveOut != {}
    && !(Reads(arch, window[0]) <= Reads(arch, window[1]))
  }

  lemma EscapingSlice(arch: Arch, window: seq<Inst>, liveOut: set<Family>)
    requires StoresThenLoads(arch, window, liveOut)
    ensures Seed(arch, window, liveOut) == liveOut && InputNeed(arch, window, liveOut) == Reads(arch, window[1])
    ensures !StoresCovered(arch, window, false, liveOut)
  {
    assert Seed(arch, window, liveOut) == liveOut;
    assert Needed(arch, window, false, liveOut, 2) == liveOut && Writes(arch, window[1]) * liveOut == liveOut;
    assert Needed(arch, window, false, liveOut, 1) == Reads(arch, window[1]);
    assert Needed(arch, window, false, liveOut, 0) == Reads(arch, window[1]);
    assert Takes(arch, window, false, liveOut, 1);
    assert KnownAt(arch, window, Inputs(arch, window, false, liveOut), 0).families == Reads(arch, window[1]);
  }

  lemma OutputsDiffer<V(!new), M(!new)>(m: Machine<V, M>, window: seq<Inst>, liveOut: set<Family>, r: Regs<V>,
      s: Regs<V>, mem: M)
    requires window != [] && !SameResult(m, window, false, liveOut, r, s, mem)
    ensures !AgreeOn(liveOut, Before(m, window, r, mem, |window|).0, Before(m, window, s, mem, |window|).0)
  {}

  /** Its inputs name the address only, so the stored value escapes them. */
  lemma StoredValueEscapes(arch: Arch, window: seq<Inst>, liveOut: set<Family>) returns (m: Machine<bool, bool>)
    requires StoresThenLoads(arch, window, liveOut) && DistinctAddresses(window)
    ensures InputNeed(arch, window, liveOut) == Reads(arch, window[1])
    ensures WindowRespected(m, arch, window)
    ensures exists r: Regs<bool>, s: Regs<bool>, mem: bool ::
              && AgreeOn(InputNeed(arch, window, liveOut), r, s)
              && !AgreeOn(liveOut, Before(m, window, r, mem, 2).0, Before(m, window, s, mem, 2).0)
  {
    EscapingSlice(arch, window, liveOut);
    m := UncoveredIsNotSufficient(arch, window, false, liveOut);
    var start := Inputs(arch, window, false, liveOut);
    OutputsDiffer(m, window, liveOut, Unknown(start), NoMarks(), false);
  }

  // ---- the surface ----

  lemma {:induction false} UnwrittenStays<V(!new), M(!new)>(m: Machine<V, M>, arch: Arch, window: seq<Inst>, r: Regs<V>,
      mem: M, f: Family, k: nat)
    requires WindowRespected(m, arch, window) && k <= |window|
    requires forall j :: 0 <= j < |window| ==> f !in Writes(arch, window[j])
    ensures Before(m, window, r, mem, k).0(f) == r(f)
  {
    if k > 0 {
      UnwrittenStays(m, arch, window, r, mem, f, k - 1);
      assert RespectedAt(m, arch, window[k - 1]);
    }
  }

  /**
   The surface summarizes a call-free window with covered stores for any continuation: entry states with one memory that
   agree on the inferred inputs and on whatever else is live afterwards and unwritten agree, after the window, on
   everything live there, and branch alike.
   */
  lemma SurfaceSummarizesWindow<V(!new), M(!new)>(m: Machine<V, M>, arch: Arch, window: seq<Inst>, liveOut: set<Family>,
      r: Regs<V>, s: Regs<V>, mem: M)
    requires window != [] && CallFree(window) && WindowRespected(m, arch, window)
    requires StoresCovered(arch, window, Terminal(window), Seed(arch, window, liveOut))
    requires AgreeOn(InputNeed(arch, window, liveOut), r, s)
    requires AgreeOn(liveOut - FamilySet(arch, AllWrites(window)), r, s)
    ensures AgreeOn(liveOut, Before(m, window, r, mem, |window|).0, Before(m, window, s, mem, |window|).0)
    ensures SameResult(m, window, Terminal(window), Seed(arch, window, liveOut), r, s, mem)
  {
    SliceIsSufficient(m, arch, window, Terminal(window), Seed(arch, window, liveOut), r, s, mem);
    forall f | f in liveOut
      ensures Before(m, window, r, mem, |window|).0(f) == Before(m, window, s, mem, |window|).0(f)
    {
      if f !in Outputs(arch, window, liveOut) {
        WritesAreListed(arch, window, f);
        UnwrittenStays(m, arch, window, r, mem, f, |window|);
        UnwrittenStays(m, arch, window, s, mem, f, |window|);
      } else {
        assert f in Seed(arch, window, liveOut);
      }
    }
  }
}
