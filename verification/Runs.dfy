/** Liveness is sound for every run of every machine that respects the recorded register effects. */
module Runs {
  import opened Wrappers
  import opened Liveness

  type Regs<V> = Family -> V

  /** An instruction hands over to another one, or leaves the function. */
  datatype Outcome<V, M> = Next(address: int, regs: Regs<V>, mem: M) | Exit(regs: Regs<V>, mem: M)

  datatype Machine<!V, !M> = Machine(exec: (int, Regs<V>, M) -> Outcome<V, M>)

  /** A state of a run: about to execute, or out of the function through the instruction at `at`. */
  datatype Config<V, M> = At(at: int, regs: Regs<V>, mem: M) | Left(at: int, regs: Regs<V>, mem: M)

  ghost predicate AgreeOn<V(!new)>(families: set<Family>, r: Regs<V>, s: Regs<V>) {
    forall f :: f in families ==> r(f) == s(f)
  }

  /** Only recorded writes change. */
  ghost predicate KeepsOthers<V(!new), M(!new)>(m: Machine<V, M>, arch: Arch, inst: Inst) {
    forall regs: Regs<V>, mem: M, f :: f !in Writes(arch, inst) ==> m.exec(inst.address, regs, mem).regs(f) == regs(f)
  }

  /** Two outcomes differ at most in families outside `families`. */
  ghost predicate SameEffect<V(!new), M(!new)>(x: Outcome<V, M>, y: Outcome<V, M>, families: set<Family>) {
    && (x.Next? <==> y.Next?) && (x.Next? ==> x.address == y.address)
    && x.mem == y.mem && AgreeOn(families, x.regs, y.regs)
  }

  /** Written values, memory and the next address depend on recorded reads and on memory only. */
  ghost predicate DependsOnReads<V(!new), M(!new)>(m: Machine<V, M>, arch: Arch, inst: Inst) {
    forall r: Regs<V>, s: Regs<V>, mem: M :: AgreeOn(Reads(arch, inst), r, s) ==>
      SameEffect(m.exec(inst.address, r, mem), m.exec(inst.address, s, mem), Writes(arch, inst))
  }

  /** Control goes to an instruction of the function only where its text says it may. */
  ghost predicate FollowsFlow<V(!new), M(!new)>(m: Machine<V, M>, insts: seq<Inst>, i: nat)
    requires i < |insts|
  {
    forall r: Regs<V>, mem: M ::
      m.exec(insts[i].address, r, mem).Next? ==> Reaches(insts, i, m.exec(insts[i].address, r, mem).address)
  }

  ghost predicate Reaches(insts: seq<Inst>, i: nat, a: int)
    requires i < |insts|
  {
    exists j: nat :: j < |insts| && insts[j].address == a && Continues(insts, i, j)
  }

  ghost predicate Respects<V(!new), M(!new)>(m: Machine<V, M>, arch: Arch, insts: seq<Inst>) {
    forall i :: 0 <= i < |insts| ==>
      KeepsOthers(m, arch, insts[i]) && DependsOnReads(m, arch, insts[i]) && FollowsFlow(m, insts, i)
  }

  function Step<V, M>(m: Machine<V, M>, c: Config<V, M>): Config<V, M> {
    if c.Left? then c else
    var x := m.exec(c.at, c.regs, c.mem);
    if x.Next? then At(x.address, x.regs, x.mem) else Left(c.at, x.regs, x.mem)
  }

  function Run<V, M>(m: Machine<V, M>, c: Config<V, M>, n: nat): Config<V, M> {
    if n == 0 then c else Step(m, Run(m, c, n - 1))
  }

  /** Two runs in lockstep that agree on everything the analysis calls live at that point. */
  ghost predicate Lockstep<V(!new), M(!new)>(insts: seq<Inst>, x: Facts, c: Config<V, M>, d: Config<V, M>) {
    && c.at in Addresses(insts) && c.at in x.liveIn && c.at in x.liveOut
    && c.at == d.at && c.mem == d.mem && (c.At? <==> d.At?)
    && AgreeOn(if c.At? then x.liveIn[c.at] else x.liveOut[c.at], c.regs, d.regs)
  }

  /** Two states that agree before an instruction agree on everything live after it. */
  lemma ExecKeepsLive<V(!new), M(!new)>(m: Machine<V, M>, arch: Arch, inst: Inst, live: set<Family>, r: Regs<V>,
      s: Regs<V>, mem: M)
    requires KeepsOthers(m, arch, inst) && DependsOnReads(m, arch, inst) && AgreeOn(InOf(arch, inst, live), r, s)
    ensures SameEffect(m.exec(inst.address, r, mem), m.exec(inst.address, s, mem), live)
  {
    var p, q := m.exec(inst.address, r, mem), m.exec(inst.address, s, mem);
    assert AgreeOn(Reads(arch, inst), r, s);
    assert SameEffect(p, q, Writes(arch, inst));
    forall f | f in live ensures p.regs(f) == q.regs(f) {
      if f !in Writes(arch, inst) { assert f in InOf(arch, inst, live); }
    }
  }

  lemma StepKeepsLockstep<V(!new), M(!new)>(m: Machine<V, M>, arch: Arch, insts: seq<Inst>, x: Facts, c: Config<V, M>,
      d: Config<V, M>)
    requires Respects(m, arch, insts) && Solution(arch, insts, x) && Lockstep(insts, x, c, d)
    ensures Lockstep(insts, x, Step(m, c), Step(m, d))
  {
    if c.At? {
      var i :| 0 <= i < |insts| && insts[i].address == c.at;
      var a := insts[i].address;
      assert Settled(arch, insts, x, i) && FollowsFlow(m, insts, i);
      ExecKeepsLive(m, arch, insts[i], x.liveOut[a], c.regs, d.regs, c.mem);
      var p := m.exec(a, c.regs, c.mem);
      if p.Next? {
        assert Reaches(insts, i, p.address);
        SuccessorsAreFlow(insts, i, p.address);
        assert x.liveIn[p.address] <= OutOf(arch, insts, i, x.liveIn);
      }
    }
  }

  lemma {:induction false} RunsStayInLockstep<V(!new), M(!new)>(m: Machine<V, M>, arch: Arch, insts: seq<Inst>,
      x: Facts, c: Config<V, M>, d: Config<V, M>, n: nat)
    requires Respects(m, arch, insts) && Solution(arch, insts, x) && Lockstep(insts, x, c, d)
    ensures Lockstep(insts, x, Run(m, c, n), Run(m, d, n))
  {
    if n > 0 {
      RunsStayInLockstep(m, arch, insts, x, c, d, n - 1);
      StepKeepsLockstep(m, arch, insts, x, Run(m, c, n - 1), Run(m, d, n - 1));
    }
  }

  /**
   Two states that agree on `live_in` at an address, with one memory, run through the same addresses for ever;
   when one leaves through a return, so does the other, with the same memory and the same ABI-visible registers.
   */
  lemma LivenessIsSound<V(!new), M(!new)>(m: Machine<V, M>, arch: Arch, insts: seq<Inst>, x: Facts, a: int, r: Regs<V>,
      s: Regs<V>, mem: M, n: nat)
    requires DistinctAddresses(insts) && Respects(m, arch, insts) && Solution(arch, insts, x)
    requires a in Addresses(insts) && AgreeOn(x.liveIn[a], r, s)
    ensures var c, d := Run(m, At(a, r, mem), n), Run(m, At(a, s, mem), n);
            && c.at == d.at && c.mem == d.mem && (c.Left? <==> d.Left?)
            && (c.Left? ==> forall i :: 0 <= i < |insts| && insts[i].address == c.at && insts[i].flow == Return ==>
                              AgreeOn(arch.exitLive, c.regs, d.regs))
  {
    RunsStayInLockstep(m, arch, insts, x, At(a, r, mem), At(a, s, mem), n);
    var c, d := Run(m, At(a, r, mem), n), Run(m, At(a, s, mem), n);
    forall i | c.Left? && 0 <= i < |insts| && insts[i].address == c.at && insts[i].flow == Return
      ensures AgreeOn(arch.exitLive, c.regs, d.regs)
    {
      assert Settled(arch, insts, x, i);
      assert ExitSeed(arch, insts, i) == arch.exitLive;
    }
  }
}
