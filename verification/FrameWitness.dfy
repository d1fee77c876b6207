/** Which bindings set which registers, and exactly which addresses reach their slots. */
module FrameWitness {
  import opened Wrappers
  import opened MemoryLayout
  import opened MemoryWitness

  // ---- the demands that are carried out ----

  /** One of the first `n` bindings gives the register a value. */
  ghost predicate Named(c: Setup, n: nat, r: string)
    requires Placed(c) && n <= |c.bindings|
    decreases n, 0
  {
    n > 0 && (Named(c, n - 1, r) || Mentions(Executed(c, n - 1), r))
  }

  /** A frame binding sets its pair of frame bases only if its guest base has no value yet. */
  ghost predicate Leads(c: Setup, k: nat)
    requires Placed(c) && k < |c.bindings|
    decreases k, 1
  {
    var b := c.bindings[k];
    IsFrame(b, c.frame) && !Named(c, k, b.guest.base) && !Mentions(BothIndexDemands(c, b), b.guest.base)
  }

  ghost function Executed(c: Setup, k: nat): seq<Demand>
    requires Placed(c) && k < |c.bindings|
    decreases k, 2
  {
    var b := c.bindings[k];
    BothIndexDemands(c, b)
    + if !IsFrame(b, c.frame) then BaseDemands(c, b) else if Leads(c, k) then FrameDemands(c, b) else []
  }

  /** Some binding gives the register this value. */
  ghost predicate Demanded(c: Setup, r: string, v: int)
    requires Placed(c)
  {
    exists k :: 0 <= k < |c.bindings| && (r, v) in Executed(c, k)
  }

  ghost predicate HoldsNamed(c: Setup, n: nat, a: Assigned)
    requires Placed(c) && n <= |c.bindings|
  {
    forall r :: r in a <==> Named(c, n, r)
  }

  lemma MentionsConcat(xs: seq<Demand>, ys: seq<Demand>, r: string)
    ensures Mentions(xs + ys, r) <==> Mentions(xs, r) || Mentions(ys, r)
  {
    var zs := xs + ys;
    if Mentions(xs, r) {
      var i :| 0 <= i < |xs| && xs[i].0 == r;
      assert zs[i].0 == r;
    }
    if Mentions(ys, r) {
      var i :| 0 <= i < |ys| && ys[i].0 == r;
      assert zs[|xs| + i].0 == r;
    }
  }

  /** Processing a binding carries out its executed demands. */
  lemma StepExecutes(c: Setup, st: State, k: nat)
    requires Placed(c) && k < |c.bindings| && HoldsNamed(c, k, st.chosen) && Step(c, st, c.bindings[k]).Some?
    ensures AssignAll(st.chosen, Executed(c, k)) == Some(Step(c, st, c.bindings[k]).value.chosen)
  {
    var b := c.bindings[k];
    var index := BothIndexDemands(c, b);
    AssignedMeets(st.chosen, index);
    if !IsFrame(b, c.frame) {
      AssignConcat(st.chosen, index, BaseDemands(c, b));
    } else if Leads(c, k) {
      AssignConcat(st.chosen, index, FrameDemands(c, b));
    } else {
      assert Executed(c, k) == index;
    }
  }

  lemma {:induction false} TraceHoldsNamed(c: Setup, states: seq<State>, n: nat)
    requires Placed(c) && Trace(c, states) && n < |states|
    ensures HoldsNamed(c, n, states[n].chosen)
  {
    if n > 0 {
      TraceHoldsNamed(c, states, n - 1);
      assert Stepped(c, states, n - 1);
      StepExecutes(c, states[n - 1], n - 1);
      AssignedMeets(states[n - 1].chosen, Executed(c, n - 1));
    }
  }

  lemma ExecutedMet(c: Setup, states: seq<State>, k: nat)
    requires Placed(c) && Trace(c, states) && k + 1 < |states|
    ensures Meets(states[k + 1].chosen, Executed(c, k))
  {
    TraceHoldsNamed(c, states, k);
    assert Stepped(c, states, k);
    StepExecutes(c, states[k], k);
    AssignedMeets(states[k].chosen, Executed(c, k));
  }

  lemma {:induction false} NamedBySome(c: Setup, n: nat, r: string) returns (k: nat, i: nat)
    requires Placed(c) && n <= |c.bindings| && Named(c, n, r)
    ensures k < n && i < |Executed(c, k)| && Executed(c, k)[i].0 == r
  {
    if Mentions(Executed(c, n - 1), r) {
      k := n - 1;
      i :| 0 <= i < |Executed(c, k)| && Executed(c, k)[i].0 == r;
    } else {
      k, i := NamedBySome(c, n - 1, r);
    }
  }

  lemma ExecutedKept(c: Setup, states: seq<State>, k: nat)
    requires Placed(c) && Complete(c, states) && k < |c.bindings|
    ensures Meets(states[k + 1].chosen, Executed(c, k))
    ensures Extends(states[k + 1].chosen, states[|states| - 1].chosen)
  {
    assert Meets(states[k + 1].chosen, Executed(c, k)) by { ExecutedMet(c, states, k); }
    EarlierKept(c, states, k + 1, |states| - 1);
  }

  lemma ExecutedHolds(c: Setup, states: seq<State>, k: nat, ds: seq<Demand>, i: nat)
    requires Placed(c) && Complete(c, states) && k < |c.bindings| && ds == Executed(c, k) && i < |ds|
    ensures var a := states[|states| - 1].chosen; ds[i].0 in a && a[ds[i].0] == ds[i].1
  {
    ExecutedKept(c, states, k);
    MeetsAt(states[k + 1].chosen, states[|states| - 1].chosen, ds, i);
  }

  lemma MeetsAt(a: Assigned, b: Assigned, ds: seq<Demand>, i: nat)
    requires Meets(a, ds) && Extends(a, b) && i < |ds|
    ensures ds[i].0 in b && b[ds[i].0] == ds[i].1
  {}

  /** In the end a register holds a value exactly when some binding gave it. */
  lemma FinalValue(c: Setup, states: seq<State>, r: string, v: int)
    requires Placed(c) && Complete(c, states)
    ensures var a := states[|states| - 1].chosen; (r in a && a[r] == v) <==> Demanded(c, r, v)
  {
    var a := states[|states| - 1].chosen;
    TraceHoldsNamed(c, states, |c.bindings|);
    if r in a {
      var k, i := NamedBySome(c, |c.bindings|, r);
      ExecutedHolds(c, states, k, Executed(c, k), i);
      assert Executed(c, k)[i] in Executed(c, k);
    }
    if Demanded(c, r, v) {
      var k :| 0 <= k < |c.bindings| && (r, v) in Executed(c, k);
      var i :| 0 <= i < |Executed(c, k)| && Executed(c, k)[i] == (r, v);
      ExecutedHolds(c, states, k, Executed(c, k), i);
    }
  }

  // ---- which addresses reach their slots ----

  lemma ReachedIff(c: Setup, states: seq<State>, e: Expr, at: int)
    requires Placed(c) && Complete(c, states)
    requires var a := states[|states| - 1].chosen;
             e.index.Some? ==> e.index.value in a && a[e.index.value] == INDEX_WITNESS
    ensures EvalAddress(e, states[|states| - 1].chosen) == Some(at) <==> Demanded(c, e.base, BaseValue(e, at))
  {
    FinalValue(c, states, e.base, BaseValue(e, at));
  }

  /** On success an address is its slot's base exactly when some binding demands its base register's value for it. */
  lemma AddressReachedIff(c: Setup, states: seq<State>, i: nat)
    requires Placed(c) && Complete(c, states) && i < |c.bindings|
    ensures var (a, b, at) := (states[|states| - 1].chosen, c.bindings[i], c.bases[c.bindings[i].slot]);
            && (EvalAddress(b.guest, a) == Some(at) <==> Demanded(c, b.guest.base, BaseValue(b.guest, at)))
            && (EvalAddress(b.host, a) == Some(at) <==> Demanded(c, b.host.base, BaseValue(b.host, at)))
  {
    var a, b := states[|states| - 1].chosen, c.bindings[i];
    DemandsKept(c, states, i);
    IndexHolds(a, c, b);
    ReachedIff(c, states, b.guest, c.bases[b.slot]);
    ReachedIff(c, states, b.host, c.bases[b.slot]);
  }

  ghost predicate InGroup(c: Setup, b: Binding, key: (string, string)) {
    IsFrame(b, c.frame) && (b.guest.base, b.host.base) == key
  }

  /** The slots of one pair lie where a guest frame at `f` and a host frame at `h` both reach them. */
  ghost predicate FramedAt(c: Setup, key: (string, string), f: int, h: int)
    requires Placed(c)
  {
    forall i :: 0 <= i < |c.bindings| && InGroup(c, c.bindings[i], key) ==>
      var b := c.bindings[i];
      c.bases[b.slot] == f + Offset(b.guest) && c.bases[b.slot] == h + Offset(b.host)
  }

  lemma LeaderDemands(c: Setup, k: nat)
    requires Placed(c) && k < |c.bindings| && Leads(c, k)
    ensures var (b, at) := (c.bindings[k], c.bases[c.bindings[k].slot]);
            Demanded(c, b.guest.base, BaseValue(b.guest, at)) && Demanded(c, b.host.base, BaseValue(b.host, at))
  {
    var n := |BothIndexDemands(c, c.bindings[k])|;
    assert Executed(c, k)[n] == FrameDemands(c, c.bindings[k])[0]
      && Executed(c, k)[n + 1] == FrameDemands(c, c.bindings[k])[1];
  }

  /** On success both sides of a pair's binding reach its slot exactly when the pair's frames are demanded. */
  lemma PairReachedIff(c: Setup, states: seq<State>, i: nat, key: (string, string), f: int, h: int)
    requires Placed(c) && Complete(c, states) && i < |c.bindings| && InGroup(c, c.bindings[i], key)
    requires FramedAt(c, key, f, h)
    ensures var (a, b) := (states[|states| - 1].chosen, c.bindings[i]);
            && (EvalAddress(b.guest, a) == Some(c.bases[b.slot]) <==> Demanded(c, key.0, f))
            && (EvalAddress(b.host, a) == Some(c.bases[b.slot]) <==> Demanded(c, key.1, h))
  {
    FramedBases(c, i, key, f, h);
    AddressReachedIff(c, states, i);
  }

  lemma FramedBases(c: Setup, i: nat, key: (string, string), f: int, h: int)
    requires Placed(c) && i < |c.bindings| && InGroup(c, c.bindings[i], key) && FramedAt(c, key, f, h)
    ensures BaseValue(c.bindings[i].guest, c.bases[c.bindings[i].slot]) == f
    ensures BaseValue(c.bindings[i].host, c.bases[c.bindings[i].slot]) == h
  {}

  /** They are when one of the pair's bindings sets the pair. */
  lemma LedFrames(c: Setup, k: nat, key: (string, string), f: int, h: int)
    requires Placed(c) && k < |c.bindings| && Leads(c, k) && InGroup(c, c.bindings[k], key) && FramedAt(c, key, f, h)
    ensures Demanded(c, key.0, f) && Demanded(c, key.1, h)
  {
    FramedBases(c, k, key, f, h);
    LeaderDemands(c, k);
  }

  /** A guest base set for one frame misses the slots of every other. */
  lemma OtherFrameMissed(c: Setup, states: seq<State>, k: nat, i: nat)
    requires Placed(c) && Complete(c, states) && k < |c.bindings| && i < |c.bindings| && Leads(c, k)
    requires c.bindings[i].guest.base == c.bindings[k].guest.base
    requires BaseValue(c.bindings[i].guest, c.bases[c.bindings[i].slot])
             != BaseValue(c.bindings[k].guest, c.bases[c.bindings[k].slot])
    ensures EvalAddress(c.bindings[i].guest, states[|states| - 1].chosen) != Some(c.bases[c.bindings[i].slot])
  {
    var b := c.bindings[k];
    LeaderDemands(c, k);
    FinalValue(c, states, b.guest.base, BaseValue(b.guest, c.bases[b.slot]));
    FinalValue(c, states, b.guest.base, BaseValue(c.bindings[i].guest, c.bases[c.bindings[i].slot]));
    AddressReachedIff(c, states, i);
  }

  // ---- pairs that nothing disturbs ----

  /** Nothing but the pair's own bindings gives a value to the register. */
  ghost predicate Undisturbed(c: Setup, b: Binding, key: (string, string), r: string)
    requires b.slot in c.bases
  {
    && !Mentions(BothIndexDemands(c, b), r)
    && (!IsFrame(b, c.frame) ==> !Mentions(BaseDemands(c, b), r))
    && (IsFrame(b, c.frame) && !InGroup(c, b, key) ==> b.guest.base != r && b.host.base != r)
  }

  ghost predicate Private(c: Setup, key: (string, string))
    requires Placed(c)
  {
    forall i :: 0 <= i < |c.bindings| ==>
        Undisturbed(c, c.bindings[i], key, key.0) && Undisturbed(c, c.bindings[i], key, key.1)
  }

  lemma {:induction false} UndisturbedUnnamed(c: Setup, key: (string, string), n: nat)
    requires Placed(c) && Private(c, key) && n <= |c.bindings| && forall i :: 0 <= i < n ==>
             !InGroup(c, c.bindings[i], key)
    ensures !Named(c, n, key.0)
  {
    if n > 0 {
      UndisturbedUnnamed(c, key, n - 1);
      var b := c.bindings[n - 1];
      assert Undisturbed(c, b, key, key.0);
      var rest := if !IsFrame(b, c.frame) then BaseDemands(c, b) else if Leads(c, n - 1) then FrameDemands(c, b)
        else [];
      MentionsConcat(BothIndexDemands(c, b), rest, key.0);
    }
  }

  lemma FirstOfGroup(c: Setup, key: (string, string), i: nat) returns (k: nat)
    requires i < |c.bindings| && InGroup(c, c.bindings[i], key)
    ensures k <= i && InGroup(c, c.bindings[k], key) && forall j :: 0 <= j < k ==> !InGroup(c, c.bindings[j], key)
  {
    k := 0;
    while !InGroup(c, c.bindings[k], key)
      invariant k <= i && forall j :: 0 <= j < k ==> !InGroup(c, c.bindings[j], key)
      decreases i - k
    {
      k := k + 1;
    }
  }

  /** Both sides of a frame binding reach its slot when nothing else disturbs the pair's registers. */
  lemma FrameReached(c: Setup, states: seq<State>, i: nat, key: (string, string), f: int, h: int)
    requires Placed(c) && Complete(c, states) && i < |c.bindings| && Private(c, key) && FramedAt(c, key, f, h)
    requires InGroup(c, c.bindings[i], key)
    ensures var (a, b) := (states[|states| - 1].chosen, c.bindings[i]);
            EvalAddress(b.guest, a) == Some(c.bases[b.slot]) && EvalAddress(b.host, a) == Some(c.bases[b.slot])
  {
    var k := FirstOfGroup(c, key, i);
    UndisturbedUnnamed(c, key, k);
    assert Undisturbed(c, c.bindings[k], key, key.0);
    LedFrames(c, k, key, f, h);
    PairReachedIff(c, states, i, key, f, h);
  }
}
