/** Choosing register values that make every address expression point at its slot. */
module MemoryWitness {
  import opened Wrappers
  import opened MemoryLayout

  type Assigned = map<string, int>

  /** Values chosen so far, and the distance from guest to host frame for each pair of frame bases. */
  datatype State = State(chosen: Assigned, offsets: map<(string, string), int>)

  datatype Setup = Setup(bindings: seq<Binding>, pairs: seq<(string, string)>, frame: FramePair,
      bases: map<string, int>)

  predicate Placed(c: Setup) { forall i :: 0 <= i < |c.bindings| ==> c.bindings[i].slot in c.bases }

  function GuestToHost(pairs: seq<(string, string)>): map<string, string> {
    if pairs == [] then map[] else GuestToHost(pairs[..|pairs| - 1])[pairs[|pairs| - 1].0 := pairs[|pairs| - 1].1]
  }

  function HostToGuest(pairs: seq<(string, string)>): map<string, string> {
    if pairs == [] then map[] else HostToGuest(pairs[..|pairs| - 1])[pairs[|pairs| - 1].1 := pairs[|pairs| - 1].0]
  }

  /** The last pair that names the guest register gives its host register. */
  ghost predicate LastOfGuest(pairs: seq<(string, string)>, g: string, h: string) {
    exists i :: 0 <= i < |pairs| && pairs[i] == (g, h) && forall j :: i < j < |pairs| ==> pairs[j].0 != g
  }

  ghost predicate LastOfHost(pairs: seq<(string, string)>, g: string, h: string) {
    exists i :: 0 <= i < |pairs| && pairs[i] == (g, h) && forall j :: i < j < |pairs| ==> pairs[j].1 != h
  }

  lemma {:induction false} GuestPartnerIff(pairs: seq<(string, string)>, g: string, h: string)
    ensures (g in GuestToHost(pairs) && GuestToHost(pairs)[g] == h) <==> LastOfGuest(pairs, g, h)
    decreases |pairs|
  {
    if pairs != [] {
      var front, n := pairs[..|pairs| - 1], |pairs| - 1;
      GuestPartnerIff(front, g, h);
      if pairs[n].0 == g {
        assert pairs[n] == (g, h) ==> LastOfGuest(pairs, g, h);
      } else {
        if i :| 0 <= i < n && front[i] == (g, h) && forall j :: i < j < n ==> front[j].0 != g {
          assert pairs[i] == (g, h) && forall j :: i < j < |pairs| ==> pairs[j].0 != g;
        }
        if i :| 0 <= i < |pairs| && pairs[i] == (g, h) && forall j :: i < j < |pairs| ==> pairs[j].0 != g {
          assert front[i] == (g, h) && forall j :: i < j < n ==> front[j] == pairs[j];
        }
      }
    }
  }

  lemma {:induction false} HostPartnerIff(pairs: seq<(string, string)>, g: string, h: string)
    ensures (h in HostToGuest(pairs) && HostToGuest(pairs)[h] == g) <==> LastOfHost(pairs, g, h)
    decreases |pairs|
  {
    if pairs != [] {
      var front, n := pairs[..|pairs| - 1], |pairs| - 1;
      HostPartnerIff(front, g, h);
      if pairs[n].1 == h {
        assert pairs[n] == (g, h) ==> LastOfHost(pairs, g, h);
      } else {
        if i :| 0 <= i < n && front[i] == (g, h) && forall j :: i < j < n ==> front[j].1 != h {
          assert pairs[i] == (g, h) && forall j :: i < j < |pairs| ==> pairs[j].1 != h;
        }
        if i :| 0 <= i < |pairs| && pairs[i] == (g, h) && forall j :: i < j < |pairs| ==> pairs[j].1 != h {
          assert front[i] == (g, h) && forall j :: i < j < n ==> front[j] == pairs[j];
        }
      }
    }
  }

  // ---- demands ----

  /** A register and the value it must have. */
  type Demand = (string, int)

  function Assign(a: Assigned, r: string, v: int): Option<Assigned> {
    if r in a && a[r] != v then None else Some(a[r := v])
  }

  function AssignAll(a: Assigned, ds: seq<Demand>): Option<Assigned>
    decreases |ds|
  {
    if ds == [] then Some(a) else
    var next := Assign(a, ds[0].0, ds[0].1);
    if next.None? then None else AssignAll(next.value, ds[1..])
  }

  /** No register is asked to hold two values. */
  ghost predicate Consistent(a: Assigned, ds: seq<Demand>) {
    && (forall i :: 0 <= i < |ds| && ds[i].0 in a ==> a[ds[i].0] == ds[i].1)
    && (forall i, j :: 0 <= i < |ds| && 0 <= j < |ds| && ds[i].0 == ds[j].0 ==> ds[i].1 == ds[j].1)
  }

  ghost predicate Meets(a: Assigned, ds: seq<Demand>) {
    forall i :: 0 <= i < |ds| ==> ds[i].0 in a && a[ds[i].0] == ds[i].1
  }

  predicate Mentions(ds: seq<Demand>, r: string) { exists i :: 0 <= i < |ds| && ds[i].0 == r }

  lemma {:induction false} AssignedMeets(a: Assigned, ds: seq<Demand>)
    requires AssignAll(a, ds).Some?
    ensures Extends(a, AssignAll(a, ds).value) && Meets(AssignAll(a, ds).value, ds)
    ensures forall r :: r in AssignAll(a, ds).value <==> r in a || Mentions(ds, r)
    decreases |ds|
  {
    if ds != [] {
      var next := Assign(a, ds[0].0, ds[0].1).value;
      AssignedMeets(next, ds[1..]);
      var z := AssignAll(a, ds).value;
      forall i | 0 <= i < |ds| ensures ds[i].0 in z && z[ds[i].0] == ds[i].1 {
        if i > 0 { assert ds[1..][i - 1] == ds[i]; }
      }
      forall r ensures r in z <==> r in a || Mentions(ds, r) {
        if Mentions(ds[1..], r) {
          var i :| 0 <= i < |ds[1..]| && ds[1..][i].0 == r;
          assert ds[i + 1].0 == r;
        }
      }
    }
  }

  /** Assignment succeeds exactly when the demands are consistent. */
  lemma {:induction false} AssignsIffConsistent(a: Assigned, ds: seq<Demand>)
    ensures AssignAll(a, ds).Some? <==> Consistent(a, ds)
    decreases |ds|
  {
    if ds != [] {
      var next := Assign(a, ds[0].0, ds[0].1);
      if next.Some? {
        AssignsIffConsistent(next.value, ds[1..]);
        assert Consistent(next.value, ds[1..]) <==> Consistent(a, ds) by { TailConsistent(a, ds); }
      }
    }
  }

  lemma TailConsistent(a: Assigned, ds: seq<Demand>)
    requires ds != [] && Assign(a, ds[0].0, ds[0].1).Some?
    ensures Consistent(a[ds[0].0 := ds[0].1], ds[1..]) <==> Consistent(a, ds)
  {
    var rest := ds[1..];
    assert forall i :: 0 <= i < |rest| ==> rest[i] == ds[i + 1];
    assert forall i :: 1 <= i < |ds| ==> ds[i] == rest[i - 1];
  }

  lemma {:induction false} AssignConcat(a: Assigned, xs: seq<Demand>, ys: seq<Demand>)
    ensures AssignAll(a, xs + ys) == if AssignAll(a, xs).None? then None else AssignAll(AssignAll(a, xs).value, ys)
    decreases |xs|
  {
    if xs == [] { assert xs + ys == ys; } else {
      assert (xs + ys)[1..] == xs[1..] + ys;
      var next := Assign(a, xs[0].0, xs[0].1);
      if next.Some? { AssignConcat(next.value, xs[1..], ys); }
    }
  }

  lemma AssignOne(a: Assigned, d: Demand)
    ensures AssignAll(a, [d]) == Assign(a, d.0, d.1)
  {
    assert [d][1..] == [];
  }

  lemma AssignTwo(a: Assigned, d: Demand, e: Demand)
    ensures AssignAll(a, [d, e]) == if Assign(a, d.0, d.1).None? then None
            else Assign(Assign(a, d.0, d.1).value, e.0, e.1)
  {
    assert [d, e] == [d] + [e];
    AssignConcat(a, [d], [e]);
    AssignOne(a, d);
    if Assign(a, d.0, d.1).Some? { AssignOne(Assign(a, d.0, d.1).value, e); }
  }

  // ---- the demands of a binding ----

  function PairDemand(r: string, pairOf: map<string, string>, v: int): seq<Demand> {
    if r in pairOf then [(pairOf[r], v)] else []
  }

  function IndexDemands(e: Expr, pairOf: map<string, string>): seq<Demand> {
    if e.index.None? then [] else [(e.index.value, INDEX_WITNESS)] + PairDemand(e.index.value, pairOf, INDEX_WITNESS)
  }

  function BothIndexDemands(c: Setup, b: Binding): seq<Demand> {
    IndexDemands(b.guest, GuestToHost(c.pairs)) + IndexDemands(b.host, HostToGuest(c.pairs))
  }

  function BaseValue(e: Expr, slotBase: int): int { slotBase - Offset(e) }

  function BaseDemands(c: Setup, b: Binding): seq<Demand>
    requires b.slot in c.bases
  {
    var at := c.bases[b.slot];
    [(b.guest.base, BaseValue(b.guest, at))] + PairDemand(b.guest.base, GuestToHost(c.pairs), BaseValue(b.guest, at))
    + if b.host.base in HostToGuest(c.pairs) then [] else [(b.host.base, BaseValue(b.host, at))]
  }

  function FrameDemands(c: Setup, b: Binding): seq<Demand>
    requires b.slot in c.bases
  {
    [(b.guest.base, BaseValue(b.guest, c.bases[b.slot])), (b.host.base, BaseValue(b.host, c.bases[b.slot]))]
  }

  ghost function Step(c: Setup, st: State, b: Binding): Option<State>
    requires b.slot in c.bases
  {
    var indexed := AssignAll(st.chosen, BothIndexDemands(c, b));
    if indexed.None? then None
    else if !IsFrame(b, c.frame) then
      var done := AssignAll(indexed.value, BaseDemands(c, b));
      if done.None? then None else Some(State(done.value, st.offsets))
    else
      var key := (b.guest.base, b.host.base);
      var offset := BaseValue(b.host, c.bases[b.slot]) - BaseValue(b.guest, c.bases[b.slot]);
      if key in st.offsets && st.offsets[key] != offset then None
      else
        var done := if b.guest.base in indexed.value then indexed else AssignAll(indexed.value, FrameDemands(c, b));
        if done.None? then None else Some(State(done.value, st.offsets[key := offset]))
  }

  ghost predicate Stepped(c: Setup, states: seq<State>, i: nat)
    requires Placed(c)
  {
    i < |c.bindings| && i + 1 < |states| && Step(c, states[i], c.bindings[i]) == Some(states[i + 1])
  }

  /** The states the first bindings lead through. */
  ghost predicate Trace(c: Setup, states: seq<State>)
    requires Placed(c)
  {
    && 1 <= |states| <= |c.bindings| + 1 && states[0] == State(map[], map[])
    && forall i: nat :: i < |states| - 1 ==> Stepped(c, states, i)
  }

  /** Every binding was assigned. */
  ghost predicate Complete(c: Setup, states: seq<State>)
    requires Placed(c)
  {
    Trace(c, states) && |states| == |c.bindings| + 1
  }

  /** Some binding could not be assigned. */
  ghost predicate Stuck(c: Setup, states: seq<State>)
    requires Placed(c)
  {
    Trace(c, states) && |states| <= |c.bindings| && Step(c, states[|states| - 1], c.bindings[|states| - 1]).None?
  }

  lemma LongerTrace(c: Setup, states: seq<State>, next: State)
    requires Placed(c) && Trace(c, states) && |states| <= |c.bindings|
    requires Step(c, states[|states| - 1], c.bindings[|states| - 1]) == Some(next)
    ensures Trace(c, states + [next])
  {
    var longer := states + [next];
    forall i: nat | i < |longer| - 1 ensures Stepped(c, longer, i) {
      assert i < |states| - 1 ==> Stepped(c, states, i);
      SteppedAlike(c, states, longer, i, next);
    }
  }

  lemma SteppedAlike(c: Setup, states: seq<State>, longer: seq<State>, i: nat, next: State)
    requires Placed(c) && i < |states| <= |c.bindings| && longer == states + [next]
    requires if i < |states| - 1 then Stepped(c, states, i) else Step(c, states[i], c.bindings[i]) == Some(next)
    ensures Stepped(c, longer, i)
  {
    assert longer[i] == states[i] && longer[i + 1] == if i < |states| - 1 then states[i + 1] else next;
  }

  // ---- the algorithm ----

  method AssignIndexWitness(a: Assigned, e: Expr, pairOf: map<string, string>) returns (r: Option<Assigned>)
    ensures r == AssignAll(a, IndexDemands(e, pairOf))
  {
    if e.index.None? { return Some(a); }
    var index := e.index.value;
    r := Assign(a, index, INDEX_WITNESS);
    if index in pairOf {
      AssignTwo(a, (index, INDEX_WITNESS), (pairOf[index], INDEX_WITNESS));
      assert IndexDemands(e, pairOf) == [(index, INDEX_WITNESS), (pairOf[index], INDEX_WITNESS)];
      if r.Some? { r := Assign(r.value, pairOf[index], INDEX_WITNESS); }
    } else {
      AssignOne(a, (index, INDEX_WITNESS));
      assert IndexDemands(e, pairOf) == [(index, INDEX_WITNESS)];
    }
  }

  /** The base that puts an expression at a slot once the index has its value. */
  function SolveBaseForSlot(e: Expr, slotBase: int, indexValue: int): int {
    slotBase - indexValue * e.scale - e.displacement
  }

  lemma SolvedBase(e: Expr, slotBase: int, a: Assigned)
    requires e.index.Some? ==> e.index.value in a && a[e.index.value] == INDEX_WITNESS
    ensures SolveBaseForSlot(e, slotBase, if e.index.Some? then a[e.index.value] else 0) == BaseValue(e, slotBase)
  {}

  method AssignBinding(c: Setup, st: State, b: Binding) returns (r: Option<State>)
    requires b.slot in c.bases
    ensures r == Step(c, st, b)
  {
    var g2h, h2g := GuestToHost(c.pairs), HostToGuest(c.pairs);
    var at := c.bases[b.slot];
    AssignConcat(st.chosen, IndexDemands(b.guest, g2h), IndexDemands(b.host, h2g));
    var one := AssignIndexWitness(st.chosen, b.guest, g2h);
    if one.None? { return None; }
    var two := AssignIndexWitness(one.value, b.host, h2g);
    if two.None? { return None; }
    var chosen := two.value;
    IndexesHold(c, st, b);
    var guestIndex := if b.guest.index.Some? && b.guest.index.value in chosen then chosen[b.guest.index.value] else 0;
    var hostIndex := if b.host.index.Some? && b.host.index.value in chosen then chosen[b.host.index.value] else 0;
    var guestBase := SolveBaseForSlot(b.guest, at, guestIndex);
    var hostBase := SolveBaseForSlot(b.host, at, hostIndex);
    SolvedBase(b.guest, at, chosen);
    SolvedBase(b.host, at, chosen);
    if c.frame(b.guest.base, b.host.base) {
      r := AssignFrame(c, State(chosen, st.offsets), b, guestBase, hostBase);
    } else {
      var done := AssignBases(c, chosen, b, guestBase, hostBase);
      r := if done.None? then None else Some(State(done.value, st.offsets));
    }
  }

  lemma IndexesHold(c: Setup, st: State, b: Binding)
    requires AssignAll(st.chosen, BothIndexDemands(c, b)).Some?
    ensures var a := AssignAll(st.chosen, BothIndexDemands(c, b)).value;
            && (b.guest.index.Some? ==> b.guest.index.value in a && a[b.guest.index.value] == INDEX_WITNESS)
            && (b.host.index.Some? ==> b.host.index.value in a && a[b.host.index.value] == INDEX_WITNESS)
  {
    var gs, hs := IndexDemands(b.guest, GuestToHost(c.pairs)), IndexDemands(b.host, HostToGuest(c.pairs));
    AssignedMeets(st.chosen, gs + hs);
    if b.guest.index.Some? { assert (gs + hs)[0] == gs[0]; }
    if b.host.index.Some? { assert (gs + hs)[|gs|] == hs[0]; }
  }

  method AssignFrame(c: Setup, st: State, b: Binding, guestBase: int, hostBase: int) returns (r: Option<State>)
    requires b.slot in c.bases && guestBase == BaseValue(b.guest, c.bases[b.slot])
    requires hostBase == BaseValue(b.host, c.bases[b.slot])
    ensures var key, offset := (b.guest.base, b.host.base), hostBase - guestBase;
            var done := if b.guest.base in st.chosen then Some(st.chosen) else AssignAll(st.chosen, FrameDemands(c, b));
            r == if (key in st.offsets && st.offsets[key] != offset) || done.None? then None
                 else Some(State(done.value, st.offsets[key := offset]))
  {
    var key, offset := (b.guest.base, b.host.base), hostBase - guestBase;
    if key in st.offsets && st.offsets[key] != offset { return None; }
    var chosen := st.chosen;
    if b.guest.base !in chosen {
      AssignTwo(chosen, FrameDemands(c, b)[0], FrameDemands(c, b)[1]);
      var one := Assign(chosen, b.guest.base, guestBase);
      if one.None? { return None; }
      var two := Assign(one.value, b.host.base, hostBase);
      if two.None? { return None; }
      chosen := two.value;
    }
    r := Some(State(chosen, st.offsets[key := offset]));
  }

  method AssignBases(c: Setup, a: Assigned, b: Binding, guestBase: int, hostBase: int) returns (r: Option<Assigned>)
    requires b.slot in c.bases && guestBase == BaseValue(b.guest, c.bases[b.slot])
    requires hostBase == BaseValue(b.host, c.bases[b.slot])
    ensures r == AssignAll(a, BaseDemands(c, b))
  {
    var g2h := GuestToHost(c.pairs);
    ghost var one, two := [(b.guest.base, guestBase)], PairDemand(b.guest.base, g2h, guestBase);
    ghost var three := if b.host.base in HostToGuest(c.pairs) then [] else [(b.host.base, hostBase)];
    assert BaseDemands(c, b) == one + two + three && one[1..] == [] && (two != [] ==> two[1..] == [])
      && (three != [] ==> three[1..] == []);
    AssignConcat(a, one + two, three);
    AssignConcat(a, one, two);
    r := Assign(a, b.guest.base, guestBase);
    if r.None? { return; }
    if b.guest.base in g2h {
      r := Assign(r.value, g2h[b.guest.base], guestBase);
      if r.None? { return; }
    }
    if b.host.base !in HostToGuest(c.pairs) { r := Assign(r.value, b.host.base, hostBase); }
  }

  /** Bindings are processed in one way only. */
  lemma {:induction false} TracesAgree(c: Setup, a: seq<State>, b: seq<State>, n: nat)
    requires Placed(c) && Trace(c, a) && Trace(c, b) && n < |a| && n < |b|
    ensures a[n] == b[n]
  {
    if n > 0 {
      TracesAgree(c, a, b, n - 1);
      assert Stepped(c, a, n - 1) && Stepped(c, b, n - 1);
    }
  }

  method InitializeRegisters(c: Setup) returns (r: Option<Assigned>, ghost states: seq<State>)
    requires Placed(c)
    ensures r.Some? <==> exists all :: Complete(c, all)
    ensures r.Some? ==> Complete(c, states) && r.value == states[|states| - 1].chosen
    ensures r.None? ==> Stuck(c, states)
  {
    var st := State(map[], map[]);
    states := [st];
    for n := 0 to |c.bindings|
      invariant Trace(c, states) && |states| == n + 1 && states[n] == st
    {
      var next := AssignBinding(c, st, c.bindings[n]);
      if next.None? {
        StuckNeverCompletes(c, states);
        return None, states;
      }
      LongerTrace(c, states, next.value);
      st := next.value;
      states := states + [st];
    }
    assert Complete(c, states);
    r := Some(st.chosen);
  }

  lemma StuckNeverCompletes(c: Setup, states: seq<State>)
    requires Placed(c) && Stuck(c, states)
    ensures !exists all :: Complete(c, all)
  {
    var n := |states| - 1;
    forall all ensures !Complete(c, all) {
      if Complete(c, all) {
        assert Stepped(c, all, n);
        TracesAgree(c, states, all, n);
      }
    }
  }

  function Chosen(st: Option<State>): Option<Assigned> { if st.None? then None else Some(st.value.chosen) }

  // ---- what success guarantees ----

  /** The address an expression denotes, if its registers have values. */
  function EvalAddress(e: Expr, a: Assigned): Option<int> {
    if e.base !in a then None
    else if e.index.None? then Some(a[e.base] + e.displacement)
    else if e.index.value !in a then None
    else Some(a[e.base] + a[e.index.value] * e.scale + e.displacement)
  }

  lemma StepMeets(c: Setup, st: State, b: Binding)
    requires b.slot in c.bases && Step(c, st, b).Some?
    ensures var z := Step(c, st, b).value.chosen;
            && Extends(st.chosen, z) && Meets(z, BothIndexDemands(c, b))
            && (!IsFrame(b, c.frame) ==> Meets(z, BaseDemands(c, b)))
  {
    AssignedMeets(st.chosen, BothIndexDemands(c, b));
    var indexed := AssignAll(st.chosen, BothIndexDemands(c, b)).value;
    if !IsFrame(b, c.frame) { AssignedMeets(indexed, BaseDemands(c, b)); }
    else if b.guest.base !in indexed { AssignedMeets(indexed, FrameDemands(c, b)); }
  }

  lemma {:induction false} EarlierKept(c: Setup, states: seq<State>, m: nat, n: nat)
    requires Placed(c) && Trace(c, states) && m <= n < |states|
    ensures Extends(states[m].chosen, states[n].chosen)
  {
    if m < n {
      assert Stepped(c, states, n - 1);
      StepMeets(c, states[n - 1], c.bindings[n - 1]);
      EarlierKept(c, states, m, n - 1);
    }
  }

  lemma MeetsExtends(a: Assigned, b: Assigned, ds: seq<Demand>)
    requires Meets(a, ds) && Extends(a, b)
    ensures Meets(b, ds)
  {}

  lemma DemandsKept(c: Setup, states: seq<State>, i: nat)
    requires Placed(c) && Trace(c, states) && i < |states| - 1
    ensures var (z, b) := (states[|states| - 1].chosen, c.bindings[i]);
            Meets(z, BothIndexDemands(c, b)) && (!IsFrame(b, c.frame) ==> Meets(z, BaseDemands(c, b)))
  {
    var z, b := states[|states| - 1].chosen, c.bindings[i];
    assert Stepped(c, states, i);
    StepMeets(c, states[i], b);
    EarlierKept(c, states, i + 1, |states| - 1);
    MeetsExtends(states[i + 1].chosen, z, BothIndexDemands(c, b));
    if !IsFrame(b, c.frame) { MeetsExtends(states[i + 1].chosen, z, BaseDemands(c, b)); }
  }

  lemma IndexHolds(a: Assigned, c: Setup, b: Binding)
    requires Meets(a, BothIndexDemands(c, b))
    ensures b.guest.index.Some? ==> b.guest.index.value in a && a[b.guest.index.value] == INDEX_WITNESS
    ensures b.host.index.Some? ==> b.host.index.value in a && a[b.host.index.value] == INDEX_WITNESS
  {
    var gs, hs := IndexDemands(b.guest, GuestToHost(c.pairs)), IndexDemands(b.host, HostToGuest(c.pairs));
    if b.guest.index.Some? { assert (gs + hs)[0] == gs[0]; }
    if b.host.index.Some? { assert (gs + hs)[|gs|] == hs[0]; }
  }

  lemma BasesHold(a: Assigned, c: Setup, b: Binding)
    requires b.slot in c.bases && Meets(a, BaseDemands(c, b))
    ensures var at := c.bases[b.slot];
            && b.guest.base in a && a[b.guest.base] == BaseValue(b.guest, at)
            && (b.guest.base in GuestToHost(c.pairs) ==>
                  var h := GuestToHost(c.pairs)[b.guest.base]; h in a && a[h] == BaseValue(b.guest, at))
            && (b.host.base !in HostToGuest(c.pairs) ==> b.host.base in a && a[b.host.base] == BaseValue(b.host, at))
  {
    var ds := BaseDemands(c, b);
    assert ds[0].0 == b.guest.base;
    if b.guest.base in GuestToHost(c.pairs) { assert ds[1].0 == GuestToHost(c.pairs)[b.guest.base]; }
    if b.host.base !in HostToGuest(c.pairs) { assert ds[|ds| - 1].0 == b.host.base; }
  }

  /** Outside the frame, the guest address is its slot's base; so is the host's when its base is unpaired,
      and when its base is the guest base's partner exactly if both expressions add the same offset. */
  lemma PlainReached(c: Setup, states: seq<State>, i: nat)
    requires Placed(c) && Complete(c, states) && i < |c.bindings| && !IsFrame(c.bindings[i], c.frame)
    ensures var (a, b) := (states[|states| - 1].chosen, c.bindings[i]);
            && EvalAddress(b.guest, a) == Some(c.bases[b.slot])
            && (b.host.base !in HostToGuest(c.pairs) ==> EvalAddress(b.host, a) == Some(c.bases[b.slot]))
            && (b.guest.base in GuestToHost(c.pairs) && GuestToHost(c.pairs)[b.guest.base] == b.host.base ==>
                  (EvalAddress(b.host, a) == Some(c.bases[b.slot]) <==> Offset(b.guest) == Offset(b.host)))
  {
    DemandsKept(c, states, i);
    var a, b := states[|states| - 1].chosen, c.bindings[i];
    IndexHolds(a, c, b);
    BasesHold(a, c, b);
  }

  // ---- when assignment succeeds ----

  function PlainDemands(c: Setup, b: Binding): seq<Demand>
    requires b.slot in c.bases
  {
    BothIndexDemands(c, b) + BaseDemands(c, b)
  }

  /** Everything the first `n` bindings demand, when none of them is a frame binding. */
  function AllDemands(c: Setup, n: nat): seq<Demand>
    requires Placed(c) && n <= |c.bindings|
  {
    if n == 0 then [] else AllDemands(c, n - 1) + PlainDemands(c, c.bindings[n - 1])
  }

  lemma PlainStep(c: Setup, st: State, b: Binding)
    requires b.slot in c.bases && !IsFrame(b, c.frame)
    ensures Chosen(Step(c, st, b)) == AssignAll(st.chosen, PlainDemands(c, b))
  {
    AssignConcat(st.chosen, BothIndexDemands(c, b), BaseDemands(c, b));
  }

  ghost predicate AllPlain(c: Setup) { forall i :: 0 <= i < |c.bindings| ==> !IsFrame(c.bindings[i], c.frame) }

  lemma OneMoreDemand(c: Setup, n: nat)
    requires Placed(c) && n < |c.bindings|
    ensures var before := AssignAll(map[], AllDemands(c, n));
            AssignAll(map[], AllDemands(c, n + 1)) == if before.None? then None
                else AssignAll(before.value, PlainDemands(c, c.bindings[n]))
  {
    AssignConcat(map[], AllDemands(c, n), PlainDemands(c, c.bindings[n]));
  }

  lemma {:induction false} PlainIsAssignAll(c: Setup, states: seq<State>, n: nat)
    requires Placed(c) && Trace(c, states) && n < |states| && AllPlain(c)
    ensures Some(states[n].chosen) == AssignAll(map[], AllDemands(c, n))
  {
    if n > 0 {
      PlainIsAssignAll(c, states, n - 1);
      assert Stepped(c, states, n - 1);
      OneMoreDemand(c, n - 1);
      PlainStep(c, states[n - 1], c.bindings[n - 1]);
    }
  }

  /** The demands of the first `n` bindings cannot all be met. */
  predicate Unmet(c: Setup, n: nat)
    requires Placed(c) && n <= |c.bindings|
  {
    AssignAll(map[], AllDemands(c, n)).None?
  }

  lemma UnmetOnce(c: Setup, n: nat)
    requires Placed(c) && n < |c.bindings| && Unmet(c, n)
    ensures Unmet(c, n + 1)
  {
    OneMoreDemand(c, n);
  }

  lemma UnmetStays(c: Setup, m: nat)
    requires Placed(c) && m <= |c.bindings| && Unmet(c, m)
    ensures Unmet(c, |c.bindings|)
  {
    for n := m to |c.bindings|
      invariant Unmet(c, n)
    {
      UnmetOnce(c, n);
    }
  }

  lemma PlainStuck(c: Setup, states: seq<State>)
    requires Placed(c) && AllPlain(c) && Stuck(c, states)
    ensures Unmet(c, |c.bindings|)
  {
    var n := |states| - 1;
    PlainIsAssignAll(c, states, n);
    PlainStep(c, states[n], c.bindings[n]);
    OneMoreDemand(c, n);
    UnmetStays(c, n + 1);
  }

  /** Without frame bindings, assignment succeeds exactly when no register is asked to hold two values. */
  lemma PlainSucceedsIff(c: Setup, states: seq<State>)
    requires Placed(c) && AllPlain(c) && (Complete(c, states) || Stuck(c, states))
    ensures Complete(c, states) <==> Consistent(map[], AllDemands(c, |c.bindings|))
  {
    AssignsIffConsistent(map[], AllDemands(c, |c.bindings|));
    if Complete(c, states) { PlainIsAssignAll(c, states, |c.bindings|); } else { PlainStuck(c, states); }
  }
}
