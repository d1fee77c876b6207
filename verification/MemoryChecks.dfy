/** Matching the memory accesses two fragments made against the expected ones. */
module MemoryChecks {
  import opened Wrappers
  import opened MemoryReplay
  import opened Sorting

  /** A symbolic expression: its value under each valuation of the symbols. */
  type Expr = nat -> int

  datatype Expectation = Expectation(slot: string, kind: Kind, width: nat)

  datatype Event = Event(kind: Kind, address: Expr, value: Expr, width: nat)

  datatype Check = Pass | Fail(reason: string)

  /** `equal` is the relation checker and the two evaluators pick one concrete value of an expression, if the solver
      can. */
  datatype Context = Context(expectations: seq<Expectation>, guest: seq<Event>, host: seq<Event>, hasAlias: bool,
                             bases: map<string, int>, equal: (Expr, Expr) -> bool,
                             evalGuest: Expr -> Option<int>, evalHost: Expr -> Option<int>)

  /** What the constructors of the memory description enforce. */
  predicate Constructed(c: Context) {
    forall i :: 0 <= i < |c.expectations| ==> c.expectations[i].width >= 1 && c.expectations[i].slot in c.bases
  }

  /** The checker decides equality under every valuation the path constraints allow. */
  ghost predicate Exact(c: Context, models: iset<nat>) {
    forall a: Expr, b: Expr :: c.equal(a, b) <==> forall v :: v in models ==> a(v) == b(v)
  }

  predicate AllPass(checks: seq<Check>) { forall i :: 0 <= i < |checks| ==> checks[i].Pass? }

  // ---- one expected access ----

  /** A slot's base as a 64-bit constant. */
  function Constant(base: int): Expr { v => base % M64 }

  predicate Aligned(x: Expectation, g: Event, h: Event) {
    g.kind == x.kind && h.kind == x.kind && g.width == x.width && h.width == x.width
  }

  predicate Placed(c: Context, x: Expectation, g: Event, h: Event)
    requires x.slot in c.bases
  {
    var base := Constant(c.bases[x.slot]);
    c.equal(g.address, base) && c.equal(base, h.address)
  }

  predicate Agree(c: Context, x: Expectation, g: Event, h: Event)
    requires x.slot in c.bases
  {
    Aligned(x, g, h) && Placed(c, x, g, h) && c.equal(g.value, h.value)
  }

  method CheckOne(c: Context, x: Expectation, g: Event, h: Event, withValue: bool) returns (check: Check)
    requires x.slot in c.bases
    ensures check.Pass? <==> if withValue then Agree(c, x, g, h) else Aligned(x, g, h) && Placed(c, x, g, h)
    ensures check == Fail("address mismatch") <==> Aligned(x, g, h) && !Placed(c, x, g, h)
  {
    if g.kind != x.kind || h.kind != x.kind { return Fail("kind mismatch"); }
    if g.width != x.width || h.width != x.width { return Fail("width mismatch"); }
    var base := Constant(c.bases[x.slot]);
    if !c.equal(g.address, base) || !c.equal(base, h.address) { return Fail("address mismatch"); }
    if withValue && !c.equal(g.value, h.value) { return Fail("value mismatch"); }
    check := Pass;
  }

  // ---- accesses in execution order ----

  predicate SameCounts(c: Context) { |c.guest| == |c.expectations| && |c.host| == |c.expectations| }

  /** Some access of the right kind and width is not where its expectation is: the cue to match by slot. */
  predicate Misplaced(c: Context)
    requires Constructed(c) && SameCounts(c)
  {
    |c.expectations| >= 2 &&
    exists i :: 0 <= i < |c.expectations|
             && Aligned(c.expectations[i], c.guest[i], c.host[i])
                && !Placed(c, c.expectations[i], c.guest[i], c.host[i])
  }

  predicate OrderedVerdict(c: Context)
    requires Constructed(c) && SameCounts(c)
  {
    forall i :: 0 <= i < |c.expectations| ==> Agree(c, c.expectations[i], c.guest[i], c.host[i])
  }

  method CheckOrdered(c: Context) returns (checks: Option<seq<Check>>)
    requires Constructed(c) && SameCounts(c)
    ensures checks.None? <==> Misplaced(c)
    ensures checks.Some? ==> (AllPass(checks.value) <==> OrderedVerdict(c))
  {
    var n := |c.expectations|;
    var failed: seq<Check> := [];
    for i := 0 to n
      invariant n >= 2 ==> forall k :: 0 <= k < i ==> Aligned(c.expectations[k], c.guest[k], c.host[k]) ==>
                Placed(c, c.expectations[k], c.guest[k], c.host[k])
      invariant forall k :: 0 <= k < |failed| ==> !failed[k].Pass?
      invariant failed == [] <==> forall k :: 0 <= k < i ==>
                Aligned(c.expectations[k], c.guest[k], c.host[k]) && Placed(c, c.expectations[k], c.guest[k], c.host[k])
    {
      var check := CheckOne(c, c.expectations[i], c.guest[i], c.host[i], false);
      if check == Fail("address mismatch") && n >= 2 { return None; }
      if check != Pass { failed := failed + [check]; }
    }
    if failed != [] {
      assert !failed[0].Pass?;
      return Some(failed);
    }
    var values: seq<Check> := [];
    for i := 0 to n
      invariant |values| == i
      invariant forall k :: 0 <= k < i ==> (values[k].Pass? <==> Agree(c, c.expectations[k], c.guest[k], c.host[k]))
    {
      values := values + [if c.equal(c.guest[i].value, c.host[i].value) then Pass else Fail("value mismatch")];
    }
    checks := Some(values);
  }

  // ---- accesses matched by slot ----

  function Ranges(c: Context): seq<(int, int)>
    requires Constructed(c)
  {
    seq(|c.expectations|, i requires 0 <= i < |c.expectations| =>
      (c.bases[c.expectations[i].slot], c.bases[c.expectations[i].slot] + c.expectations[i].width))
  }

  function Start(r: (int, int)): int { r.0 }

  function End(r: (int, int)): int { r.1 }

  predicate TupleLe(a: (int, int), b: (int, int)) { a.0 < b.0 || (a.0 == b.0 && a.1 <= b.1) }

  /** No two expected accesses overlap. */
  ghost predicate RangesApart(c: Context)
    requires Constructed(c)
  {
    PairwiseApart(Ranges(c), Start, End)
  }

  predicate OneExpectedKind(c: Context) {
    c.expectations != [] && forall i :: 0 <= i < |c.expectations| ==> c.expectations[i].kind == c.expectations[0].kind
  }

  function Slots(c: Context): set<string> { set i | 0 <= i < |c.expectations| :: c.expectations[i].slot }

  ghost predicate Hit(at: map<string, nat>, e: nat) { exists s :: s in at && at[s] == e }

  /** `at` pairs every expected slot with the one event that went to its base, leaving no event over. */
  ghost predicate SideMatches(c: Context, events: seq<Event>, eval: Expr -> Option<int>, at: map<string, nat>) {
    && at.Keys == Slots(c) && Slots(c) <= c.bases.Keys
    && (forall s :: s in at ==> at[s] < |events| && eval(events[at[s]].address) == Some(c.bases[s]))
    && (forall s, t :: s in at && t in at && s != t ==> at[s] != at[t])
    && (forall e: nat :: e < |events| ==> Hit(at, e))
  }

  ghost predicate SlotGuards(c: Context)
    requires Constructed(c)
  {
    OneExpectedKind(c) && !c.hasAlias && RangesApart(c)
  }

  ghost predicate AgreeBySlot(c: Context, g: map<string, nat>, h: map<string, nat>)
    requires Constructed(c) && SideMatches(c, c.guest, c.evalGuest, g) && SideMatches(c, c.host, c.evalHost, h)
  {
    forall k :: 0 <= k < |c.expectations| ==> AgreeAt(c, g, h, k)
  }

  ghost predicate AgreeAt(c: Context, g: map<string, nat>, h: map<string, nat>, k: nat)
    requires Constructed(c) && SideMatches(c, c.guest, c.evalGuest, g) && SideMatches(c, c.host, c.evalHost, h)
    requires k < |c.expectations|
  {
    var x := c.expectations[k];
    x.slot in Slots(c) && Agree(c, x, c.guest[g[x.slot]], c.host[h[x.slot]])
  }

  ghost predicate SlotVerdict(c: Context)
    requires Constructed(c)
  {
    SlotGuards(c) &&
    exists g, h :: SideMatches(c, c.guest, c.evalGuest, g) && SideMatches(c, c.host, c.evalHost, h)
        && AgreeBySlot(c, g, h)
  }

  method ScanNeighbours(ranges: seq<(int, int)>) returns (apart: bool)
    ensures apart <==> AdjacentApart(ranges, Start, End)
  {
    var i := 0;
    while i < |ranges| - 1
      invariant i <= |ranges|
      invariant forall k :: 0 <= k < i && k < |ranges| - 1 ==> End(ranges[k]) <= Start(ranges[k + 1])
    {
      if ranges[i].1 > ranges[i + 1].0 {
        assert End(ranges[i]) > Start(ranges[i + 1]);
        return false;
      }
      i := i + 1;
    }
    apart := true;
  }

  /** The scan of the sorted ranges finds an overlap exactly when two ranges overlap. */
  method CheckRanges(c: Context) returns (apart: bool)
    requires Constructed(c)
    ensures apart <==> RangesApart(c)
  {
    var ranges := Sort(Ranges(c), TupleLe);
    SortedScanDecides(c, ranges);
    apart := ScanNeighbours(ranges);
  }

  lemma SortedScanDecides(c: Context, ranges: seq<(int, int)>)
    requires Constructed(c) && ranges == Sort(Ranges(c), TupleLe)
    ensures AdjacentApart(ranges, Start, End) <==> RangesApart(c)
  {
    TupleOrder();
    SortSorts(Ranges(c), TupleLe);
    SortedByStart(Ranges(c), ranges);
    AdjacentIffPairwise(Ranges(c), ranges, Start, End);
  }

  lemma TupleOrder()
    ensures TotalPreorder(TupleLe)
  {}

  lemma SortedByStart(s: seq<(int, int)>, t: seq<(int, int)>)
    requires Sorted(t, TupleLe)
    ensures forall i, j :: 0 <= i < j < |t| ==> Start(t[i]) <= Start(t[j])
  {
    forall i, j | 0 <= i < j < |t| ensures Start(t[i]) <= Start(t[j]) { assert TupleLe(t[i], t[j]); }
  }

  method Evaluate(events: seq<Event>, eval: Expr -> Option<int>) returns (addresses: Option<seq<int>>)
    ensures addresses.Some? ==> |addresses.value| == |events|
    ensures addresses.Some? ==> forall i :: 0 <= i < |events| ==> eval(events[i].address) == Some(addresses.value[i])
    ensures addresses.None? ==> exists i :: 0 <= i < |events| && eval(events[i].address).None?
  {
    var found: seq<int> := [];
    for i := 0 to |events|
      invariant |found| == i && forall k :: 0 <= k < i ==> eval(events[k].address) == Some(found[k])
    {
      var address := eval(events[i].address);
      if address.None? { return None; }
      found := found + [address.value];
    }
    addresses := Some(found);
  }

  lemma SlotsKnown(c: Context)
    requires Constructed(c)
    ensures Slots(c) <= c.bases.Keys && |Slots(c)| <= |c.expectations|
  {
    FewSlots(c, |c.expectations|);
  }

  lemma {:induction false} FewSlots(c: Context, n: nat)
    requires n <= |c.expectations|
    ensures |set i | 0 <= i < n :: c.expectations[i].slot| <= n
  {
    if n > 0 {
      FewSlots(c, n - 1);
      assert (set i | 0 <= i < n :: c.expectations[i].slot)
             == (set i | 0 <= i < n - 1 :: c.expectations[i].slot) + {c.expectations[n - 1].slot};
    }
  }

  /** Separate ranges start at different places. */
  lemma BasesDiffer(c: Context)
    requires Constructed(c) && RangesApart(c)
    ensures forall s, t :: s in Slots(c) && t in Slots(c) && s != t ==>
            s in c.bases && t in c.bases && c.bases[s] != c.bases[t]
  {
    forall s, t | s in Slots(c) && t in Slots(c) && s != t
      ensures s in c.bases && t in c.bases && c.bases[s] != c.bases[t]
    {
      var i :| 0 <= i < |c.expectations| && c.expectations[i].slot == s;
      var j :| 0 <= j < |c.expectations| && c.expectations[j].slot == t;
      if i < j {
        assert Apart(Ranges(c)[i], Ranges(c)[j], Start, End);
      } else {
        assert Apart(Ranges(c)[j], Ranges(c)[i], Start, End);
      }
    }
  }

  /** The first expected slot based at an address. */
  method FindSlot(c: Context, address: int) returns (slot: Option<string>)
    requires Constructed(c)
    ensures slot.Some? ==> slot.value in Slots(c) && slot.value in c.bases && c.bases[slot.value] == address
    ensures slot.None? ==> forall s :: s in Slots(c) ==> s in c.bases && c.bases[s] != address
  {
    for i := 0 to |c.expectations|
      invariant forall k :: 0 <= k < i ==> c.bases[c.expectations[k].slot] != address
    {
      if c.bases[c.expectations[i].slot] == address { return Some(c.expectations[i].slot); }
    }
    slot := None;
  }

  /** The events before `n` matched so far. */
  ghost predicate Partly(c: Context, addresses: seq<int>, n: nat, at: map<string, nat>) {
    && n <= |addresses| && at.Keys <= Slots(c) <= c.bases.Keys && |at| == n
    && (forall s :: s in at ==> at[s] < n && addresses[at[s]] == c.bases[s])
    && (forall e: nat :: e < n ==> Hit(at, e))
  }

  lemma HitOneMore(at: map<string, nat>, n: nat, slot: string, e: nat)
    requires slot !in at && (e < n ==> Hit(at, e)) && e <= n
    ensures Hit(at[slot := n], e)
  {
    var next := at[slot := n];
    if e < n {
      var s :| s in at && at[s] == e;
      assert next[s] == e;
    } else { assert next[slot] == e; }
  }

  lemma MatchOneMore(c: Context, addresses: seq<int>, n: nat, at: map<string, nat>, slot: string)
    requires Partly(c, addresses, n, at) && n < |addresses| && slot !in at && slot in Slots(c)
    requires c.bases[slot] == addresses[n]
    ensures Partly(c, addresses, n + 1, at[slot := n])
  {
    var next := at[slot := n];
    GrowsByOne(at, slot, n);
    forall e: nat | e < n + 1 ensures Hit(next, e) { HitOneMore(at, n, slot, e); }
  }

  lemma GrowsByOne(at: map<string, nat>, slot: string, n: nat)
    requires slot !in at
    ensures |at[slot := n]| == |at| + 1 && at[slot := n].Keys == at.Keys + {slot}
  {
    var next := at[slot := n];
    assert next.Keys == at.Keys + {slot};
    assert |next| == |next.Keys| && |at| == |at.Keys|;
  }

  lemma SubsetFills(a: set<string>, b: set<string>)
    requires a <= b && |b| <= |a|
    ensures a == b
  {
    if x :| x in b && x !in a {
      SubsetSmaller(a, b - {x});
    }
  }

  lemma {:induction false} SubsetSmaller(a: set<string>, b: set<string>)
    requires a <= b
    ensures |a| <= |b|
    decreases b
  {
    if x :| x in a { SubsetSmaller(a - {x}, b - {x}); }
  }

  /** Counting: as many matched slots as expected accesses leave no expected slot unmatched. */
  lemma FullMatch(c: Context, events: seq<Event>, eval: Expr -> Option<int>, addresses: seq<int>, at: map<string, nat>)
    requires Constructed(c) && RangesApart(c) && |events| == |addresses| == |c.expectations|
    requires forall i :: 0 <= i < |events| ==> eval(events[i].address) == Some(addresses[i])
    requires Partly(c, addresses, |events|, at)
    ensures SideMatches(c, events, eval, at)
  {
    SlotsKnown(c);
    SubsetFills(at.Keys, Slots(c));
    BasesDiffer(c);
  }

  /** A match gives every event a slot based at its address. */
  lemma MatchedEvent(c: Context, events: seq<Event>, eval: Expr -> Option<int>, full: map<string, nat>, e: nat)
    ensures SideMatches(c, events, eval, full) && e < |events| ==>
              exists s :: s in full && full[s] == e && s in Slots(c) && s in c.bases
                  && eval(events[e].address) == Some(c.bases[s])
  {
    if SideMatches(c, events, eval, full) && e < |events| { assert Hit(full, e); }
  }

  /** Two events at one address, or one at none of the bases, rule a match out. */
  lemma NoMatch(c: Context, events: seq<Event>, eval: Expr -> Option<int>, addresses: seq<int>, n: nat,
      at: map<string, nat>, slot: Option<string>)
    requires Constructed(c) && RangesApart(c) && |events| == |addresses| && n < |events|
    requires forall i :: 0 <= i < |events| ==> eval(events[i].address) == Some(addresses[i])
    requires Partly(c, addresses, n, at)
    requires if slot.None? then forall s :: s in Slots(c) ==> s in c.bases && c.bases[s] != addresses[n]
             else slot.value in at && c.bases[slot.value] == addresses[n]
    ensures forall full :: !SideMatches(c, events, eval, full)
  {
    BasesDiffer(c);
    forall full ensures !SideMatches(c, events, eval, full) {
      MatchedEvent(c, events, eval, full, n);
      if slot.Some? { MatchedEvent(c, events, eval, full, at[slot.value]); }
    }
  }

  /** The slot-to-event map of one side; the lookups that follow cannot fail. */
  method MatchSide(c: Context, events: seq<Event>, eval: Expr -> Option<int>, addresses: seq<int>)
    returns (at: Option<map<string, nat>>)
    requires Constructed(c) && RangesApart(c) && |events| == |addresses| == |c.expectations|
    requires forall i :: 0 <= i < |events| ==> eval(events[i].address) == Some(addresses[i])
    ensures at.Some? ==> SideMatches(c, events, eval, at.value)
    ensures at.None? ==> forall full :: !SideMatches(c, events, eval, full)
  {
    var found: map<string, nat> := map[];
    var used: set<int> := {};
    SlotsKnown(c);
    for i := 0 to |addresses|
      invariant Partly(c, addresses, i, found) && used == Used(c, found)
    {
      var slot := FindSlot(c, addresses[i]);
      if slot.None? || slot.value in found {
        NoMatch(c, events, eval, addresses, i, found, slot);
        return None;
      }
      if addresses[i] in used {
        var s :| s in found && s in c.bases && c.bases[s] == addresses[i];
        NoMatch(c, events, eval, addresses, i, found, Some(s));
        return None;
      }
      MatchOneMore(c, addresses, i, found, slot.value);
      UsedMore(c, found, slot.value, i);
      found := found[slot.value := i];
      used := used + {addresses[i]};
    }
    FullMatch(c, events, eval, addresses, found);
    at := Some(found);
  }

  /** The addresses of the slots matched so far. */
  function Used(c: Context, found: map<string, nat>): set<int> { set s | s in found && s in c.bases :: c.bases[s] }

  lemma UsedMore(c: Context, found: map<string, nat>, slot: string, i: nat)
    requires slot in c.bases
    ensures Used(c, found[slot := i]) == Used(c, found) + {c.bases[slot]}
  {
    var next := found[slot := i];
    forall a | a in Used(c, found) + {c.bases[slot]} ensures a in Used(c, next) {
      if a in Used(c, found) {
        var s :| s in found && s in c.bases && c.bases[s] == a;
        assert s in next;
      } else { assert slot in next; }
    }
  }

  /** A match is unique. */
  lemma SameMatch(c: Context, events: seq<Event>, eval: Expr -> Option<int>, a: map<string, nat>, b: map<string, nat>)
    requires Constructed(c) && RangesApart(c) && SideMatches(c, events, eval, a) && SideMatches(c, events, eval, b)
    ensures a == b
  {
    BasesDiffer(c);
    forall s | s in a ensures a[s] == b[s] {
      assert Hit(b, a[s]);
      var t :| t in b && b[t] == a[s];
    }
  }

  method CheckBySlot(c: Context) returns (checks: Option<seq<Check>>)
    requires Constructed(c) && SameCounts(c)
    ensures checks.Some? && AllPass(checks.value) <==> SlotVerdict(c)
  {
    if c.expectations == [] { return None; }
    if exists i :: 0 <= i < |c.expectations| && c.expectations[i].kind != c.expectations[0].kind { return None; }
    if c.hasAlias { return None; }
    var guestAddresses := Evaluate(c.guest, c.evalGuest);
    if guestAddresses.None? { NothingEvaluates(c, c.guest, c.evalGuest); return None; }
    var hostAddresses := Evaluate(c.host, c.evalHost);
    if hostAddresses.None? { NothingEvaluates(c, c.host, c.evalHost); return None; }
    var apart := CheckRanges(c);
    if !apart { return None; }
    var g := MatchSide(c, c.guest, c.evalGuest, guestAddresses.value);
    if g.None? { return None; }
    var h := MatchSide(c, c.host, c.evalHost, hostAddresses.value);
    if h.None? { return None; }
    assert g.value.Keys == h.value.Keys;
    var found := CheckSlots(c, g.value, h.value);
    DecidedBySlot(c, g.value, h.value);
    checks := Some(found);
  }

  lemma NothingEvaluates(c: Context, events: seq<Event>, eval: Expr -> Option<int>)
    requires exists i :: 0 <= i < |events| && eval(events[i].address).None?
    ensures forall at :: !SideMatches(c, events, eval, at)
  {
    var i: nat :| i < |events| && eval(events[i].address).None?;
    forall at ensures !SideMatches(c, events, eval, at) { MatchedEvent(c, events, eval, at, i); }
  }

  lemma DecidedBySlot(c: Context, g: map<string, nat>, h: map<string, nat>)
    requires Constructed(c) && SlotGuards(c) && SideMatches(c, c.guest, c.evalGuest, g)
    requires SideMatches(c, c.host, c.evalHost, h)
    ensures SlotVerdict(c) <==> AgreeBySlot(c, g, h)
  {
    if SlotVerdict(c) {
      var g', h' :| SideMatches(c, c.guest, c.evalGuest, g') && SideMatches(c, c.host, c.evalHost, h')
        && AgreeBySlot(c, g', h');
      SameMatch(c, c.guest, c.evalGuest, g, g');
      SameMatch(c, c.host, c.evalHost, h, h');
    }
  }

  /** Each expectation with the events matched to its slot. */
  function MatchedEvents(c: Context, g: map<string, nat>, h: map<string, nat>)
    : (matched: seq<(Expectation, Event, Event)>)
    requires Constructed(c) && SideMatches(c, c.guest, c.evalGuest, g) && SideMatches(c, c.host, c.evalHost, h)
    ensures |matched| == |c.expectations|
  {
    seq(|c.expectations|, k requires 0 <= k < |c.expectations| => MatchedAt(c, g, h, k))
  }

  function MatchedAt(c: Context, g: map<string, nat>, h: map<string, nat>, k: nat): (Expectation, Event, Event)
    requires Constructed(c) && SideMatches(c, c.guest, c.evalGuest, g) && SideMatches(c, c.host, c.evalHost, h)
    requires k < |c.expectations|
  {
    var x := c.expectations[k];
    assert x.slot in Slots(c);
    (x, c.guest[g[x.slot]], c.host[h[x.slot]])
  }

  lemma AgreeMatched(c: Context, g: map<string, nat>, h: map<string, nat>, k: nat)
    requires Constructed(c) && SideMatches(c, c.guest, c.evalGuest, g) && SideMatches(c, c.host, c.evalHost, h)
    requires k < |c.expectations|
    ensures var m := MatchedAt(c, g, h, k); m.0.slot in c.bases && (AgreeAt(c, g, h, k) <==> Agree(c, m.0, m.1, m.2))
  {
    assert c.expectations[k].slot in Slots(c);
  }

  method CheckSlots(c: Context, g: map<string, nat>, h: map<string, nat>) returns (checks: seq<Check>)
    requires Constructed(c) && SideMatches(c, c.guest, c.evalGuest, g) && SideMatches(c, c.host, c.evalHost, h)
    ensures AllPass(checks) <==> AgreeBySlot(c, g, h)
  {
    var matched := MatchedEvents(c, g, h);
    forall k: nat | k < |matched|
      ensures var m := matched[k]; m.0.slot in c.bases && (AgreeAt(c, g, h, k) <==> Agree(c, m.0, m.1, m.2))
    {
      AgreeMatched(c, g, h, k);
    }
    checks := CheckEach(c, matched);
  }

  method CheckEach(c: Context, matched: seq<(Expectation, Event, Event)>) returns (checks: seq<Check>)
    requires forall k :: 0 <= k < |matched| ==> matched[k].0.slot in c.bases
    ensures |checks| == |matched|
    ensures forall k :: 0 <= k < |checks| ==> (checks[k].Pass? <==> Agree(c, matched[k].0, matched[k].1, matched[k].2))
  {
    checks := [];
    for i := 0 to |matched|
      invariant |checks| == i
      invariant forall k :: 0 <= k < i ==> (checks[k].Pass? <==> Agree(c, matched[k].0, matched[k].1, matched[k].2))
    {
      var check := CheckOne(c, matched[i].0, matched[i].1, matched[i].2, true);
      checks := checks + [check];
    }
  }

  // ---- the whole check ----

  ghost predicate Verdict(c: Context)
    requires Constructed(c)
  {
    SameCounts(c) && if Misplaced(c) then SlotVerdict(c) else OrderedVerdict(c)
  }

  method CheckMemoryEvents(c: Context) returns (checks: seq<Check>)
    requires Constructed(c)
    ensures AllPass(checks) <==> Verdict(c)
  {
    var conflict := [Fail("conflict")];
    assert !conflict[0].Pass?;
    if |c.guest| != |c.expectations| || |c.host| != |c.expectations| { return conflict; }
    var ordered := CheckOrdered(c);
    if ordered.Some? { return ordered.value; }
    var bySlot := CheckBySlot(c);
    if bySlot.Some? { return bySlot.value; }
    checks := conflict;
  }

  // ---- what a pass means ----

  /** The accesses of one concrete run. */
  function RunOf(events: seq<Event>, v: nat): seq<Access> {
    seq(|events|, i requires 0 <= i < |events| =>
        Access(events[i].kind, events[i].address(v), events[i].width, events[i].value(v)))
  }

  lemma OrderedRunsEqual(c: Context, models: iset<nat>, v: nat)
    requires Constructed(c) && Exact(c, models) && v in models && SameCounts(c) && OrderedVerdict(c)
    ensures RunOf(c.guest, v) == RunOf(c.host, v)
  {
    var g, h := RunOf(c.guest, v), RunOf(c.host, v);
    forall i | 0 <= i < |g| ensures g[i] == h[i] {
      assert Agree(c, c.expectations[i], c.guest[i], c.host[i]);
    }
  }

  /** What an event matched to an expectation does in a concrete run. */
  lemma AgreedAccess(c: Context, models: iset<nat>, v: nat, x: Expectation, g: Event, h: Event)
    requires x.slot in c.bases && Exact(c, models) && v in models && Agree(c, x, g, h)
    ensures g.kind == h.kind == x.kind && g.width == h.width == x.width
    ensures g.address(v) == h.address(v) == c.bases[x.slot] % M64 && g.value(v) == h.value(v)
  {}

  /** The expectation an event was matched to. */
  lemma ExpectationOf(c: Context, events: seq<Event>, eval: Expr -> Option<int>, at: map<string, nat>, e: nat)
    returns (k: nat)
    requires SideMatches(c, events, eval, at) && e < |events|
    ensures k < |c.expectations| && c.expectations[k].slot in at && at[c.expectations[k].slot] == e
  {
    assert Hit(at, e);
    var s :| s in at && at[s] == e;
    assert s in Slots(c);
    k :| 0 <= k < |c.expectations| && c.expectations[k].slot == s;
  }

  /** In one run, the events matched to expectation `k` are one access, of its kind and width, at its slot's base. */
  ghost predicate InPlace(c: Context, g: map<string, nat>, h: map<string, nat>, v: nat, k: nat)
    requires Constructed(c) && k < |c.expectations|
  {
    var x := c.expectations[k];
    && x.slot in g && x.slot in h && g[x.slot] < |c.guest| && h[x.slot] < |c.host|
    && var a := RunOf(c.guest, v)[g[x.slot]];
       && a.kind == x.kind && a.width == x.width && a.address == c.bases[x.slot] % M64
       && RunOf(c.host, v)[h[x.slot]] == a
  }

  ghost predicate AllInPlace(c: Context, g: map<string, nat>, h: map<string, nat>, v: nat)
    requires Constructed(c)
  {
    forall k :: 0 <= k < |c.expectations| ==> InPlace(c, g, h, v, k)
  }

  lemma SlotInPlace(c: Context, models: iset<nat>, v: nat, g: map<string, nat>, h: map<string, nat>, k: nat)
    requires Constructed(c) && Exact(c, models) && v in models && k < |c.expectations|
    requires SideMatches(c, c.guest, c.evalGuest, g) && SideMatches(c, c.host, c.evalHost, h) && AgreeBySlot(c, g, h)
    ensures InPlace(c, g, h, v, k)
  {
    var x := c.expectations[k];
    assert AgreeAt(c, g, h, k);
    AgreedAccess(c, models, v, x, c.guest[g[x.slot]], c.host[h[x.slot]]);
  }

  /** Events that a pass matched to each other: by position, or by slot. */
  ghost predicate MatchedRunsEqual(c: Context, v: nat)
    requires Constructed(c) && SameCounts(c)
  {
    if !Misplaced(c) then RunOf(c.guest, v) == RunOf(c.host, v)
    else exists g, h :: && SideMatches(c, c.guest, c.evalGuest, g) && SideMatches(c, c.host, c.evalHost, h)
                        && AllInPlace(c, g, h, v)
  }

  lemma AllSlotsInPlace(c: Context, models: iset<nat>, v: nat, g: map<string, nat>, h: map<string, nat>)
    requires Constructed(c) && Exact(c, models) && v in models
    requires SideMatches(c, c.guest, c.evalGuest, g) && SideMatches(c, c.host, c.evalHost, h) && AgreeBySlot(c, g, h)
    ensures AllInPlace(c, g, h, v)
  {
    forall k | 0 <= k < |c.expectations| ensures InPlace(c, g, h, v, k) { SlotInPlace(c, models, v, g, h, k); }
  }

  lemma SlotEventsAgree(c: Context, models: iset<nat>, v: nat)
    requires Constructed(c) && Exact(c, models) && v in models && SlotVerdict(c)
    ensures exists g, h :: && SideMatches(c, c.guest, c.evalGuest, g) && SideMatches(c, c.host, c.evalHost, h)
                           && AllInPlace(c, g, h, v)
  {
    var g, h :| SideMatches(c, c.guest, c.evalGuest, g) && SideMatches(c, c.host, c.evalHost, h)
      && AgreeBySlot(c, g, h);
    AllSlotsInPlace(c, models, v, g, h);
  }

  /** When every check passes, matched events access one address with one width and one value, reads included. */
  lemma MatchedEventsAgree(c: Context, models: iset<nat>, v: nat)
    requires Constructed(c) && Exact(c, models) && v in models && Verdict(c)
    ensures MatchedRunsEqual(c, v)
  {
    if Misplaced(c) {
      SlotEventsAgree(c, models, v);
    } else {
      OrderedRunsEqual(c, models, v);
    }
  }
}
