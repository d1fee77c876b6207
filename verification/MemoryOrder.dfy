/** Which expected accesses let passing checks hide a difference in memory, and which do not. */
module MemoryOrder {
  import opened Wrappers
  import opened MemoryReplay
  import opened Sorting
  import opened Permutations
  import opened MemoryChecks

  // ---- conditions on the expected accesses ----

  predicate Writes(c: Context) { c.expectations != [] && c.expectations[0].kind == Write }

  /** The place of an expected access. */
  function PlaceOf(c: Context, k: nat): Access
    requires Constructed(c) && k < |c.expectations|
  {
    Access(c.expectations[k].kind, c.bases[c.expectations[k].slot], c.expectations[k].width, 0)
  }

  /** Two expected accesses have a byte in common, modulo 2^64. */
  predicate Sharing(c: Context)
    requires Constructed(c)
  {
    exists i, j :: 0 <= i < j < |c.expectations| && ShareByte(PlaceOf(c, i), PlaceOf(c, j))
  }

  predicate DistinctWidths(c: Context) {
    forall i, j :: 0 <= i < j < |c.expectations| ==> c.expectations[i].width != c.expectations[j].width
  }

  /** Every slot is based at an address. */
  predicate Addressable(c: Context)
    requires Constructed(c)
  {
    forall k :: 0 <= k < |c.expectations| ==> 0 <= c.bases[c.expectations[k].slot] < M64
  }

  /** The evaluators return addresses. */
  ghost predicate Concrete(c: Context) {
    forall e: Expr :: (c.evalGuest(e).Some? ==> 0 <= c.evalGuest(e).value < M64)
        && (c.evalHost(e).Some? ==> 0 <= c.evalHost(e).value < M64)
  }

  /** The order in which these accesses are made can never tell, or the slot-based match never changes it. */
  ghost predicate OrderFree(c: Context)
    requires Constructed(c)
  {
    !SlotGuards(c) || !Addressable(c) || !Writes(c) || !Sharing(c) || DistinctWidths(c)
  }

  // ---- passing checks, same behaviour ----

  /** With pairwise different widths, every well-shaped event of a slot match is where its expectation is. */
  lemma DistinctWidthsStayPut(c: Context)
    requires Constructed(c) && SameCounts(c) && SlotVerdict(c) && DistinctWidths(c)
    ensures !Misplaced(c)
  {
    var g, h :| SideMatches(c, c.guest, c.evalGuest, g) && SideMatches(c, c.host, c.evalHost, h)
      && AgreeBySlot(c, g, h);
    forall i | 0 <= i < |c.expectations| && Aligned(c.expectations[i], c.guest[i], c.host[i])
      ensures Placed(c, c.expectations[i], c.guest[i], c.host[i])
    {
      var k := ExpectationOf(c, c.guest, c.evalGuest, g, i);
      var l := ExpectationOf(c, c.host, c.evalHost, h, i);
      assert AgreeAt(c, g, h, k) && AgreeAt(c, g, h, l);
      SameWidthSameIndex(c, i, k);
      SameWidthSameIndex(c, i, l);
    }
  }

  lemma SameWidthSameIndex(c: Context, i: nat, k: nat)
    requires DistinctWidths(c) && i < |c.expectations| && k < |c.expectations|
    requires c.expectations[i].width == c.expectations[k].width
    ensures i == k
  {
    assert i < k || k < i || i == k;
  }

  lemma MatchIsAddressable(c: Context)
    requires Constructed(c) && Concrete(c) && SlotVerdict(c)
    ensures Addressable(c)
  {
    var g, h :| SideMatches(c, c.guest, c.evalGuest, g) && SideMatches(c, c.host, c.evalHost, h)
      && AgreeBySlot(c, g, h);
    forall k | 0 <= k < |c.expectations| ensures 0 <= c.bases[c.expectations[k].slot] < M64 {
      assert AgreeAt(c, g, h, k);
      var e := c.guest[g[c.expectations[k].slot]].address;
      assert c.evalGuest(e) == Some(c.bases[c.expectations[k].slot]);
    }
  }

  lemma SameMembers(c: Context, v: nat, g: map<string, nat>, h: map<string, nat>, a: Access)
    requires Constructed(c) && AllInPlace(c, g, h, v)
    requires SideMatches(c, c.guest, c.evalGuest, g) && SideMatches(c, c.host, c.evalHost, h)
    ensures a in RunOf(c.guest, v) <==> a in RunOf(c.host, v)
  {
    if a in RunOf(c.guest, v) {
      var i: nat :| i < |c.guest| && RunOf(c.guest, v)[i] == a;
      var k := ExpectationOf(c, c.guest, c.evalGuest, g, i);
      assert InPlace(c, g, h, v, k);
    }
    if a in RunOf(c.host, v) {
      var i: nat :| i < |c.host| && RunOf(c.host, v)[i] == a;
      var k := ExpectationOf(c, c.host, c.evalHost, h, i);
      assert InPlace(c, g, h, v, k);
    }
  }

  /** The expected kind, which every event of a slot match has. */
  lemma RunKinds(c: Context, v: nat, g: map<string, nat>, h: map<string, nat>, i: nat)
    requires Constructed(c) && OneExpectedKind(c) && AllInPlace(c, g, h, v)
    requires SideMatches(c, c.guest, c.evalGuest, g) && SideMatches(c, c.host, c.evalHost, h)
    ensures i < |c.guest| ==> RunOf(c.guest, v)[i].kind == c.expectations[0].kind
    ensures i < |c.host| ==> RunOf(c.host, v)[i].kind == c.expectations[0].kind
  {
    if i < |c.guest| {
      var k := ExpectationOf(c, c.guest, c.evalGuest, g, i);
      assert InPlace(c, g, h, v, k);
    }
    if i < |c.host| {
      var k := ExpectationOf(c, c.host, c.evalHost, h, i);
      assert InPlace(c, g, h, v, k);
    }
  }

  /** Two expected accesses that share no byte are matched by events that share none. */
  lemma MatchedApart(c: Context, run: seq<Access>, v: nat, i: nat, j: nat, k: nat, l: nat, x: int)
    requires Constructed(c) && Addressable(c) && !Sharing(c) && i < |run| && j < |run|
    requires k < |c.expectations| && l < |c.expectations| && k != l
    requires run[i].address == c.bases[c.expectations[k].slot] % M64 && run[i].width == c.expectations[k].width
    requires run[j].address == c.bases[c.expectations[l].slot] % M64 && run[j].width == c.expectations[l].width
    ensures !(Covers(run[i], x) && Covers(run[j], x))
  {
    var m, n := if k < l then k else l, if k < l then l else k;
    assert !ShareByte(PlaceOf(c, m), PlaceOf(c, n));
    ShareByteIff(PlaceOf(c, m), PlaceOf(c, n));
    assert !(Covers(PlaceOf(c, k), x) && Covers(PlaceOf(c, l), x));
  }

  lemma GuestApart(c: Context, v: nat, g: map<string, nat>, h: map<string, nat>, i: nat, j: nat, x: int)
    requires Constructed(c) && Addressable(c) && !Sharing(c) && AllInPlace(c, g, h, v)
    requires SideMatches(c, c.guest, c.evalGuest, g) && SideMatches(c, c.host, c.evalHost, h)
    requires i < |c.guest| && j < |c.guest| && i != j
    ensures !(Covers(RunOf(c.guest, v)[i], x) && Covers(RunOf(c.guest, v)[j], x))
  {
    var k := ExpectationOf(c, c.guest, c.evalGuest, g, i);
    var l := ExpectationOf(c, c.guest, c.evalGuest, g, j);
    assert InPlace(c, g, h, v, k) && InPlace(c, g, h, v, l);
    MatchedApart(c, RunOf(c.guest, v), v, i, j, k, l, x);
  }

  lemma HostApart(c: Context, v: nat, g: map<string, nat>, h: map<string, nat>, i: nat, j: nat, x: int)
    requires Constructed(c) && Addressable(c) && !Sharing(c) && AllInPlace(c, g, h, v)
    requires SideMatches(c, c.guest, c.evalGuest, g) && SideMatches(c, c.host, c.evalHost, h)
    requires i < |c.host| && j < |c.host| && i != j
    ensures !(Covers(RunOf(c.host, v)[i], x) && Covers(RunOf(c.host, v)[j], x))
  {
    var k := ExpectationOf(c, c.host, c.evalHost, h, i);
    var l := ExpectationOf(c, c.host, c.evalHost, h, j);
    assert InPlace(c, g, h, v, k) && InPlace(c, g, h, v, l);
    MatchedApart(c, RunOf(c.host, v), v, i, j, k, l, x);
  }

  lemma SlotRunsAlike(c: Context, v: nat, g: map<string, nat>, h: map<string, nat>)
    requires Constructed(c) && Addressable(c) && OneExpectedKind(c) && (!Writes(c) || !Sharing(c))
    requires AllInPlace(c, g, h, v)
    requires SideMatches(c, c.guest, c.evalGuest, g) && SideMatches(c, c.host, c.evalHost, h)
    ensures SameBehaviour(RunOf(c.guest, v), RunOf(c.host, v))
  {
    var a, b := RunOf(c.guest, v), RunOf(c.host, v);
    forall e ensures e in a <==> e in b { SameMembers(c, v, g, h, e); }
    forall i: nat | i < |a| ensures a[i].kind == c.expectations[0].kind { RunKinds(c, v, g, h, i); }
    forall i: nat | i < |b| ensures b[i].kind == c.expectations[0].kind { RunKinds(c, v, g, h, i); }
    if !Writes(c) {
      ReadsAlike(a, b);
    } else {
      forall i: nat, j: nat, x | i < |a| && j < |a| && i != j ensures !(Covers(a[i], x) && Covers(a[j], x)) {
        GuestApart(c, v, g, h, i, j, x);
      }
      forall i: nat, j: nat, x | i < |b| && j < |b| && i != j ensures !(Covers(b[i], x) && Covers(b[j], x)) {
        HostApart(c, v, g, h, i, j, x);
      }
      OrderIrrelevant(a, b);
    }
  }

  /** When every check passes and order cannot tell, no starting memory tells the two fragments' accesses apart. */
  lemma PassMeansSameBehaviour(c: Context, models: iset<nat>, v: nat)
    requires Constructed(c) && Exact(c, models) && Concrete(c) && v in models && Verdict(c) && OrderFree(c)
    ensures MatchedRunsEqual(c, v) && SameBehaviour(RunOf(c.guest, v), RunOf(c.host, v))
  {
    MatchedEventsAgree(c, models, v);
    if Misplaced(c) {
      if DistinctWidths(c) { DistinctWidthsStayPut(c); }
      MatchIsAddressable(c);
      var g, h :| SideMatches(c, c.guest, c.evalGuest, g) && SideMatches(c, c.host, c.evalHost, h)
        && AllInPlace(c, g, h, v);
      SlotRunsAlike(c, v, g, h);
    }
  }

  // ---- and only then: a passing context that differs ----

  function Fixed(value: int): Expr { v => value }

  /** The store of expectation `k`: all ones for `ones`, zero for every other. */
  function StoreOf(c: Context, ones: nat, k: nat): Event
    requires Constructed(c) && k < |c.expectations|
  {
    var x := c.expectations[k];
    Event(x.kind, Constant(c.bases[x.slot]), Fixed(if k == ones then AllOnes(x.width) else 0), x.width)
  }

  function Stores(c: Context, ones: nat, p: seq<nat>): (events: seq<Event>)
    requires Constructed(c) && Inside(p, |c.expectations|)
    ensures |events| == |p| && forall t :: 0 <= t < |p| ==> events[t] == StoreOf(c, ones, p[t])
  {
    seq(|p|, t requires 0 <= t < |p| => StoreOf(c, ones, p[t]))
  }

  /** The guest makes the stores in the order `p` and the host in the order `q`. */
  function Orders(c: Context, ones: nat, p: seq<nat>, q: seq<nat>): Context
    requires Constructed(c) && Inside(p, |c.expectations|) && Inside(q, |c.expectations|)
  {
    Context(c.expectations, Stores(c, ones, p), Stores(c, ones, q), c.hasAlias, c.bases,
            (x: Expr, y: Expr) => x(0) == y(0), (x: Expr) => Some(x(0) % M64), (x: Expr) => Some(x(0) % M64))
  }

  function PositionOf(p: seq<nat>, k: nat): (t: nat)
    ensures t <= |p| && (t < |p| ==> p[t] == k)
    ensures k in p ==> t < |p|
  {
    if p == [] || p[0] == k then 0 else 1 + PositionOf(p[1..], k)
  }

  function IndexOfSlot(c: Context, slot: string): (k: nat)
    ensures k <= |c.expectations| && (k < |c.expectations| ==> c.expectations[k].slot == slot)
    ensures slot in Slots(c) ==> k < |c.expectations|
  {
    IndexFrom(c, slot, 0)
  }

  function IndexFrom(c: Context, slot: string, n: nat): (k: nat)
    requires n <= |c.expectations|
    ensures n <= k <= |c.expectations| && (k < |c.expectations| ==> c.expectations[k].slot == slot)
    ensures forall j :: n <= j < k ==> c.expectations[j].slot != slot
    decreases |c.expectations| - n
  {
    if n == |c.expectations| || c.expectations[n].slot == slot then n else IndexFrom(c, slot, n + 1)
  }

  lemma SlotsDistinct(c: Context, k: nat, l: nat)
    requires Constructed(c) && RangesApart(c) && k < |c.expectations| && l < |c.expectations| && k != l
    ensures c.expectations[k].slot != c.expectations[l].slot
    ensures c.bases[c.expectations[k].slot] != c.bases[c.expectations[l].slot]
  {
    if k < l {
      assert Apart(Ranges(c)[k], Ranges(c)[l], Start, End);
    } else {
      assert Apart(Ranges(c)[l], Ranges(c)[k], Start, End);
    }
  }

  lemma SlotIndex(c: Context, k: nat)
    requires Constructed(c) && RangesApart(c) && k < |c.expectations|
    ensures IndexOfSlot(c, c.expectations[k].slot) == k
  {
    var l := IndexOfSlot(c, c.expectations[k].slot);
    assert c.expectations[k].slot in Slots(c);
    if l != k { SlotsDistinct(c, k, l); }
  }

  lemma PositionIs(p: seq<nat>, t: nat)
    requires Distinct(p) && t < |p|
    ensures PositionOf(p, p[t]) == t
  {
    assert p[t] in p;
    var u := PositionOf(p, p[t]);
    assert u < t || t < u || u == t;
  }

  /** Where each slot's store comes in an order. */
  function MatchOf(c: Context, p: seq<nat>): map<string, nat> {
    map s | s in Slots(c) :: PositionOf(p, IndexOfSlot(c, s))
  }

  lemma SlotEvent(c: Context, ones: nat, p: seq<nat>, s: string)
    requires Constructed(c) && Addressable(c) && IsPermutation(p, |c.expectations|) && s in Slots(c)
    ensures PositionOf(p, IndexOfSlot(c, s)) < |p| && IndexOfSlot(c, s) in p && s in c.bases
    ensures Stores(c, ones, p)[PositionOf(p, IndexOfSlot(c, s))].address(0) % M64 == c.bases[s]
  {
    PermutationCovers(p, |c.expectations|);
    assert 0 <= c.bases[c.expectations[IndexOfSlot(c, s)].slot] < M64;
  }

  lemma PositionHit(c: Context, p: seq<nat>, e: nat)
    requires Constructed(c) && RangesApart(c) && IsPermutation(p, |c.expectations|) && e < |p|
    ensures Hit(MatchOf(c, p), e)
  {
    var s := c.expectations[p[e]].slot;
    SlotIndex(c, p[e]);
    PositionIs(p, e);
    assert s in Slots(c);
    assert s in MatchOf(c, p) && MatchOf(c, p)[s] == e;
  }

  /** Every order of the stores matches the slots. */
  lemma OrderMatches(c: Context, ones: nat, p: seq<nat>, eval: Expr -> Option<int>)
    requires Constructed(c) && SlotGuards(c) && Addressable(c) && IsPermutation(p, |c.expectations|)
    requires forall e: Expr :: eval(e) == Some(e(0) % M64)
    ensures SideMatches(c, Stores(c, ones, p), eval, MatchOf(c, p))
  {
    var at, events := MatchOf(c, p), Stores(c, ones, p);
    SlotsKnown(c);
    forall s | s in Slots(c) ensures at[s] < |events| && eval(events[at[s]].address) == Some(c.bases[s]) {
      SlotEvent(c, ones, p, s);
    }
    forall s, t | s in at && t in at && s != t ensures at[s] != at[t] {
      SlotEvent(c, ones, p, s);
      SlotEvent(c, ones, p, t);
    }
    forall e: nat | e < |events| ensures Hit(at, e) { PositionHit(c, p, e); }
  }

  lemma SameGuards(c: Context, d: Context)
    requires Constructed(c) && d.expectations == c.expectations && d.bases == c.bases && d.hasAlias == c.hasAlias
    ensures Constructed(d) && (SlotGuards(d) <==> SlotGuards(c)) && Slots(d) == Slots(c)
  {
    assert Constructed(d) && Ranges(d) == Ranges(c);
  }

  lemma SameMatches(c: Context, d: Context, events: seq<Event>, eval: Expr -> Option<int>, at: map<string, nat>)
    requires SideMatches(c, events, eval, at) && d.expectations == c.expectations && d.bases == c.bases
    ensures SideMatches(d, events, eval, at)
  {
    assert Slots(d) == Slots(c);
  }

  lemma OrdersAgreeAt(c: Context, d: Context, ones: nat, p: seq<nat>, q: seq<nat>, k: nat)
    requires Constructed(c) && SlotGuards(c) && IsPermutation(p, |c.expectations|) && IsPermutation(q, |c.expectations|)
    requires d == Orders(c, ones, p, q) && k < |c.expectations| && Constructed(d)
    requires SideMatches(d, d.guest, d.evalGuest, MatchOf(c, p)) && SideMatches(d, d.host, d.evalHost, MatchOf(c, q))
    ensures AgreeAt(d, MatchOf(c, p), MatchOf(c, q), k)
  {
    SlotIndex(c, k);
    PermutationCovers(p, |c.expectations|);
    PermutationCovers(q, |c.expectations|);
    var slot := c.expectations[k].slot;
    assert slot in Slots(c) && k in p && k in q;
    assert d.guest[MatchOf(c, p)[slot]] == StoreOf(c, ones, k) && d.host[MatchOf(c, q)[slot]] == StoreOf(c, ones, k);
  }

  /** Once some store is misplaced, two orders of the same stores pass. */
  lemma OrdersPass(c: Context, d: Context, ones: nat, p: seq<nat>, q: seq<nat>)
    requires Constructed(c) && SlotGuards(c) && Addressable(c) && IsPermutation(p, |c.expectations|)
    requires IsPermutation(q, |c.expectations|)
    requires d == Orders(c, ones, p, q) && Constructed(d) && SameCounts(d) && Misplaced(d)
    ensures Verdict(d)
  {
    SameGuards(c, d);
    OrderMatches(c, ones, p, d.evalGuest);
    OrderMatches(c, ones, q, d.evalHost);
    SameMatches(c, d, d.guest, d.evalGuest, MatchOf(c, p));
    SameMatches(c, d, d.host, d.evalHost, MatchOf(c, q));
    forall k | 0 <= k < |d.expectations| ensures AgreeAt(d, MatchOf(c, p), MatchOf(c, q), k) {
      OrdersAgreeAt(c, d, ones, p, q, k);
    }
    DecidedBySlot(d, MatchOf(c, p), MatchOf(c, q));
  }

  lemma OrdersExact(c: Context, ones: nat, p: seq<nat>, q: seq<nat>)
    requires Constructed(c) && Inside(p, |c.expectations|) && Inside(q, |c.expectations|)
    ensures Exact(Orders(c, ones, p, q), iset{0}) && Concrete(Orders(c, ones, p, q))
  {
    assert 0 in iset{0};
  }

  // ---- which byte is left ----

  lemma EndsInside(c: Context, i: nat, j: nat)
    requires Constructed(c) && RangesApart(c) && Addressable(c) && i < |c.expectations| && j < |c.expectations|
    requires i != j
    ensures PlaceOf(c, i).address + PlaceOf(c, i).width <= PlaceOf(c, j).address
            || PlaceOf(c, j).address + PlaceOf(c, j).width <= PlaceOf(c, i).address
    ensures PlaceOf(c, i).address + PlaceOf(c, i).width <= M64 || PlaceOf(c, j).address + PlaceOf(c, j).width <= M64
  {
    if i < j {
      assert Apart(Ranges(c)[i], Ranges(c)[j], Start, End);
    } else {
      assert Apart(Ranges(c)[j], Ranges(c)[i], Start, End);
    }
    assert 0 <= c.bases[c.expectations[i].slot] < M64 && 0 <= c.bases[c.expectations[j].slot] < M64;
  }

  /** Inside the address space, a covered byte lies in the range. */
  lemma CoversInside(a: Access, x: int)
    requires 0 <= a.address && a.address + a.width <= M64 && Covers(a, x)
    ensures a.address <= x % M64 < a.address + a.width
  {
    RemainderIs(x, (x - a.address) / M64, a.address + Offset(a, x));
  }

  lemma InsideApart(a: Access, b: Access, x: int)
    requires 0 <= a.address && a.address + a.width <= M64 && 0 <= b.address && b.address + b.width <= M64
    requires a.address + a.width <= b.address || b.address + b.width <= a.address
    ensures !(Covers(a, x) && Covers(b, x))
  {
    if Covers(a, x) { CoversInside(a, x); }
    if Covers(b, x) { CoversInside(b, x); }
  }

  /** At most one of three separate ranges wraps, so no byte is common to all three. */
  lemma OnlyTwo(c: Context, i: nat, j: nat, k: nat, x: int)
    requires Constructed(c) && RangesApart(c) && Addressable(c)
    requires i < |c.expectations| && j < |c.expectations| && k < |c.expectations| && i != j && j != k && i != k
    ensures !(Covers(PlaceOf(c, i), x) && Covers(PlaceOf(c, j), x) && Covers(PlaceOf(c, k), x))
  {
    EndsInside(c, i, j);
    EndsInside(c, j, k);
    EndsInside(c, i, k);
    var a, b, d := PlaceOf(c, i), PlaceOf(c, j), PlaceOf(c, k);
    if a.address + a.width > M64 { InsideApart(b, d, x); }
    else if b.address + b.width > M64 { InsideApart(a, d, x); }
    else { InsideApart(a, b, x); }
  }

  lemma StoreRun(c: Context, ones: nat, p: seq<nat>, t: nat)
    requires Constructed(c) && Addressable(c) && Inside(p, |c.expectations|) && t < |p|
    ensures var a, b := RunOf(Stores(c, ones, p), 0)[t], PlaceOf(c, p[t]);
            && a.kind == b.kind && a.address == b.address && a.width == b.width
            && a.value == (if p[t] == ones then AllOnes(b.width) else 0)
            && forall x :: (Covers(a, x) <==> Covers(b, x)) && Offset(a, x) == Offset(b, x)
  {
    assert 0 <= c.bases[c.expectations[p[t]].slot] < M64;
  }

  /** Of two stores sharing a byte, the later one decides it. */
  lemma LaterDecides(c: Context, ones: nat, p: seq<nat>, s: nat, t: nat, mem: Memory, x: int)
    requires Constructed(c) && RangesApart(c) && Addressable(c) && Writes(c) && OneExpectedKind(c)
    requires IsPermutation(p, |c.expectations|) && s < t < |p|
    requires Covers(PlaceOf(c, p[s]), x) && Covers(PlaceOf(c, p[t]), x)
    ensures Replay(RunOf(Stores(c, ones, p), 0), mem)(x) == if p[t] == ones then 255 else 0
  {
    var run := RunOf(Stores(c, ones, p), 0);
    forall u | t < u < |run| ensures !Covers(run[u], x) {
      StoreRun(c, ones, p, u);
      OnlyTwo(c, p[s], p[t], p[u], x);
    }
    StoreRun(c, ones, p, t);
    LastStoreTo(run, mem, x, t);
    AllOnesByte(run[t].width, Offset(run[t], x));
    ZeroByte(Offset(run[t], x));
  }

  // ---- two orders ----

  function Swapped(p: seq<nat>, s: nat, t: nat): (q: seq<nat>)
    requires s < |p| && t < |p|
    ensures |q| == |p| && q[s] == p[t] && q[t] == p[s] && forall u :: 0 <= u < |p| && u != s && u != t ==> q[u] == p[u]
  {
    p[s := p[t]][t := p[s]]
  }

  lemma SwapPermutes(p: seq<nat>, s: nat, t: nat, n: nat)
    requires IsPermutation(p, n) && s < n && t < n
    ensures IsPermutation(Swapped(p, s, t), n)
  {
    var q := Swapped(p, s, t);
    forall u, v | 0 <= u < v < n ensures q[u] != q[v] {
      var u', v' := SwapIndex(u, s, t), SwapIndex(v, s, t);
      assert q[u] == p[u'] && q[v] == p[v'];
      assert u' < v' || v' < u';
    }
  }

  function SwapIndex(u: nat, s: nat, t: nat): nat { if u == s then t else if u == t then s else u }

  /** Positions `s` and `t` hold stores that share a byte; exchanging them changes that byte. */
  lemma SwapDiffers(c: Context, d: Context, p: seq<nat>, s: nat, t: nat, ones: nat)
    requires Constructed(c) && RangesApart(c) && Addressable(c) && Writes(c) && OneExpectedKind(c)
    requires IsPermutation(p, |c.expectations|) && s < t < |p| && ones == p[t]
    requires ShareByte(PlaceOf(c, p[s]), PlaceOf(c, p[t]))
    requires IsPermutation(Swapped(p, s, t), |c.expectations|) && d == Orders(c, ones, p, Swapped(p, s, t))
    ensures !SameBehaviour(RunOf(d.guest, 0), RunOf(d.host, 0))
  {
    ShareByteIff(PlaceOf(c, p[s]), PlaceOf(c, p[t]));
    var x :| Covers(PlaceOf(c, p[s]), x) && Covers(PlaceOf(c, p[t]), x);
    var mem: Memory := _ => 0;
    LaterDecides(c, ones, p, s, t, mem, x);
    LaterDecides(c, ones, Swapped(p, s, t), s, t, mem, x);
    assert p[s] != p[t];
    assert Replay(RunOf(d.guest, 0), mem)(x) != Replay(RunOf(d.host, 0), mem)(x);
  }

  /** Expectation `a` finds a store of its width, but another one, on one of the sides. */
  lemma MisplacedAt(c: Context, d: Context, ones: nat, p: seq<nat>, q: seq<nat>, a: nat)
    requires Constructed(c) && SlotGuards(c) && Addressable(c) && |c.expectations| >= 2 && a < |c.expectations|
    requires IsPermutation(p, |c.expectations|) && IsPermutation(q, |c.expectations|)
    requires d == Orders(c, ones, p, q) && Constructed(d) && SameCounts(d)
    requires c.expectations[p[a]].width == c.expectations[a].width == c.expectations[q[a]].width
    requires p[a] != a || q[a] != a
    ensures Misplaced(d)
  {
    var x, g, h := c.expectations[a], d.guest[a], d.host[a];
    assert 0 <= c.bases[x.slot] < M64;
    var other := if p[a] != a then p[a] else q[a];
    SlotsDistinct(c, a, other);
    assert 0 <= c.bases[c.expectations[other].slot] < M64;
    assert Aligned(x, g, h) && !Placed(d, x, g, h);
  }

  /** Two orders of stores that differ in one exchange, one of them misplacing a store of the right width. */
  lemma OrdersTell(c: Context, p: seq<nat>, s: nat, t: nat, a: nat) returns (d: Context)
    requires Constructed(c) && SlotGuards(c) && Addressable(c) && Writes(c) && |c.expectations| >= 2
    requires IsPermutation(p, |c.expectations|) && s < |p| && t < |p| && s != t
    requires ShareByte(PlaceOf(c, p[s]), PlaceOf(c, p[t]))
    requires a < |c.expectations|
    requires var q := Swapped(p, s, t);
             && IsPermutation(q, |c.expectations|) && (p[a] != a || q[a] != a)
             && c.expectations[p[a]].width == c.expectations[a].width == c.expectations[q[a]].width
    ensures d.expectations == c.expectations && d.bases == c.bases && d.hasAlias == c.hasAlias
    ensures Constructed(d) && Exact(d, iset{0}) && Concrete(d) && Verdict(d)
    ensures !SameBehaviour(RunOf(d.guest, 0), RunOf(d.host, 0))
  {
    var first, last := if s < t then s else t, if s < t then t else s;
    var q := Swapped(p, s, t);
    assert q == Swapped(p, first, last);
    var ones := p[last];
    d := Orders(c, ones, p, q);
    OrdersExact(c, ones, p, q);
    SameGuards(c, d);
    MisplacedAt(c, d, ones, p, q, a);
    OrdersPass(c, d, ones, p, q);
    SwapDiffers(c, d, p, first, last, ones);
  }

  lemma RangePermutes(n: nat)
    ensures IsPermutation(Range(n), n)
  {}

  /** Sharing stores of equal width, themselves exchanged. */
  lemma ExchangeTells(c: Context, a: nat, b: nat) returns (d: Context)
    requires Constructed(c) && SlotGuards(c) && Addressable(c) && Writes(c) && a < b < |c.expectations|
    requires c.expectations[a].width == c.expectations[b].width && ShareByte(PlaceOf(c, a), PlaceOf(c, b))
    ensures d.expectations == c.expectations && d.bases == c.bases && d.hasAlias == c.hasAlias
    ensures Constructed(d) && Exact(d, iset{0}) && Concrete(d) && Verdict(d)
    ensures !SameBehaviour(RunOf(d.guest, 0), RunOf(d.host, 0))
  {
    var p := Range(|c.expectations|);
    RangePermutes(|c.expectations|);
    SwapPermutes(p, a, b, |c.expectations|);
    d := OrdersTell(c, p, a, b, a);
  }

  /** Sharing stores `i` and `j`, and a store `b` other than them made in the place of `a` on both sides. */
  lemma AsideTells(c: Context, i: nat, j: nat, a: nat, b: nat) returns (d: Context)
    requires Constructed(c) && SlotGuards(c) && Addressable(c) && Writes(c) && i < j < |c.expectations|
    requires a < |c.expectations| && b < |c.expectations| && a != b && b != i && b != j
    requires c.expectations[a].width == c.expectations[b].width && ShareByte(PlaceOf(c, i), PlaceOf(c, j))
    ensures d.expectations == c.expectations && d.bases == c.bases && d.hasAlias == c.hasAlias
    ensures Constructed(d) && Exact(d, iset{0}) && Concrete(d) && Verdict(d)
    ensures !SameBehaviour(RunOf(d.guest, 0), RunOf(d.host, 0))
  {
    var n := |c.expectations|;
    RangePermutes(n);
    SwapPermutes(Range(n), a, b, n);
    var p := Swapped(Range(n), a, b);
    var s, t := SwapIndex(i, a, b), SwapIndex(j, a, b);
    assert p[s] == i && p[t] == j && p[a] == b && s != a && t != a;
    SwapPermutes(p, s, t, n);
    d := OrdersTell(c, p, s, t, a);
  }

  /** Where order can tell, some passing context leaves two different memories. */
  lemma OrderTells(c: Context) returns (d: Context)
    requires Constructed(c) && !OrderFree(c)
    ensures d.expectations == c.expectations && d.bases == c.bases && d.hasAlias == c.hasAlias
    ensures Constructed(d) && Exact(d, iset{0}) && Concrete(d) && Verdict(d)
    ensures !SameBehaviour(RunOf(d.guest, 0), RunOf(d.host, 0))
  {
    var i: nat, j: nat :| i < j < |c.expectations| && ShareByte(PlaceOf(c, i), PlaceOf(c, j));
    var a: nat, b: nat :| a < b < |c.expectations| && c.expectations[a].width == c.expectations[b].width;
    if a == i && b == j { d := ExchangeTells(c, a, b); }
    else if b != i && b != j { d := AsideTells(c, i, j, a, b); }
    else { d := AsideTells(c, i, j, b, a); }
  }

  /** A context with the expectations and bases of `c` whose checks pass under an exact relation checker. */
  ghost predicate PassesLike(c: Context, d: Context, models: iset<nat>) {
    && d.expectations == c.expectations && d.bases == c.bases && d.hasAlias == c.hasAlias
    && Constructed(d) && Exact(d, models) && Concrete(d) && Verdict(d)
  }

  /** Passing checks guarantee the same memory and the same reads exactly for expectations whose order cannot tell. */
  lemma PassMeansSameBehaviourIff(c: Context)
    requires Constructed(c)
    ensures OrderFree(c) <==>
            forall d: Context, models: iset<nat>, v: nat :: v in models && PassesLike(c, d, models) ==>
              SameBehaviour(RunOf(d.guest, v), RunOf(d.host, v))
  {
    if OrderFree(c) {
      forall d: Context, models: iset<nat>, v: nat | v in models && PassesLike(c, d, models)
        ensures SameBehaviour(RunOf(d.guest, v), RunOf(d.host, v))
      {
        SameFreedom(c, d);
        PassMeansSameBehaviour(d, models, v);
      }
    } else {
      var d := OrderTells(c);
      assert 0 in iset{0} && PassesLike(c, d, iset{0});
    }
  }

  lemma SameFreedom(c: Context, d: Context)
    requires Constructed(c) && Constructed(d) && d.expectations == c.expectations && d.bases == c.bases
    requires d.hasAlias == c.hasAlias
    ensures OrderFree(d) <==> OrderFree(c)
  {
    SameGuards(c, d);
    forall k | 0 <= k < |c.expectations| ensures PlaceOf(c, k) == PlaceOf(d, k) {}
  }
}
