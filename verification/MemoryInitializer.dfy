/** Placing every slot and choosing register values, in one go. */
module MemoryInitializer {
  import opened Wrappers
  import opened AliasRoots
  import opened MemoryLayout
  import opened MemoryWitness
  import opened FrameWitness

  datatype Candidate = Candidate(slots: seq<Slot>, bindings: seq<Binding>, alias: seq<Declaration>,
      pairs: seq<(string, string)>, frame: FramePair)

  /** What the constructors of the memory description enforce. */
  predicate Constructed(m: Candidate) {
    && DistinctSlots(m.slots) && Known(m.alias, Names(m.slots))
    && forall i :: 0 <= i < |m.bindings| ==> m.bindings[i].slot in Names(m.slots)
  }

  /** No slot is bound twice inside the frame. */
  ghost predicate DistinctFrameSlots(m: Candidate) {
    forall i, j :: 0 <= i < j < |m.bindings| && IsFrame(m.bindings[i], m.frame) && IsFrame(m.bindings[j], m.frame) ==>
      m.bindings[i].slot != m.bindings[j].slot
  }

  function SizeMap(slots: seq<Slot>): map<string, nat> {
    if slots == [] then map[] else SizeMap(slots[..|slots| - 1])[slots[|slots| - 1].name := slots[|slots| - 1].size]
  }

  function SetupOf(m: Candidate, bases: map<string, int>): Setup { Setup(m.bindings, m.pairs, m.frame, bases) }

  // ---- groups ----

  lemma {:induction false} GroupMembers(bindings: seq<Binding>, frame: FramePair, key: (string, string), b: Binding)
    ensures b in GroupOf(bindings, frame, key)
            <==> b in bindings && IsFrame(b, frame) && (b.guest.base, b.host.base) == key
  {
    if bindings != [] {
      GroupMembers(bindings[..|bindings| - 1], frame, key, b);
      assert bindings == bindings[..|bindings| - 1] + [bindings[|bindings| - 1]];
    }
  }

  lemma {:induction false} GroupIsDistinct(bindings: seq<Binding>, frame: FramePair, key: (string, string))
    requires forall i, j :: 0 <= i < j < |bindings| && IsFrame(bindings[i], frame) && IsFrame(bindings[j], frame) ==>
             bindings[i].slot != bindings[j].slot
    ensures DistinctGroup(GroupOf(bindings, frame, key))
  {
    if bindings != [] {
      var front, last := bindings[..|bindings| - 1], bindings[|bindings| - 1];
      GroupIsDistinct(front, frame, key);
      var g := GroupOf(front, frame, key);
      if IsFrame(last, frame) {
        forall i | 0 <= i < |g| ensures g[i].slot != last.slot {
          GroupMembers(front, frame, key, g[i]);
          var k :| 0 <= k < |front| && front[k] == g[i];
          assert bindings[k] == g[i];
        }
      }
    }
  }

  /** All slots of a pair of frame bases are placed around the guest frame `f` and one host frame. */
  ghost predicate Framed(m: Candidate, bases: map<string, int>, key: (string, string), f: int) {
    exists h :: FramedBy(m, bases, key, f, h)
  }

  ghost predicate FramedBy(m: Candidate, bases: map<string, int>, key: (string, string), f: int, h: int) {
    forall b :: b in GroupOf(m.bindings, m.frame, key) ==>
      b.slot in bases && bases[b.slot] == f + Offset(b.guest) && bases[b.slot] == h + Offset(b.host)
  }

  lemma GroupFramed(m: Candidate, bases: map<string, int>, key: (string, string), f: int, h: int)
    requires DistinctFrameSlots(m) && OneFrameFits(GroupOf(m.bindings, m.frame, key), f, h)
    ensures FramedBy(m, bases + GroupBases(GroupOf(m.bindings, m.frame, key), f), key, f, h)
  {
    var group := GroupOf(m.bindings, m.frame, key);
    GroupIsDistinct(m.bindings, m.frame, key);
    GroupBasesAt(group, f);
    forall b | b in group
      ensures var z := bases + GroupBases(group, f);
              b.slot in z && z[b.slot] == f + Offset(b.guest) && z[b.slot] == h + Offset(b.host)
    {
      var i :| 0 <= i < |group| && group[i] == b;
      assert group[i].slot in GroupBases(group, f);
    }
  }

  /** Placing another group leaves a framed one alone. */
  lemma StaysFramed(m: Candidate, bases: map<string, int>, key: (string, string), g: int, other: (string, string),
      f: int)
    requires DistinctFrameSlots(m) && Framed(m, bases, key, g) && key != other
    ensures Framed(m, bases + GroupBases(GroupOf(m.bindings, m.frame, other), f), key, g)
  {
    var h :| FramedBy(m, bases, key, g, h);
    var group := GroupOf(m.bindings, m.frame, other);
    GroupBasesAt(group, f);
    forall b | b in GroupOf(m.bindings, m.frame, key) ensures b.slot !in GroupBases(group, f) {
      GroupMembers(m.bindings, m.frame, key, b);
      forall i | 0 <= i < |group| ensures group[i].slot != b.slot {
        GroupMembers(m.bindings, m.frame, other, group[i]);
        SlotsDiffer(m, b, group[i]);
      }
    }
    assert FramedBy(m, bases + GroupBases(group, f), key, g, h);
  }

  lemma SlotsDiffer(m: Candidate, a: Binding, b: Binding)
    requires DistinctFrameSlots(m) && a in m.bindings && b in m.bindings && a != b && IsFrame(a, m.frame)
    requires IsFrame(b, m.frame)
    ensures a.slot != b.slot
  {
    var i :| 0 <= i < |m.bindings| && m.bindings[i] == a;
    var j :| 0 <= j < |m.bindings| && m.bindings[j] == b;
    assert i < j || j < i;
  }

  lemma GroupSlotsInFrame(m: Candidate, key: (string, string), f: int)
    ensures GroupBases(GroupOf(m.bindings, m.frame, key), f).Keys <= FrameSlots(m.bindings, m.frame)
  {
    var group := GroupOf(m.bindings, m.frame, key);
    GroupBasesAt(group, f);
    forall s | s in GroupBases(group, f) ensures s in FrameSlots(m.bindings, m.frame) {
      var i :| 0 <= i < |group| && group[i].slot == s;
      GroupMembers(m.bindings, m.frame, key, group[i]);
      var k :| 0 <= k < |m.bindings| && m.bindings[k] == group[i];
    }
  }

  /** Every slot outside the frame keeps its base. */
  ghost predicate SamePlain(m: Candidate, before: map<string, int>, after: map<string, int>) {
    forall s :: s !in FrameSlots(m.bindings, m.frame) ==>
        (s in before <==> s in after) && (s in before ==> before[s] == after[s])
  }

  ghost predicate Covered(m: Candidate, bases: map<string, int>, key: (string, string)) {
    forall b :: b in GroupOf(m.bindings, m.frame, key) ==> b.slot in bases
  }

  type Key = (string, string)

  /** The frames of the first `n` pairs lie below `next`, in order and a page or more apart. */
  ghost predicate FramesApart(order: seq<Key>, n: nat, frames: map<Key, int>, next: int) {
    && n <= |order| && (forall k :: 0 <= k < n ==> order[k] in frames && frames[order[k]] + 0x1000 <= next)
    && (forall j, k :: 0 <= j < k < n ==> frames[order[j]] + 0x1000 <= frames[order[k]])
  }

  lemma OneMoreApart(order: seq<Key>, n: nat, frames: map<Key, int>, f: int, next: int)
    requires FramesApart(order, n, frames, f) && n < |order| && DistinctKeys(order) && f + 0x1000 <= next
    ensures FramesApart(order, n + 1, frames[order[n] := f], next)
  {
    var after := frames[order[n] := f];
    forall k | 0 <= k < n
      ensures order[k] in after && after[order[k]] == frames[order[k]] && after[order[k]] + 0x1000 <= f
    {
      assert order[k] != order[n];
    }
  }

  /** Every pair has its own guest frame, at least a page from the next, and its slots lie around it. */
  ghost predicate GroupsFramed(m: Candidate, order: seq<Key>, n: nat, placed: map<string, int>, frames: map<Key, int>,
      next: int)
  {
    FramesApart(order, n, frames, next) && (DistinctFrameSlots(m) ==>
      (forall k :: 0 <= k < n ==> Framed(m, placed, order[k], frames[order[k]]))
      && SlotsApart(m, order, n, placed, frames, next))
  }

  /** The slots of a pair end below the address, with a gap. */
  ghost predicate EndsBelow(m: Candidate, bases: map<string, int>, key: Key, at: int) {
    forall b, s | b in m.bindings && IsFrame(b, m.frame) && (b.guest.base, b.host.base) == key
                  && s in m.slots && s.name == b.slot && b.slot in bases ::
      bases[b.slot] + s.size + 0x10 <= at
  }

  /** The slots of the first `n` pairs end below `next`, and those of an earlier pair below the frame of a later one. */
  ghost predicate SlotsApart(m: Candidate, order: seq<Key>, n: nat, placed: map<string, int>, frames: map<Key, int>,
      next: int)
    requires FramesApart(order, n, frames, next)
  {
    && (forall k :: 0 <= k < n ==> EndsBelow(m, placed, order[k], next))
    && forall j, k :: 0 <= j < k < n ==> EndsBelow(m, placed, order[j], frames[order[k]])
  }

  lemma {:induction false} SizesAre(slots: seq<Slot>, s: Slot)
    requires DistinctSlots(slots) && s in slots
    ensures s.name in SizeMap(slots) && SizeMap(slots)[s.name] == s.size
    decreases |slots|
  {
    var front, last := slots[..|slots| - 1], slots[|slots| - 1];
    assert slots == front + [last];
    if s != last {
      assert s in front;
      var i :| 0 <= i < |front| && front[i] == s;
      assert slots[i].name != slots[|slots| - 1].name;
      SizesAre(front, s);
    }
  }

  /** A group just placed ends below the next free address. */
  lemma NowBelow(m: Candidate, placed: map<string, int>, key: Key, f: int, next: int)
    requires DistinctSlots(m.slots)
    requires PastGroup(GroupBases(GroupOf(m.bindings, m.frame, key), f), SizeMap(m.slots), f, next)
    ensures EndsBelow(m, placed + GroupBases(GroupOf(m.bindings, m.frame, key), f), key, next)
  {
    var group := GroupOf(m.bindings, m.frame, key);
    GroupBasesAt(group, f);
    forall b, s | b in m.bindings && IsFrame(b, m.frame) && (b.guest.base, b.host.base) == key && s in m.slots
      && s.name == b.slot
      ensures b.slot in GroupBases(group, f) && GroupBases(group, f)[b.slot] + s.size + 0x10 <= next
    {
      GroupMembers(m.bindings, m.frame, key, b);
      var i :| 0 <= i < |group| && group[i] == b;
      SizesAre(m.slots, s);
    }
  }

  /** Placing another group leaves the slots of a pair where they are. */
  lemma StaysBelow(m: Candidate, placed: map<string, int>, key: Key, at: int, other: Key, f: int, at': int)
    requires DistinctFrameSlots(m) && EndsBelow(m, placed, key, at) && key != other && at <= at'
    ensures EndsBelow(m, placed + GroupBases(GroupOf(m.bindings, m.frame, other), f), key, at')
  {
    var group := GroupOf(m.bindings, m.frame, other);
    GroupBasesAt(group, f);
    forall b | b in m.bindings && IsFrame(b, m.frame) && (b.guest.base, b.host.base) == key
      ensures b.slot !in GroupBases(group, f)
    {
      forall i | 0 <= i < |group| ensures group[i].slot != b.slot {
        GroupMembers(m.bindings, m.frame, other, group[i]);
        SlotsDiffer(m, b, group[i]);
      }
    }
  }

  lemma OneMoreBelow(m: Candidate, order: seq<Key>, n: nat, placed: map<string, int>, frames: map<Key, int>, f: int,
      next: int)
    requires DistinctSlots(m.slots) && DistinctFrameSlots(m) && n < |order| && DistinctKeys(order) && f + 0x1000 <= next
    requires FramesApart(order, n, frames, f) && SlotsApart(m, order, n, placed, frames, f)
    requires FramesApart(order, n + 1, frames[order[n] := f], next)
    requires PastGroup(GroupBases(GroupOf(m.bindings, m.frame, order[n]), f), SizeMap(m.slots), f, next)
    ensures var after := placed + GroupBases(GroupOf(m.bindings, m.frame, order[n]), f);
            SlotsApart(m, order, n + 1, after, frames[order[n] := f], next)
  {
    var key := order[n];
    var after, frames' := placed + GroupBases(GroupOf(m.bindings, m.frame, key), f), frames[key := f];
    NowBelow(m, placed, key, f, next);
    forall k | 0 <= k < n ensures EndsBelow(m, after, order[k], next) && EndsBelow(m, after, order[k], f) {
      StaysBelow(m, placed, order[k], f, key, f, next);
      StaysBelow(m, placed, order[k], f, key, f, f);
    }
    forall j, k | 0 <= j < k < n + 1 ensures EndsBelow(m, after, order[j], frames'[order[k]]) {
      if k < n { StaysBelow(m, placed, order[j], frames[order[k]], key, f, frames[order[k]]); }
    }
  }

  /** The first `n` groups are placed, and nothing outside the frame moved. */
  ghost predicate GroupsPlaced(m: Candidate, order: seq<Key>, n: nat, bases: map<string, int>, placed: map<string, int>)
  {
    n <= |order| && SamePlain(m, bases, placed) && forall k :: 0 <= k < n ==> Covered(m, placed, order[k])
  }

  lemma PlaceOneMore(m: Candidate, order: seq<Key>, n: nat, bases: map<string, int>, placed: map<string, int>, f: int)
    requires GroupsPlaced(m, order, n, bases, placed) && n < |order|
    ensures GroupsPlaced(m, order, n + 1, bases, placed + GroupBases(GroupOf(m.bindings, m.frame, order[n]), f))
  {
    GroupSlotsInFrame(m, order[n], f);
    OneMoreCovered(m, order, n, placed, f);
  }

  lemma FrameOneMore(m: Candidate, order: seq<Key>, n: nat, placed: map<string, int>, frames: map<Key, int>, f: int,
      next: int)
    requires GroupsFramed(m, order, n, placed, frames, f) && n < |order| && DistinctKeys(order) && f + 0x1000 <= next
    requires Fits(GroupOf(m.bindings, m.frame, order[n])) && DistinctSlots(m.slots)
    requires PastGroup(GroupBases(GroupOf(m.bindings, m.frame, order[n]), f), SizeMap(m.slots), f, next)
    ensures var after := placed + GroupBases(GroupOf(m.bindings, m.frame, order[n]), f);
            GroupsFramed(m, order, n + 1, after, frames[order[n] := f], next)
  {
    OneMoreApart(order, n, frames, f, next);
    if DistinctFrameSlots(m) {
      OneMoreFramed(m, order, n, placed, frames, f);
      OneMoreBelow(m, order, n, placed, frames, f, next);
    }
  }

  lemma OneMoreCovered(m: Candidate, order: seq<(string, string)>, n: nat, placed: map<string, int>, f: int)
    requires n < |order| && forall k :: 0 <= k < n ==> Covered(m, placed, order[k])
    ensures forall k :: 0 <= k < n + 1 ==>
            Covered(m, placed + GroupBases(GroupOf(m.bindings, m.frame, order[n]), f), order[k])
  {
    var after := placed + GroupBases(GroupOf(m.bindings, m.frame, order[n]), f);
    NowCovered(m, placed, order[n], f);
    forall k | 0 <= k < n + 1 ensures Covered(m, after, order[k]) {
      if k < n { StaysCovered(m, placed, after, order[k]); }
    }
  }

  lemma OneMoreFramed(m: Candidate, order: seq<Key>, n: nat, placed: map<string, int>, frames: map<Key, int>, f: int)
    requires n < |order| && DistinctFrameSlots(m) && DistinctKeys(order) && Fits(GroupOf(m.bindings, m.frame, order[n]))
    requires forall k :: 0 <= k < n ==> order[k] in frames && Framed(m, placed, order[k], frames[order[k]])
    ensures var after := placed + GroupBases(GroupOf(m.bindings, m.frame, order[n]), f);
            forall k :: 0 <= k < n + 1 ==> Framed(m, after, order[k], frames[order[n] := f][order[k]])
  {
    var after := placed + GroupBases(GroupOf(m.bindings, m.frame, order[n]), f);
    forall k | 0 <= k < n + 1 ensures Framed(m, after, order[k], frames[order[n] := f][order[k]]) {
      if k < n {
        StaysFramed(m, placed, order[k], frames[order[k]], order[n], f);
      } else {
        NowFramed(m, placed, order[n], f);
      }
    }
  }

  lemma NowCovered(m: Candidate, bases: map<string, int>, key: (string, string), f: int)
    ensures Covered(m, bases + GroupBases(GroupOf(m.bindings, m.frame, key), f), key)
  {
    GroupBasesAt(GroupOf(m.bindings, m.frame, key), f);
  }

  lemma StaysCovered(m: Candidate, before: map<string, int>, after: map<string, int>, key: (string, string))
    requires Covered(m, before, key) && before.Keys <= after.Keys
    ensures Covered(m, after, key)
  {}

  lemma NowFramed(m: Candidate, bases: map<string, int>, key: (string, string), f: int)
    requires DistinctFrameSlots(m) && Fits(GroupOf(m.bindings, m.frame, key))
    ensures Framed(m, bases + GroupBases(GroupOf(m.bindings, m.frame, key), f), key, f)
  {
    FitsAnywhere(GroupOf(m.bindings, m.frame, key), f);
    var h :| OneFrameFits(GroupOf(m.bindings, m.frame, key), f, h);
    GroupFramed(m, bases, key, f, h);
  }

  ghost predicate FramesAbove(order: seq<Key>, n: nat, frames: map<Key, int>, start: int) {
    n <= |order| && forall k :: 0 <= k < n ==> order[k] in frames && start <= frames[order[k]]
  }

  lemma OneMoreAbove(order: seq<Key>, n: nat, frames: map<Key, int>, f: int, start: int)
    requires FramesAbove(order, n, frames, start) && n < |order| && DistinctKeys(order) && start <= f
    ensures FramesAbove(order, n + 1, frames[order[n] := f], start)
  {
    forall k | 0 <= k < n ensures order[k] != order[n] {}
  }

  /** Place the groups one after the other: possible exactly when each fits. */
  method PlaceGroups(m: Candidate, order: seq<Key>, groups: map<Key, seq<Binding>>, start: int, bases: map<string, int>)
    returns (r: Option<map<string, int>>, ghost frames: map<Key, int>)
    requires DistinctKeys(order) && DistinctSlots(m.slots)
    requires forall i :: 0 <= i < |order| ==>
             order[i] in groups && groups[order[i]] == GroupOf(m.bindings, m.frame, order[i])
    ensures r.Some? ==> GroupsPlaced(m, order, |order|, bases, r.value)
    ensures r.Some? ==> exists next :: GroupsFramed(m, order, |order|, r.value, frames, next)
    ensures r.Some? ==> FramesAbove(order, |order|, frames, start)
    ensures r.Some? <==> forall i :: 0 <= i < |order| ==> Fits(groups[order[i]])
  {
    var placed, next := bases, start;
    frames := map[];
    for i := 0 to |order|
      invariant GroupsPlaced(m, order, i, bases, placed) && GroupsFramed(m, order, i, placed, frames, next)
      invariant FramesAbove(order, i, frames, start) && start <= next
      invariant forall k :: 0 <= k < i ==> Fits(groups[order[k]])
    {
      ghost var f := next;
      var one;
      one, next := PlaceNext(m, order, i, groups[order[i]], next, bases, placed, frames);
      if one.None? { return None, frames; }
      placed := one.value;
      OneMoreAbove(order, i, frames, f, start);
      frames := frames[order[i] := f];
    }
    r := Some(placed);
  }

  method PlaceNext(m: Candidate, order: seq<Key>, n: nat, group: seq<Binding>, f: int, ghost bases: map<string, int>,
      placed: map<string, int>, ghost frames: map<Key, int>)
    returns (r: Option<map<string, int>>, next: int)
    requires DistinctKeys(order) && DistinctSlots(m.slots) && n < |order|
    requires group == GroupOf(m.bindings, m.frame, order[n])
    requires GroupsPlaced(m, order, n, bases, placed) && GroupsFramed(m, order, n, placed, frames, f)
    ensures r.Some? <==> Fits(group)
    ensures r.Some? ==> GroupsPlaced(m, order, n + 1, bases, r.value)
    ensures r.Some? ==> GroupsFramed(m, order, n + 1, r.value, frames[order[n] := f], next) && f <= next
  {
    r, next := AllocateFrameGroup(group, f, SizeMap(m.slots), placed);
    FitsAnywhere(group, f);
    if r.Some? {
      PlaceOneMore(m, order, n, bases, placed, f);
      FrameOneMore(m, order, n, placed, frames, f, next);
    }
  }

  /** Both expressions of every binding differ by one distance. */
  ghost predicate Fits(group: seq<Binding>) {
    forall i, j :: 0 <= i < |group| && 0 <= j < |group| ==>
      Offset(group[i].guest) - Offset(group[i].host) == Offset(group[j].guest) - Offset(group[j].host)
  }

  lemma FitsAnywhere(group: seq<Binding>, f: int)
    ensures Fits(group) <==> exists h :: OneFrameFits(group, f, h)
  {
    if Fits(group) {
      var h := if group == [] then 0 else f + Offset(group[0].guest) - Offset(group[0].host);
      assert OneFrameFits(group, f, h);
    }
  }

  // ---- the whole initialization ----

  datatype Outcome = Initialized(bases: map<string, int>, chosen: Assigned) | BadFrame
      | Conflict(bases: map<string, int>)

  /** Every group of frame bindings fits one host frame. */
  ghost predicate FramesFit(m: Candidate) { forall key :: Fits(GroupOf(m.bindings, m.frame, key)) }

  ghost predicate Bound(m: Candidate, key: Key) {
    exists i :: 0 <= i < |m.bindings| && IsFrame(m.bindings[i], m.frame)
        && (m.bindings[i].guest.base, m.bindings[i].host.base) == key
  }

  /** One pair lies below the other: its frame by a page or more, and its slots. */
  ghost predicate FrameBelow(m: Candidate, bases: map<string, int>, frames: map<Key, int>, k: Key, l: Key)
    requires k in frames && l in frames
  {
    frames[k] + 0x1000 <= frames[l] && (DistinctFrameSlots(m) ==> EndsBelow(m, bases, k, frames[l]))
  }

  /** Each pair of frame bases has its own guest frame, above or below every other, and its slots lie around it. */
  ghost predicate AllFramed(m: Candidate, bases: map<string, int>, frames: map<Key, int>) {
    && (forall key :: Bound(m, key) ==> key in frames)
    && (forall k, l :: Bound(m, k) && Bound(m, l) && k != l ==>
       FrameBelow(m, bases, frames, k, l) || FrameBelow(m, bases, frames, l, k))
    && (DistinctFrameSlots(m) ==> forall key :: Bound(m, key) ==> Framed(m, bases, key, frames[key]))
  }

  /** Every slot outside the frame has a stride of memory below every frame. */
  ghost predicate PlainBelow(m: Candidate, stride: nat, bases: map<string, int>, at: int) {
    forall s :: s in m.slots && s.name !in FrameSlots(m.bindings, m.frame) && s.name in bases ==>
      bases[s.name] + stride <= at
  }

  /** Every bound slot has a base; plain slots follow the alias declarations, frame slots their frames. */
  ghost predicate WellPlaced(m: Candidate, stride: nat, bases: map<string, int>, frames: map<Key, int>) {
    && MemoryWitness.Placed(SetupOf(m, bases))
    && BasesFollowAliases(m.slots, FrameSlots(m.bindings, m.frame), m.alias, stride, bases)
    && AllFramed(m, bases, frames)
    && forall key :: Bound(m, key) ==> PlainBelow(m, stride, bases, frames[key])
  }

  method Initialize(m: Candidate, start: int, stride: nat)
    returns (r: Outcome, ghost states: seq<State>, ghost frames: map<Key, int>)
    requires Constructed(m) && stride >= 1
    ensures r.BadFrame? <==> !FramesFit(m)
    ensures r.Initialized? ==> WellPlaced(m, stride, r.bases, frames) && Complete(SetupOf(m, r.bases), states)
                               && r.chosen == states[|states| - 1].chosen
    ensures r.Conflict? ==> WellPlaced(m, stride, r.bases, frames) && Stuck(SetupOf(m, r.bases), states)
  {
    states := [];
    var placed;
    placed, frames := PlaceAll(m, start, stride);
    if placed.None? { return BadFrame, states, frames; }
    var chosen;
    chosen, states := InitializeRegisters(SetupOf(m, placed.value));
    r := if chosen.None? then Conflict(placed.value) else Initialized(placed.value, chosen.value);
  }

  method PlaceAll(m: Candidate, start: int, stride: nat)
    returns (placed: Option<map<string, int>>, ghost frames: map<Key, int>)
    requires Constructed(m) && stride >= 1
    ensures placed.None? <==> !FramesFit(m)
    ensures placed.Some? ==> WellPlaced(m, stride, placed.value, frames)
  {
    var order, groups := CollectFrameGroups(m.bindings, m.frame);
    GroupsDecide(m, order, groups);
    var bases, roots := PlacePlain(m, start, stride);
    placed, frames := PlaceGroups(m, order, groups, start + roots * stride, bases);
    if placed.Some? {
      PlacedEverything(m, order, bases, placed.value);
      FramedEverything(m, order, placed.value, frames);
      PlainStaysBelow(m, order, stride, bases, placed.value, frames, start + roots * stride);
      FollowsStill(m, stride, bases, placed.value);
    }
  }

  method PlacePlain(m: Candidate, start: int, stride: nat) returns (bases: map<string, int>, roots: nat)
    requires Constructed(m) && stride >= 1
    ensures bases.Keys == PlainNames(m.slots, |m.slots|, FrameSlots(m.bindings, m.frame))
    ensures BasesFollowAliases(m.slots, FrameSlots(m.bindings, m.frame), m.alias, stride, bases)
    ensures PlainBelow(m, stride, bases, start + roots * stride)
  {
    var rootOf := MustAliasRoots(Names(m.slots), m.alias);
    var frames := FrameSlots(m.bindings, m.frame);
    var byRoot, sizes;
    ghost var turn;
    bases, byRoot, sizes, turn := PlaceSlots(m.slots, frames, rootOf, start, stride);
    PlacedFollowAliases(m.slots, frames, m.alias, rootOf, start, stride, bases, byRoot, turn);
    roots := |byRoot|;
    forall s | s in m.slots && s.name !in frames && s.name in bases
      ensures bases[s.name] + stride <= Place(start, stride, roots)
    {
      PlacesApart(start, stride, turn[rootOf[s.name]], roots);
    }
  }

  lemma PlainStaysBelow(m: Candidate, order: seq<Key>, stride: nat, bases: map<string, int>, placed: map<string, int>,
      frames: map<Key, int>, at: int)
    requires GroupsPlaced(m, order, |order|, bases, placed) && FramesAbove(order, |order|, frames, at)
    requires PlainBelow(m, stride, bases, at)
    requires forall key :: key in order <==> GroupOf(m.bindings, m.frame, key) != []
    ensures forall key :: Bound(m, key) ==> key in frames && PlainBelow(m, stride, placed, frames[key])
  {
    forall key | Bound(m, key) ensures key in frames && PlainBelow(m, stride, placed, frames[key]) {
      BoundIsOrdered(m, order, key);
      var k :| 0 <= k < |order| && order[k] == key;
    }
  }

  lemma BoundIsOrdered(m: Candidate, order: seq<Key>, key: Key)
    requires Bound(m, key) && forall key :: key in order <==> GroupOf(m.bindings, m.frame, key) != []
    ensures key in order
  {
    var i :| 0 <= i < |m.bindings| && IsFrame(m.bindings[i], m.frame)
      && (m.bindings[i].guest.base, m.bindings[i].host.base) == key;
    GroupMembers(m.bindings, m.frame, key, m.bindings[i]);
  }

  lemma GroupsDecide(m: Candidate, order: seq<(string, string)>, groups: map<(string, string), seq<Binding>>)
    requires forall key :: key in groups <==> GroupOf(m.bindings, m.frame, key) != []
    requires forall key :: key in groups ==> groups[key] == GroupOf(m.bindings, m.frame, key)
    requires forall key :: key in order <==> key in groups
    ensures FramesFit(m) <==> forall i :: 0 <= i < |order| ==> Fits(groups[order[i]])
  {
    if forall i :: 0 <= i < |order| ==> Fits(groups[order[i]]) {
      forall key ensures Fits(GroupOf(m.bindings, m.frame, key)) {
        if key in groups { var i :| 0 <= i < |order| && order[i] == key; }
      }
    }
    if FramesFit(m) {
      forall i | 0 <= i < |order| ensures Fits(groups[order[i]]) { assert order[i] in groups; }
    }
  }

  lemma PlacedEverything(m: Candidate, order: seq<Key>, bases: map<string, int>, placed: map<string, int>)
    requires Constructed(m) && GroupsPlaced(m, order, |order|, bases, placed)
    requires forall key :: key in order <==> GroupOf(m.bindings, m.frame, key) != []
    requires bases.Keys == PlainNames(m.slots, |m.slots|, FrameSlots(m.bindings, m.frame))
    ensures MemoryWitness.Placed(SetupOf(m, placed))
  {
    forall i | 0 <= i < |m.bindings| ensures m.bindings[i].slot in placed {
      var b := m.bindings[i];
      if b.slot in FrameSlots(m.bindings, m.frame) {
        var k :| 0 <= k < |m.bindings| && IsFrame(m.bindings[k], m.frame) && m.bindings[k].slot == b.slot;
        CoveredBinding(m, order, placed, m.bindings[k]);
      } else {
        assert b.slot in bases;
      }
    }
  }

  lemma FramedEverything(m: Candidate, order: seq<Key>, placed: map<string, int>, frames: map<Key, int>)
    requires forall key :: key in order <==> GroupOf(m.bindings, m.frame, key) != []
    requires exists next :: GroupsFramed(m, order, |order|, placed, frames, next)
    ensures AllFramed(m, placed, frames)
  {
    forall key | Bound(m, key) ensures key in order { BoundIsOrdered(m, order, key); }
    var next :| GroupsFramed(m, order, |order|, placed, frames, next);
    forall k, l | Bound(m, k) && Bound(m, l) && k != l
      ensures FrameBelow(m, placed, frames, k, l) || FrameBelow(m, placed, frames, l, k)
    {
      var i :| 0 <= i < |order| && order[i] == k;
      var j :| 0 <= j < |order| && order[j] == l;
      if i < j { assert FrameBelow(m, placed, frames, k, l); } else { assert FrameBelow(m, placed, frames, l, k); }
    }
  }

  lemma CoveredBinding(m: Candidate, order: seq<(string, string)>, placed: map<string, int>, b: Binding)
    requires b in m.bindings && IsFrame(b, m.frame)
    requires forall key :: key in order <==> GroupOf(m.bindings, m.frame, key) != []
    requires forall k :: 0 <= k < |order| ==> Covered(m, placed, order[k])
    ensures b.slot in placed && (b.guest.base, b.host.base) in order
  {
    var key := (b.guest.base, b.host.base);
    GroupMembers(m.bindings, m.frame, key, b);
    var k :| 0 <= k < |order| && order[k] == key;
    assert Covered(m, placed, order[k]);
  }

  lemma FollowsStill(m: Candidate, stride: nat, bases: map<string, int>, placed: map<string, int>)
    requires BasesFollowAliases(m.slots, FrameSlots(m.bindings, m.frame), m.alias, stride, bases)
    requires SamePlain(m, bases, placed)
    ensures BasesFollowAliases(m.slots, FrameSlots(m.bindings, m.frame), m.alias, stride, placed)
  {}

  // ---- what initialization guarantees ----

  /** The base registers of the binding are a pair of the input registers. */
  ghost predicate Partners(m: Candidate, b: Binding) {
    b.guest.base in GuestToHost(m.pairs) && GuestToHost(m.pairs)[b.guest.base] == b.host.base
  }

  /** After a successful initialization every plain guest address is its slot's base, and every other address is
      exactly when some binding gives its base register the value that takes. */
  lemma AddressesReachSlots(m: Candidate, stride: nat, bases: map<string, int>, frames: map<Key, int>,
      states: seq<State>, i: nat)
    requires i < |m.bindings| && WellPlaced(m, stride, bases, frames) && Complete(SetupOf(m, bases), states)
    ensures var (b, c, a) := (m.bindings[i], SetupOf(m, bases), states[|states| - 1].chosen);
            && (!IsFrame(b, m.frame) ==> EvalAddress(b.guest, a) == Some(bases[b.slot]))
            && (!IsFrame(b, m.frame) && b.host.base !in HostToGuest(m.pairs) ==>
               EvalAddress(b.host, a) == Some(bases[b.slot]))
            && (!IsFrame(b, m.frame) && Partners(m, b) ==>
               (EvalAddress(b.host, a) == Some(bases[b.slot]) <==> Offset(b.guest) == Offset(b.host)))
            && (EvalAddress(b.guest, a) == Some(bases[b.slot])
               <==> Demanded(c, b.guest.base, BaseValue(b.guest, bases[b.slot])))
            && (EvalAddress(b.host, a) == Some(bases[b.slot])
               <==> Demanded(c, b.host.base, BaseValue(b.host, bases[b.slot])))
  {
    AddressReachedIff(SetupOf(m, bases), states, i);
    if !IsFrame(m.bindings[i], m.frame) { PlainReached(SetupOf(m, bases), states, i); }
  }

  lemma FramedIsFramedAt(m: Candidate, bases: map<string, int>, key: Key, f: int, h: int)
    requires MemoryWitness.Placed(SetupOf(m, bases)) && FramedBy(m, bases, key, f, h)
    ensures FramedAt(SetupOf(m, bases), key, f, h)
  {
    forall i | 0 <= i < |m.bindings| && InGroup(SetupOf(m, bases), m.bindings[i], key)
      ensures bases[m.bindings[i].slot] == f + Offset(m.bindings[i].guest)
      ensures bases[m.bindings[i].slot] == h + Offset(m.bindings[i].host)
    {
      GroupMembers(m.bindings, m.frame, key, m.bindings[i]);
    }
  }

  /** Both sides of a frame binding reach its slot exactly when the guest base is demanded with the pair's guest frame
      and the host base with its host frame; both are when one of the pair's bindings sets the pair. */
  lemma FramesReachSlots(m: Candidate, stride: nat, bases: map<string, int>, frames: map<Key, int>, states: seq<State>,
      i: nat)
    returns (h: int)
    requires i < |m.bindings| && WellPlaced(m, stride, bases, frames) && Complete(SetupOf(m, bases), states)
    requires IsFrame(m.bindings[i], m.frame) && DistinctFrameSlots(m)
    ensures var (b, c, a) := (m.bindings[i], SetupOf(m, bases), states[|states| - 1].chosen);
            var key := (b.guest.base, b.host.base);
            && FramedAt(c, key, frames[key], h)
            && (EvalAddress(b.guest, a) == Some(bases[b.slot]) <==> Demanded(c, key.0, frames[key]))
            && (EvalAddress(b.host, a) == Some(bases[b.slot]) <==> Demanded(c, key.1, h))
            && ((exists k :: 0 <= k < |m.bindings| && InGroup(c, m.bindings[k], key) && Leads(c, k)) ==>
                  EvalAddress(b.guest, a) == Some(bases[b.slot]) && EvalAddress(b.host, a) == Some(bases[b.slot]))
  {
    var b, c := m.bindings[i], SetupOf(m, bases);
    var key := (b.guest.base, b.host.base);
    assert Bound(m, key);
    h :| FramedBy(m, bases, key, frames[key], h);
    FramedIsFramedAt(m, bases, key, frames[key], h);
    PairReachedIff(c, states, i, key, frames[key], h);
    if k :| 0 <= k < |m.bindings| && InGroup(c, m.bindings[k], key) && Leads(c, k) {
      LedFrames(c, k, key, frames[key], h);
    }
  }

  /** Of two pairs that share a guest base, the one that does not set it misses its slots on the guest side. */
  lemma SharedGuestFrameMisses(m: Candidate, stride: nat, bases: map<string, int>, frames: map<Key, int>,
      states: seq<State>, k: nat, i: nat)
    requires k < |m.bindings| && i < |m.bindings| && WellPlaced(m, stride, bases, frames)
    requires Complete(SetupOf(m, bases), states)
    requires IsFrame(m.bindings[i], m.frame) && DistinctFrameSlots(m) && Leads(SetupOf(m, bases), k)
    requires m.bindings[i].guest.base == m.bindings[k].guest.base && m.bindings[i].host.base != m.bindings[k].host.base
    ensures EvalAddress(m.bindings[i].guest, states[|states| - 1].chosen) != Some(bases[m.bindings[i].slot])
  {
    var c, b, d := SetupOf(m, bases), m.bindings[k], m.bindings[i];
    FramesDiffer(m, bases, frames, k, i);
    var other := FramesReachSlots(m, stride, bases, frames, states, k);
    var own := FramesReachSlots(m, stride, bases, frames, states, i);
    OtherFrameMissed(c, states, k, i);
  }

  lemma FramesDiffer(m: Candidate, bases: map<string, int>, frames: map<Key, int>, k: nat, i: nat)
    requires k < |m.bindings| && i < |m.bindings| && AllFramed(m, bases, frames)
    requires IsFrame(m.bindings[i], m.frame) && IsFrame(m.bindings[k], m.frame)
    ensures var key, other := (m.bindings[i].guest.base, m.bindings[i].host.base),
              (m.bindings[k].guest.base, m.bindings[k].host.base);
            key in frames && other in frames && (key != other ==> frames[key] != frames[other])
  {
    assert Bound(m, (m.bindings[i].guest.base, m.bindings[i].host.base));
    assert Bound(m, (m.bindings[k].guest.base, m.bindings[k].host.base));
  }

  // ---- an input that shows it ----

  /** Two frame pairs, `sp` with `rsp` and `sp` with `rbp`, each bound to a slot of its own. */
  function TwoFrames(frame: FramePair): Candidate {
    Candidate([Slot("a", 8), Slot("b", 8)],
              [Binding("a", Expr("sp", None, 1, 0), Expr("rsp", None, 1, 0)),
                  Binding("b", Expr("sp", None, 1, 0), Expr("rbp", None, 1, 0))],
              [], [], frame)
  }

  lemma TwoFramesFit(m: Candidate)
    requires m == TwoFrames(m.frame)
    ensures FramesFit(m)
  {
    forall key ensures Fits(GroupOf(m.bindings, m.frame, key)) {
      var group := GroupOf(m.bindings, m.frame, key);
      forall i | 0 <= i < |group| ensures Offset(group[i].guest) == Offset(group[i].host) {
        GroupMembers(m.bindings, m.frame, key, group[i]);
      }
    }
  }

  lemma FirstFrameStep(m: Candidate, bases: map<string, int>)
    requires m == TwoFrames(m.frame) && m.frame("sp", "rsp") && "a" in bases
    ensures var c := SetupOf(m, bases);
            Step(c, State(map[], map[]), c.bindings[0])
                == Some(State(map["sp" := bases["a"], "rsp" := bases["a"]], map[("sp", "rsp") := 0]))
  {
    var c := SetupOf(m, bases);
    var b := c.bindings[0];
    assert BothIndexDemands(c, b) == [] && FrameDemands(c, b) == [("sp", bases["a"]), ("rsp", bases["a"])];
    AssignTwo(map[], ("sp", bases["a"]), ("rsp", bases["a"]));
  }

  lemma SecondFrameStep(m: Candidate, bases: map<string, int>, st: State)
    requires m == TwoFrames(m.frame) && m.frame("sp", "rbp") && "a" in bases && "b" in bases
    requires st == State(map["sp" := bases["a"], "rsp" := bases["a"]], map[("sp", "rsp") := 0])
    ensures var c := SetupOf(m, bases);
            Step(c, st, c.bindings[1]) == Some(State(st.chosen, st.offsets[("sp", "rbp") := 0]))
  {
    assert BothIndexDemands(SetupOf(m, bases), m.bindings[1]) == [];
  }

  /** Every run over the two frames completes, with values for the first pair only. */
  lemma TwoFramesTrace(m: Candidate, bases: map<string, int>, states: seq<State>)
    requires m == TwoFrames(m.frame) && m.frame("sp", "rsp") && m.frame("sp", "rbp") && "a" in bases && "b" in bases
    requires Complete(SetupOf(m, bases), states) || Stuck(SetupOf(m, bases), states)
    ensures Complete(SetupOf(m, bases), states)
    ensures states[|states| - 1].chosen == map["sp" := bases["a"], "rsp" := bases["a"]]
  {
    var c := SetupOf(m, bases);
    FirstFrameStep(m, bases);
    var one := Step(c, State(map[], map[]), c.bindings[0]).value;
    SecondFrameStep(m, bases, one);
    if |states| >= 2 { assert Stepped(c, states, 0); }
    if |states| == 3 { assert Stepped(c, states, 1); }
  }

  /** Initialization succeeds, yet the second binding's guest address is not its slot's base and its host base has no
      value. */
  method SharedGuestFrameIsMissed(m: Candidate, start: int, stride: nat)
    returns (bases: map<string, int>, chosen: Assigned)
    requires m == TwoFrames(m.frame) && m.frame("sp", "rsp") && m.frame("sp", "rbp") && stride >= 1
    ensures "a" in bases && "b" in bases
    ensures EvalAddress(m.bindings[0].guest, chosen) == Some(bases["a"]) == EvalAddress(m.bindings[0].host, chosen)
    ensures EvalAddress(m.bindings[1].guest, chosen) == Some(bases["a"]) != Some(bases["b"])
    ensures EvalAddress(m.bindings[1].host, chosen).None?
  {
    var r;
    ghost var states, frames;
    assert m.slots[0].name in Names(m.slots) && m.slots[1].name in Names(m.slots);
    r, states, frames := Initialize(m, start, stride);
    TwoFramesFit(m);
    TwoFramesBound(m, stride, r.bases, frames);
    TwoFramesTrace(m, r.bases, states);
    bases, chosen := r.bases, r.chosen;
  }

  lemma TwoFramesBound(m: Candidate, stride: nat, bases: map<string, int>, frames: map<Key, int>)
    requires m == TwoFrames(m.frame) && m.frame("sp", "rsp") && m.frame("sp", "rbp")
    requires WellPlaced(m, stride, bases, frames)
    ensures "a" in bases && "b" in bases && bases["a"] != bases["b"]
  {
    assert m.bindings[0].slot in bases && m.bindings[1].slot in bases;
    var k, l := ("sp", "rsp"), ("sp", "rbp");
    assert IsFrame(m.bindings[0], m.frame) && IsFrame(m.bindings[1], m.frame);
    assert Bound(m, k) && Bound(m, l);
    GroupMembers(m.bindings, m.frame, k, m.bindings[0]);
    GroupMembers(m.bindings, m.frame, l, m.bindings[1]);
    var f :| FramedBy(m, bases, k, frames[k], f);
    var g :| FramedBy(m, bases, l, frames[l], g);
  }
}
