/** Where each memory slot is placed before a verification run. */
module MemoryLayout {
  import opened Wrappers
  import opened AliasRoots

  datatype Slot = Slot(name: string, size: nat)

  /** base + index * scale + displacement */
  datatype Expr = Expr(base: string, index: Option<string>, scale: int, displacement: int)

  datatype Binding = Binding(slot: string, guest: Expr, host: Expr)

  /** Is a guest and a host register a pair of frame bases? */
  type FramePair = (string, string) -> bool

  const INDEX_WITNESS: int := 3

  /** What an expression adds to its base once its index holds the witness. */
  function Offset(e: Expr): int { (if e.index.Some? then INDEX_WITNESS * e.scale else 0) + e.displacement }

  /** With the witness in the index, different scales give different offsets, even modulo two to the 64. */
  lemma WitnessTellsScales(e: Expr, f: Expr)
    requires e.index.Some? && f.index.Some? && e.displacement == f.displacement
    ensures (Offset(e) - Offset(f)) % 0x1_0000_0000_0000_0000 == 0
            <==> (e.scale - f.scale) % 0x1_0000_0000_0000_0000 == 0
  {}

  lemma OffsetOfIndexed()
    ensures Offset(Expr("x0", Some("x1"), 8, 16)) == 40 && Offset(Expr("x0", None, 8, 16)) == 16
  {}

  ghost predicate IsFrame(b: Binding, frame: FramePair) { frame(b.guest.base, b.host.base) }

  function FrameSlots(bindings: seq<Binding>, frame: FramePair): set<string> {
    set i | 0 <= i < |bindings| && frame(bindings[i].guest.base, bindings[i].host.base) :: bindings[i].slot
  }

  lemma FrameSlotsAre(bindings: seq<Binding>, frame: FramePair, slot: string)
    ensures slot in FrameSlots(bindings, frame) <==> exists b :: b in bindings && IsFrame(b, frame) && b.slot == slot
  {}

  predicate DistinctSlots(slots: seq<Slot>) { forall i, j :: 0 <= i < j < |slots| ==> slots[i].name != slots[j].name }

  function Names(slots: seq<Slot>): set<string> { set i | 0 <= i < |slots| :: slots[i].name }

  // ---- slots outside the frame ----

  /** The base of the `k`-th root. */
  function Place(start: int, stride: nat, k: nat): int { start + k * stride }

  /** Every root has its own place; `turn` says which. */
  ghost predicate RootsPlaced(byRoot: map<string, int>, turn: map<string, nat>, start: int, stride: nat) {
    && byRoot.Keys == turn.Keys
    && (forall r :: r in byRoot ==> turn[r] < |byRoot| && byRoot[r] == Place(start, stride, turn[r]))
    && (forall r, q :: r in byRoot && q in byRoot && r != q ==> turn[r] != turn[q])
  }

  /** The first `n` slots outside the frame sit at the base of their root. */
  ghost predicate SlotsPlaced(slots: seq<Slot>, n: nat, frames: set<string>, roots: map<string, string>,
      bases: map<string, int>, byRoot: map<string, int>)
  {
    && n <= |slots| && bases.Keys == PlainNames(slots, n, frames)
    && forall s :: s in bases ==> s in roots && roots[s] in byRoot && bases[s] == byRoot[roots[s]]
  }

  function PlainNames(slots: seq<Slot>, n: nat, frames: set<string>): set<string>
    requires n <= |slots|
  {
    set i | 0 <= i < n && slots[i].name !in frames :: slots[i].name
  }

  /** The memory behind a root is as large as the largest of its first `n` slots. */
  ghost predicate SizesCover(slots: seq<Slot>, n: nat, frames: set<string>, roots: map<string, string>,
      sizes: map<string, nat>)
  {
    && n <= |slots|
    && (forall i :: 0 <= i < n && slots[i].name !in frames ==>
          slots[i].name in roots && roots[slots[i].name] in sizes && slots[i].size <= sizes[roots[slots[i].name]])
    && (forall r :: r in sizes ==> exists i :: 0 <= i < n && slots[i].name !in frames && slots[i].name in roots
                                           && roots[slots[i].name] == r && slots[i].size == sizes[r])
  }

  lemma PlaceRoot(byRoot: map<string, int>, turn: map<string, nat>, start: int, stride: nat, root: string)
    requires RootsPlaced(byRoot, turn, start, stride) && root !in byRoot
    ensures RootsPlaced(byRoot[root := Place(start, stride, |byRoot|)], turn[root := |byRoot|], start, stride)
  {
    var byRoot', turn' := byRoot[root := Place(start, stride, |byRoot|)], turn[root := |byRoot|];
    MapGrows(byRoot, root, Place(start, stride, |byRoot|));
    assert byRoot'.Keys == byRoot.Keys + {root} && turn'.Keys == turn.Keys + {root};
    forall r | r in byRoot' ensures turn'[r] < |byRoot'| && byRoot'[r] == Place(start, stride, turn'[r]) {}
  }

  lemma MapGrows(m: map<string, int>, key: string, value: int)
    requires key !in m
    ensures |m[key := value]| == |m| + 1
  {
    assert m[key := value].Keys == m.Keys + {key};
    assert |m[key := value]| == |m[key := value].Keys| && |m| == |m.Keys|;
  }

  predicate Extends(m: map<string, int>, n: map<string, int>) { forall r :: r in m ==> r in n && n[r] == m[r] }

  lemma PlaceSlot(slots: seq<Slot>, n: nat, frames: set<string>, roots: map<string, string>, bases: map<string, int>,
      byRoot: map<string, int>, byRoot': map<string, int>)
    requires SlotsPlaced(slots, n, frames, roots, bases, byRoot) && n < |slots| && slots[n].name in roots
    requires slots[n].name !in frames
    requires Extends(byRoot, byRoot')
    requires roots[slots[n].name] in byRoot'
    requires slots[n].name in bases ==> bases[slots[n].name] == byRoot'[roots[slots[n].name]]
    ensures SlotsPlaced(slots, n + 1, frames, roots, bases[slots[n].name := byRoot'[roots[slots[n].name]]], byRoot')
  {
    assert PlainNames(slots, n + 1, frames) == PlainNames(slots, n, frames) + {slots[n].name};
  }

  lemma SkipSlot(slots: seq<Slot>, n: nat, frames: set<string>)
    requires n < |slots| && slots[n].name in frames
    ensures PlainNames(slots, n + 1, frames) == PlainNames(slots, n, frames)
  {}

  function Grown(sizes: map<string, nat>, root: string, size: nat): map<string, nat> {
    sizes[root := if root in sizes && sizes[root] > size then sizes[root] else size]
  }

  lemma GrowSize(slots: seq<Slot>, n: nat, frames: set<string>, roots: map<string, string>, sizes: map<string, nat>)
    requires SizesCover(slots, n, frames, roots, sizes) && n < |slots| && slots[n].name in roots
    requires slots[n].name !in frames
    ensures SizesCover(slots, n + 1, frames, roots, Grown(sizes, roots[slots[n].name], slots[n].size))
  {
    var root := roots[slots[n].name];
    var after := Grown(sizes, root, slots[n].size);
    forall r | r in after
      ensures exists i |
                0 <= i < n + 1 && slots[i].name !in frames && slots[i].name in roots && roots[slots[i].name] == r ::
                slots[i].size == after[r]
    {
      if r in sizes && after[r] == sizes[r] {
        var i :| 0 <= i < n && slots[i].name !in frames && slots[i].name in roots && roots[slots[i].name] == r
          && slots[i].size == sizes[r];
      } else {
        assert roots[slots[n].name] == r && slots[n].size == after[r];
      }
    }
  }

  /** A root met for the first time takes the next place. */
  method RootPlaced(byRoot: map<string, int>, ghost turn: map<string, nat>, start: int, stride: nat, root: string)
    returns (byRoot': map<string, int>, ghost turn': map<string, nat>)
    requires RootsPlaced(byRoot, turn, start, stride)
    ensures RootsPlaced(byRoot', turn', start, stride) && root in byRoot' && Extends(byRoot, byRoot')
    ensures byRoot' == if root in byRoot then byRoot else byRoot[root := Place(start, stride, |byRoot|)]
  {
    byRoot', turn' := byRoot, turn;
    if root !in byRoot {
      PlaceRoot(byRoot, turn, start, stride, root);
      turn' := turn[root := |byRoot|];
      byRoot' := byRoot[root := Place(start, stride, |byRoot|)];
    }
  }

  /** Lay out the slots outside the frame. */
  method PlaceSlots(slots: seq<Slot>, frames: set<string>, roots: map<string, string>, start: int, stride: nat)
    returns (bases: map<string, int>, byRoot: map<string, int>, sizes: map<string, nat>, ghost turn: map<string, nat>)
    requires Names(slots) <= roots.Keys
    ensures SlotsPlaced(slots, |slots|, frames, roots, bases, byRoot)
    ensures RootsPlaced(byRoot, turn, start, stride)
    ensures SizesCover(slots, |slots|, frames, roots, sizes)
  {
    bases, byRoot, sizes, turn := map[], map[], map[], map[];
    for n := 0 to |slots|
      invariant SlotsPlaced(slots, n, frames, roots, bases, byRoot)
      invariant RootsPlaced(byRoot, turn, start, stride)
      invariant SizesCover(slots, n, frames, roots, sizes)
    {
      if slots[n].name in frames {
        SkipSlot(slots, n, frames);
        continue;
      }
      assert slots[n].name in Names(slots);
      var root := roots[slots[n].name];
      ghost var before := byRoot;
      byRoot, turn := RootPlaced(byRoot, turn, start, stride, root);
      PlaceSlot(slots, n, frames, roots, bases, before, byRoot);
      bases := bases[slots[n].name := byRoot[root]];
      GrowSize(slots, n, frames, roots, sizes);
      sizes := Grown(sizes, root, slots[n].size);
    }
  }

  /** Slots share a base exactly when declarations connect them; others lie apart if they fit in a stride. */
  ghost predicate BasesFollowAliases(slots: seq<Slot>, frames: set<string>, ds: seq<Declaration>, stride: nat,
      bases: map<string, int>)
  {
    forall i, j :: 0 <= i < |slots| && 0 <= j < |slots| && slots[i].name !in frames && slots[j].name !in frames ==>
      var s, t := slots[i].name, slots[j].name;
      && s in bases && t in bases
      && (bases[s] == bases[t] <==> Connected(ds, s, t))
      && (!Connected(ds, s, t) && slots[i].size <= stride && slots[j].size <= stride ==>
            bases[s] + slots[i].size <= bases[t] || bases[t] + slots[j].size <= bases[s])
  }

  lemma NextPlace(start: int, stride: nat, k: nat)
    ensures Place(start, stride, k + 1) == Place(start, stride, k) + stride
  {}

  lemma {:induction false} PlacesApart(start: int, stride: nat, j: nat, k: nat)
    requires j < k
    ensures Place(start, stride, j) + stride <= Place(start, stride, k)
    decreases k
  {
    NextPlace(start, stride, k - 1);
    if j < k - 1 { PlacesApart(start, stride, j, k - 1); }
  }

  lemma PlacedFollowAliases(slots: seq<Slot>, frames: set<string>, ds: seq<Declaration>, roots: map<string, string>,
      start: int, stride: nat, bases: map<string, int>, byRoot: map<string, int>, turn: map<string, nat>)
    requires SlotsPlaced(slots, |slots|, frames, roots, bases, byRoot) && RootsPlaced(byRoot, turn, start, stride)
    requires stride >= 1
    requires forall s, t :: s in roots && t in roots ==> (roots[s] == roots[t] <==> Connected(ds, s, t))
    ensures BasesFollowAliases(slots, frames, ds, stride, bases)
  {
    forall i, j | 0 <= i < |slots| && 0 <= j < |slots| && slots[i].name !in frames && slots[j].name !in frames
      ensures var s, t := slots[i].name, slots[j].name;
              && s in bases && t in bases && (bases[s] == bases[t] <==> Connected(ds, s, t))
              && (!Connected(ds, s, t) && slots[i].size <= stride && slots[j].size <= stride ==>
                    bases[s] + slots[i].size <= bases[t] || bases[t] + slots[j].size <= bases[s])
    {
      var s, t := slots[i].name, slots[j].name;
      assert s in PlainNames(slots, |slots|, frames) && t in PlainNames(slots, |slots|, frames);
      var j, k := turn[roots[s]], turn[roots[t]];
      if j < k { PlacesApart(start, stride, j, k); } else if k < j { PlacesApart(start, stride, k, j); }
    }
  }

  // ---- frame slots ----

  /** The frame bindings of one register pair, in order. */
  ghost function GroupOf(bindings: seq<Binding>, frame: FramePair, key: (string, string)): seq<Binding> {
    if bindings == [] then [] else
    var b := bindings[|bindings| - 1];
    var group := GroupOf(bindings[..|bindings| - 1], frame, key);
    if IsFrame(b, frame) && (b.guest.base, b.host.base) == key then group + [b] else group
  }

  predicate DistinctKeys(order: seq<(string, string)>) {
    forall i, j :: 0 <= i < j < |order| ==> order[i] != order[j]
  }

  /** The groups by register pair, and the order in which the pairs appeared. */
  method CollectFrameGroups(bindings: seq<Binding>, frame: FramePair)
    returns (order: seq<(string, string)>, groups: map<(string, string), seq<Binding>>)
    ensures forall key :: key in groups <==> GroupOf(bindings, frame, key) != []
    ensures forall key :: key in groups ==> groups[key] == GroupOf(bindings, frame, key)
    ensures DistinctKeys(order)
    ensures forall key :: key in order <==> key in groups
  {
    order, groups := [], map[];
    for i := 0 to |bindings|
      invariant forall key :: key in groups <==> GroupOf(bindings[..i], frame, key) != []
      invariant forall key :: key in groups ==> groups[key] == GroupOf(bindings[..i], frame, key)
      invariant DistinctKeys(order)
      invariant forall key :: key in order <==> key in groups
    {
      var b := bindings[i];
      assert bindings[..i + 1][..i] == bindings[..i];
      if frame(b.guest.base, b.host.base) {
        var key := (b.guest.base, b.host.base);
        if key !in groups { order := order + [key]; }
        groups := groups[key := (if key in groups then groups[key] else []) + [b]];
      }
    }
    assert bindings[..|bindings|] == bindings;
  }

  /** With the guest frame at `f` and the host frame at `h`, both expressions of every binding point to one address. */
  predicate OneFrameFits(group: seq<Binding>, f: int, h: int) {
    forall i :: 0 <= i < |group| ==> f + Offset(group[i].guest) == h + Offset(group[i].host)
  }

  predicate DistinctGroup(group: seq<Binding>) {
    forall i, j :: 0 <= i < j < |group| ==> group[i].slot != group[j].slot
  }

  /** The bases a group's slots get. */
  function GroupBases(group: seq<Binding>, f: int): map<string, int> {
    if group == [] then map[] else
    GroupBases(group[..|group| - 1], f)[group[|group| - 1].slot := f + Offset(group[|group| - 1].guest)]
  }

  lemma {:induction false} GroupBasesAt(group: seq<Binding>, f: int)
    ensures forall s :: s in GroupBases(group, f) <==> exists i :: 0 <= i < |group| && group[i].slot == s
    ensures DistinctGroup(group) ==> forall i :: 0 <= i < |group| ==>
            GroupBases(group, f)[group[i].slot] == f + Offset(group[i].guest)
  {
    if group != [] { GroupBasesAt(group[..|group| - 1], f); }
  }

  /** The end of a group's allocation: past all its slots, and at least a page further. */
  ghost predicate PastGroup(bases: map<string, int>, sizes: map<string, nat>, f: int, next: int) {
    next >= f + 0x1000 && forall s :: s in bases ==> bases[s] + (if s in sizes then sizes[s] else 0) + 0x10 <= next
  }

  /** A group is placed exactly when one host frame fits all its slots. */
  method AllocateFrameGroup(group: seq<Binding>, f: int, sizes: map<string, nat>, bases: map<string, int>)
    returns (r: Option<map<string, int>>, next: int)
    ensures r.Some? <==> exists h :: OneFrameFits(group, f, h)
    ensures r.Some? ==> r.value == bases + GroupBases(group, f) && PastGroup(GroupBases(group, f), sizes, f, next)
  {
    var slotBases: map<string, int> := map[];
    var hostOffset: Option<int> := None;
    next := f;
    for i := 0 to |group|
      invariant hostOffset.None? <==> i == 0
      invariant hostOffset.Some? ==> forall k :: 0 <= k < i ==>
                f + Offset(group[k].guest) == f + hostOffset.value + Offset(group[k].host)
      invariant slotBases == GroupBases(group[..i], f)
    {
      var slotBase := f + Offset(group[i].guest);
      var offset := slotBase - Offset(group[i].host) - f;
      if hostOffset.None? { hostOffset := Some(offset); }
      else if offset != hostOffset.value {
        forall h ensures !OneFrameFits(group, f, h) {
          assert f + Offset(group[0].guest) == f + hostOffset.value + Offset(group[0].host);
        }
        return None, f;
      }
      assert group[..i + 1][..i] == group[..i];
      slotBases := slotBases[group[i].slot := slotBase];
    }
    assert group[..|group|] == group;
    assert OneFrameFits(group, f, if hostOffset.None? then 0 else f + hostOffset.value);
    next := NextFree(slotBases, sizes, f);
    r := Some(bases + slotBases);
  }

  method NextFree(bases: map<string, int>, sizes: map<string, nat>, f: int) returns (next: int)
    ensures PastGroup(bases, sizes, f, next)
    ensures next == f + 0x1000
            || exists s | s in bases :: next == bases[s] + (if s in sizes then sizes[s] else 0) + 0x10
  {
    next := f + 0x1000;
    var todo := bases.Keys;
    while todo != {}
      invariant todo <= bases.Keys && next >= f + 0x1000
      invariant forall s :: s in bases && s !in todo ==> bases[s] + (if s in sizes then sizes[s] else 0) + 0x10 <= next
      invariant next == f + 0x1000
                || exists s | s in bases :: next == bases[s] + (if s in sizes then sizes[s] else 0) + 0x10
      decreases todo
    {
      var s :| s in todo;
      todo := todo - {s};
      var end := bases[s] + if s in sizes then sizes[s] else 0;
      if end + 0x10 > next { next := end + 0x10; }
    }
  }
}
