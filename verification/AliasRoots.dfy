/** Grouping memory slots that must alias, by union-find with path compression. */
module AliasRoots {
  import opened Wrappers

  datatype Relation = Disjoint | MustAlias | MayAlias

  datatype Declaration = Declaration(slots: seq<string>, relation: Relation)

  ghost predicate Linked(ds: seq<Declaration>, a: string, b: string) {
    exists i :: 0 <= i < |ds| && ds[i].relation.MustAlias? && a in ds[i].slots && b in ds[i].slots
  }

  /** Each name shares a must-alias declaration with the next. */
  ghost predicate Chain(ds: seq<Declaration>, p: seq<string>) {
    p != [] && forall i :: 0 <= i < |p| - 1 ==> Linked(ds, p[i], p[i + 1])
  }

  ghost predicate Connected(ds: seq<Declaration>, a: string, b: string) {
    exists p :: Chain(ds, p) && p[0] == a && p[|p| - 1] == b
  }

  lemma ConnectedReflexive(ds: seq<Declaration>, a: string)
    ensures Connected(ds, a, a)
  {
    assert Chain(ds, [a]) && [a][|[a]| - 1] == a;
  }

  lemma LinkedConnected(ds: seq<Declaration>, a: string, b: string)
    requires Linked(ds, a, b)
    ensures Connected(ds, a, b)
  {
    var p := [a, b];
    assert Chain(ds, p) && p[|p| - 1] == b;
  }

  lemma ConnectedSymmetric(ds: seq<Declaration>, a: string, b: string)
    requires Connected(ds, a, b)
    ensures Connected(ds, b, a)
  {
    var p :| Chain(ds, p) && p[0] == a && p[|p| - 1] == b;
    var q := seq(|p|, i requires 0 <= i < |p| => p[|p| - 1 - i]);
    forall i | 0 <= i < |q| - 1 ensures Linked(ds, q[i], q[i + 1]) {
      var k := |p| - 2 - i;
      assert Linked(ds, p[k], p[k + 1]);
    }
    assert Chain(ds, q) && q[0] == b && q[|q| - 1] == a;
  }

  lemma ConnectedTransitive(ds: seq<Declaration>, a: string, b: string, c: string)
    requires Connected(ds, a, b) && Connected(ds, b, c)
    ensures Connected(ds, a, c)
  {
    var p :| Chain(ds, p) && p[0] == a && p[|p| - 1] == b;
    var q :| Chain(ds, q) && q[0] == b && q[|q| - 1] == c;
    var r := p + q[1..];
    forall i | 0 <= i < |r| - 1 ensures Linked(ds, r[i], r[i + 1]) {
      if i < |p| - 1 { assert Linked(ds, p[i], p[i + 1]); }
      else { assert Linked(ds, q[i - |p| + 1], q[i - |p| + 2]); }
    }
    assert Chain(ds, r) && r[0] == a && r[|r| - 1] == c;
  }

  /** Groups whose linked members agree keep together everything a chain connects. */
  lemma {:induction false} ChainKeepsRoot(ds: seq<Declaration>, root: map<string, string>, p: seq<string>)
    requires Chain(ds, p) && Agrees(ds, root, |ds|) && p[0] in root && Known(ds, root.Keys)
    ensures p[|p| - 1] in root && root[p[0]] == root[p[|p| - 1]]
    decreases |p|
  {
    if |p| > 1 {
      var q := p[..|p| - 1];
      forall i | 0 <= i < |q| - 1 ensures Linked(ds, q[i], q[i + 1]) { assert Linked(ds, p[i], p[i + 1]); }
      ChainKeepsRoot(ds, root, q);
      assert Linked(ds, p[|p| - 2], p[|p| - 2 + 1]);
    }
  }

  /** What the constructors of declarations and memory descriptions enforce. */
  predicate Known(ds: seq<Declaration>, slots: set<string>) {
    forall i :: 0 <= i < |ds| ==> |ds[i].slots| >= 2 && forall k :: 0 <= k < |ds[i].slots| ==> ds[i].slots[k] in slots
  }

  /** Within each of the first `n` must-alias declarations all slots have one root. */
  ghost predicate Agrees(ds: seq<Declaration>, root: map<string, string>, n: nat)
    requires n <= |ds|
  {
    forall i, s, t |
      0 <= i < n && ds[i].relation.MustAlias? && s in ds[i].slots && t in ds[i].slots && s in root && t in root ::
      root[s] == root[t]
  }

  /** Slots of one group are connected. */
  ghost predicate Justified(ds: seq<Declaration>, root: map<string, string>) {
    forall s, t :: s in root && t in root && root[s] == root[t] ==> Connected(ds, s, t)
  }

  // ---- union-find ----

  /** One slot of a forest: its parent lies strictly nearer to its root, and only roots are their own parents. */
  ghost predicate InForest(parents: map<string, string>, root: map<string, string>, depth: map<string, nat>, s: string)
  {
    && parents.Keys == root.Keys == depth.Keys
    && s in parents && parents[s] in parents && root[s] in parents
    && root[parents[s]] == root[s] && root[root[s]] == root[s] && parents[root[s]] == root[s] && depth[root[s]] == 0
    && (parents[s] == s <==> root[s] == s)
    && (parents[s] != s ==> depth[parents[s]] < depth[s])
  }

  ghost predicate Forest(parents: map<string, string>, root: map<string, string>, depth: map<string, nat>) {
    && parents.Keys == root.Keys == depth.Keys
    && forall s {:trigger InForest(parents, root, depth, s)} :: s in parents ==> InForest(parents, root, depth, s)
  }

  lemma CompressionKeepsForest(parents: map<string, string>, root: map<string, string>, depth: map<string, nat>,
      slot: string)
    requires Forest(parents, root, depth) && slot in parents && parents[slot] != slot
    ensures root[slot] in parents && Forest(parents[slot := root[slot]], root, depth)
  {
    assert InForest(parents, root, depth, slot);
    var after := parents[slot := root[slot]];
    assert after.Keys == parents.Keys;
    forall s | s in after ensures InForest(after, root, depth, s) {
      assert InForest(parents, root, depth, s);
      assert InForest(parents, root, depth, root[s]);
    }
  }

  function Deeper(root: map<string, string>, depth: map<string, nat>, r: string): (after: map<string, nat>)
    requires root.Keys == depth.Keys
  {
    map s | s in depth :: if root[s] == r then depth[s] + 1 else depth[s]
  }

  function Redirected(root: map<string, string>, l: string, r: string): map<string, string> {
    map s | s in root :: if root[s] == r then l else root[s]
  }

  lemma UnionKeepsForest(parents: map<string, string>, root: map<string, string>, depth: map<string, nat>, l: string,
      r: string)
    requires Forest(parents, root, depth) && l in parents && r in parents && root[l] == l && root[r] == r && l != r
    ensures Forest(parents[r := l], Redirected(root, l, r), Deeper(root, depth, r))
  {
    var parents', root', depth' := parents[r := l], Redirected(root, l, r), Deeper(root, depth, r);
    assert InForest(parents, root, depth, l) && InForest(parents, root, depth, r);
    forall s | s in parents' ensures InForest(parents', root', depth', s) {
      assert InForest(parents, root, depth, s);
    }
  }

  class DisjointSets {
    var parents: map<string, string>
    /** The root each slot's parents lead to, and how far away it is at most. */
    ghost var root: map<string, string>
    ghost var depth: map<string, nat>

    ghost predicate Valid()
      reads this
    {
      Forest(parents, root, depth)
    }

    constructor (slots: set<string>)
      ensures Valid() && root.Keys == slots && forall s :: s in slots ==> root[s] == s
    {
      parents := map s | s in slots :: s;
      root := map s | s in slots :: s;
      depth := map s | s in slots :: 0;
    }

    /** The root of a slot; slots on the way are attached to it directly. */
    method Find(slot: string) returns (r: string)
      requires Valid() && slot in parents
      modifies this
      ensures Valid() && root == old(root) && depth == old(depth) && parents.Keys == old(parents.Keys)
      ensures r == root[slot] && r in parents && root[r] == r
      decreases depth[slot]
    {
      assert InForest(parents, root, depth, slot);
      var parent := parents[slot];
      if parent != slot {
        var top := Find(parent);
        assert InForest(parents, root, depth, slot);
        if parents[slot] != slot {
          CompressionKeepsForest(parents, root, depth, slot);
        }
        parents := parents[slot := top];
      }
      return parents[slot];
    }

    /** The group of `right` joins the group of `left`, under the root of `left`. */
    method Union(left: string, right: string)
      requires Valid() && left in parents && right in parents
      modifies this
      ensures Valid() && root.Keys == old(root.Keys)
      ensures forall s :: s in root ==> root[s] == if old(root)[s] == old(root)[right] then old(root)[left]
              else old(root)[s]
    {
      var l := Find(left);
      var r := Find(right);
      assert InForest(parents, root, depth, r);
      if l != r {
        UnionKeepsForest(parents, root, depth, l, r);
        depth := Deeper(root, depth, r);
        root := Redirected(root, l, r);
      } else {
        assert parents[r := l] == parents;
      }
      parents := parents[r := l];
    }
  }

  // ---- the roots of a memory description ----

  lemma UnionJustified(ds: seq<Declaration>, before: map<string, string>, after: map<string, string>, left: string,
      right: string)
    requires Justified(ds, before) && after.Keys == before.Keys && left in before && right in before
    requires Linked(ds, left, right)
    requires forall s :: s in after ==> after[s] == if before[s] == before[right] then before[left] else before[s]
    ensures Justified(ds, after)
  {
    forall s, t | s in after && t in after && after[s] == after[t] ensures Connected(ds, s, t) {
      if before[s] == before[t] {
        assert Connected(ds, s, t);
      } else if before[s] == before[right] {
        Joined(ds, before, s, right, left, t);
      } else {
        Joined(ds, before, t, right, left, s);
        ConnectedSymmetric(ds, t, s);
      }
    }
  }

  lemma Joined(ds: seq<Declaration>, root: map<string, string>, s: string, right: string, left: string, t: string)
    requires Justified(ds, root) && s in root && t in root && left in root && right in root && Linked(ds, left, right)
    requires root[s] == root[right] && root[t] == root[left]
    ensures Connected(ds, s, t)
  {
    LinkedConnected(ds, left, right);
    ConnectedSymmetric(ds, left, right);
    ConnectedTransitive(ds, s, right, left);
    assert Connected(ds, left, t);
    ConnectedTransitive(ds, s, left, t);
  }

  /** Two slots get one root exactly when a chain of must-alias declarations connects them. */
  method MustAliasRoots(slots: set<string>, ds: seq<Declaration>) returns (roots: map<string, string>)
    requires Known(ds, slots)
    ensures roots.Keys == slots
    ensures forall s, t :: s in slots && t in slots ==> (roots[s] == roots[t] <==> Connected(ds, s, t))
  {
    var sets := new DisjointSets(slots);
    StartJustified(ds, sets.root);
    for i := 0 to |ds|
      invariant sets.Valid() && sets.root.Keys == slots && Justified(ds, sets.root) && Agrees(ds, sets.root, i)
    {
      if ds[i].relation.MustAlias? { JoinDeclaration(sets, ds, i); }
    }
    roots := AllRoots(sets);
    RootsDecide(ds, roots);
  }

  method AllRoots(sets: DisjointSets) returns (roots: map<string, string>)
    requires sets.Valid()
    modifies sets
    ensures sets.Valid() && sets.root == old(sets.root) && roots == sets.root
  {
    roots := map[];
    var todo := sets.parents.Keys;
    while todo != {}
      invariant sets.Valid() && sets.root == old(sets.root) && todo <= sets.root.Keys
      invariant roots.Keys == sets.root.Keys - todo && forall s :: s in roots ==> roots[s] == sets.root[s]
      decreases todo
    {
      var s :| s in todo;
      todo := todo - {s};
      var r := sets.Find(s);
      roots := roots[s := r];
    }
  }

  lemma StartJustified(ds: seq<Declaration>, root: map<string, string>)
    requires forall s :: s in root ==> root[s] == s
    ensures Justified(ds, root) && Agrees(ds, root, 0)
  {
    forall s | s in root ensures Connected(ds, s, s) { ConnectedReflexive(ds, s); }
  }

  lemma RootsDecide(ds: seq<Declaration>, root: map<string, string>)
    requires Known(ds, root.Keys) && Justified(ds, root) && Agrees(ds, root, |ds|)
    ensures forall s, t :: s in root && t in root ==> (root[s] == root[t] <==> Connected(ds, s, t))
  {
    forall s, t | s in root && t in root && Connected(ds, s, t) ensures root[s] == root[t] {
      var p :| Chain(ds, p) && p[0] == s && p[|p| - 1] == t;
      ChainKeepsRoot(ds, root, p);
    }
  }

  /** The first `k` slots of declaration `i` have joined. */
  ghost predicate JoinedUpTo(ds: seq<Declaration>, root: map<string, string>, i: nat, k: nat) {
    && i < |ds| && k <= |ds[i].slots| && Known(ds, root.Keys) && Justified(ds, root) && Agrees(ds, root, i)
    && forall j :: 0 <= j < k ==> root[ds[i].slots[j]] == root[ds[i].slots[0]]
  }

  lemma JoinOneMore(ds: seq<Declaration>, before: map<string, string>, after: map<string, string>, i: nat, k: nat)
    requires JoinedUpTo(ds, before, i, k) && 1 <= k < |ds[i].slots| && ds[i].relation.MustAlias?
    requires after.Keys == before.Keys
    requires forall s :: s in after ==> after[s] == if before[s] == before[ds[i].slots[k]] then before[ds[i].slots[0]]
             else before[s]
    ensures JoinedUpTo(ds, after, i, k + 1)
  {
    assert Linked(ds, ds[i].slots[0], ds[i].slots[k]);
    UnionJustified(ds, before, after, ds[i].slots[0], ds[i].slots[k]);
  }

  lemma JoinedAll(ds: seq<Declaration>, root: map<string, string>, i: nat)
    requires i < |ds| && JoinedUpTo(ds, root, i, |ds[i].slots|)
    ensures Justified(ds, root) && Agrees(ds, root, i + 1)
  {}

  /** Every slot of one declaration joins its first slot. */
  method JoinDeclaration(sets: DisjointSets, ds: seq<Declaration>, i: nat)
    requires sets.Valid() && i < |ds| && ds[i].relation.MustAlias? && Known(ds, sets.root.Keys)
    requires Justified(ds, sets.root) && Agrees(ds, sets.root, i)
    modifies sets
    ensures sets.Valid() && sets.root.Keys == old(sets.root.Keys)
    ensures Justified(ds, sets.root) && Agrees(ds, sets.root, i + 1)
  {
    var slots := ds[i].slots;
    for k := 1 to |slots|
      invariant sets.Valid() && sets.root.Keys == old(sets.root.Keys) && JoinedUpTo(ds, sets.root, i, k)
    {
      ghost var before := sets.root;
      sets.Union(slots[0], slots[k]);
      JoinOneMore(ds, before, sets.root, i, k);
    }
    JoinedAll(ds, sets.root, i);
  }
}
