/** All orderings of a list of distinct positions, and the rearrangements they induce. */
module Permutations {
  import opened Sorting

  predicate Distinct<T(==)>(s: seq<T>) { forall i, j :: 0 <= i < j < |s| ==> s[i] != s[j] }

  function Range(n: nat): (r: seq<nat>)
    ensures |r| == n && forall i :: 0 <= i < n ==> r[i] == i
  {
    seq(n, i requires 0 <= i < n => i)
  }

  /** `p` sends each of `n` places to a different index below `n`. */
  predicate IsPermutation(p: seq<nat>, n: nat) { |p| == n && Distinct(p) && forall i :: 0 <= i < n ==> p[i] < n }

  /** The elements of `s` at the indices `p`. */
  function Pick<T>(s: seq<T>, p: seq<nat>): (r: seq<T>)
    requires forall i :: 0 <= i < |p| ==> p[i] < |s|
    ensures |r| == |p| && forall i :: 0 <= i < |p| ==> r[i] == s[p[i]]
  {
    seq(|p|, i requires 0 <= i < |p| => s[p[i]])
  }

  // ---- enumeration ----

  function PrependAll(x: nat, ps: seq<seq<nat>>): (r: seq<seq<nat>>)
    ensures |r| == |ps| && forall i :: 0 <= i < |ps| ==> r[i] == [x] + ps[i]
  {
    seq(|ps|, i requires 0 <= i < |ps| => [x] + ps[i])
  }

  /** Orderings of `items` that start with one of its elements from position `k` on, in lexicographic order of
      positions. */
  function OrderingsFrom(items: seq<nat>, k: nat): seq<seq<nat>>
    requires k <= |items|
    decreases |items|, |items| - k
  {
    if k == |items| then [] else PrependAll(items[k], Orderings(Without(items, k))) + OrderingsFrom(items, k + 1)
  }

  function Orderings(items: seq<nat>): seq<seq<nat>>
    decreases |items|, |items| + 1
  {
    if items == [] then [[]] else OrderingsFrom(items, 0)
  }

  /** `p` lists the same elements as `items`, each once. */
  ghost predicate Rearranges(p: seq<nat>, items: seq<nat>) {
    |p| == |items| && Distinct(p) && forall x :: x in p <==> x in items
  }

  lemma WithoutMembers(items: seq<nat>, k: nat)
    requires Distinct(items) && k < |items|
    ensures Distinct(Without(items, k)) && forall x :: x in Without(items, k) <==> x in items && x != items[k]
  {
    var rest := Without(items, k);
    forall x | x in items && x != items[k] ensures x in rest {
      var i :| 0 <= i < |items| && items[i] == x;
      assert rest[if i < k then i else i - 1] == x;
    }
    forall x | x in rest ensures x in items && x != items[k] {
      var i :| 0 <= i < |rest| && rest[i] == x;
      assert items[if i < k then i else i + 1] == x;
    }
    forall i, j | 0 <= i < j < |rest| ensures rest[i] != rest[j] {
      assert rest[i] == items[if i < k then i else i + 1] && rest[j] == items[if j < k then j else j + 1];
    }
  }

  lemma RearrangesTail(p: seq<nat>, items: seq<nat>, k: nat)
    requires Distinct(items) && k < |items| && |p| == |items| && p[0] == items[k]
    ensures Rearranges(p, items) <==> Rearranges(p[1..], Without(items, k))
  {
    WithoutMembers(items, k);
    var q, rest := p[1..], Without(items, k);
    assert p == [p[0]] + q;
    if Rearranges(p, items) {
      forall x ensures x in q <==> x in rest {
        if x in q {
          var i :| 0 <= i < |q| && q[i] == x;
          assert p[i + 1] == x && p[0] != p[i + 1];
          assert x in p;
        }
        if x in rest { assert x in p && x != p[0]; }
      }
    }
    if Rearranges(q, rest) {
      assert forall i :: 0 <= i < |q| ==> q[i] in rest;
      forall i, j | 0 <= i < j < |p| ensures p[i] != p[j] {
        if i == 0 { assert q[j - 1] in rest; } else { assert q[i - 1] != q[j - 1]; }
      }
      forall x ensures x in p <==> x in items { assert x in p <==> x == p[0] || x in q; }
    }
  }

  lemma {:induction false} InOrderingsFrom(items: seq<nat>, k: nat, p: seq<nat>)
    requires Distinct(items) && k <= |items|
    ensures p in OrderingsFrom(items, k) <==> Rearranges(p, items) && exists i :: k <= i < |items| && p[0] == items[i]
    decreases |items|, |items| - k
  {
    if k < |items| {
      InOrderingsFrom(items, k + 1, p);
      WithoutMembers(items, k);
      var head := PrependAll(items[k], Orderings(Without(items, k)));
      if p in head {
        var i :| 0 <= i < |head| && head[i] == p;
        assert p[1..] == Orderings(Without(items, k))[i];
        InOrderings(Without(items, k), p[1..]);
        RearrangesTail(p, items, k);
      }
      if Rearranges(p, items) && p[0] == items[k] {
        RearrangesTail(p, items, k);
        InOrderings(Without(items, k), p[1..]);
        var i :| 0 <= i < |Orderings(Without(items, k))| && Orderings(Without(items, k))[i] == p[1..];
        assert head[i] == p;
      }
    }
  }

  /** Exactly the rearrangements are listed. */
  lemma {:induction false} InOrderings(items: seq<nat>, p: seq<nat>)
    requires Distinct(items)
    ensures p in Orderings(items) <==> Rearranges(p, items)
    decreases |items|, |items| + 1
  {
    if items != [] {
      InOrderingsFrom(items, 0, p);
      if Rearranges(p, items) {
        assert p[0] in items;
      }
    } else if Rearranges(p, items) {
      assert p == [];
    }
  }

  lemma {:induction false} OrderingsFromDistinct(items: seq<nat>, k: nat)
    requires Distinct(items) && k <= |items|
    ensures Distinct(OrderingsFrom(items, k))
    decreases |items|, |items| - k
  {
    if k < |items| {
      WithoutMembers(items, k);
      OrderingsDistinct(Without(items, k));
      OrderingsFromDistinct(items, k + 1);
      var inner := Orderings(Without(items, k));
      var head, tail := PrependAll(items[k], inner), OrderingsFrom(items, k + 1);
      forall i, j | 0 <= i < j < |head| ensures head[i] != head[j] {
        assert inner[i] != inner[j] && head[i][1..] == inner[i] && head[j][1..] == inner[j];
      }
      forall j | 0 <= j < |tail| ensures tail[j] !in head {
        InOrderingsFrom(items, k + 1, tail[j]);
        assert tail[j] in tail;
        assert tail[j][0] != items[k];
      }
    }
  }

  /** None is listed twice. */
  lemma {:induction false} OrderingsDistinct(items: seq<nat>)
    requires Distinct(items)
    ensures Distinct(Orderings(items))
    decreases |items|, |items| + 1
  {
    if items != [] { OrderingsFromDistinct(items, 0); }
  }

  // ---- permutations of 0 .. n - 1 ----

  function Members(s: seq<nat>): set<nat> { set x | x in s }

  lemma {:induction false} DistinctSize(s: seq<nat>)
    requires Distinct(s)
    ensures |Members(s)| == |s|
  {
    if s != [] {
      var front, last := s[..|s| - 1], s[|s| - 1];
      DistinctSize(front);
      assert last !in front;
      assert s == front + [last];
      assert Members(s) == Members(front) + {last};
    }
  }

  lemma {:induction false} SubsetSize(a: set<nat>, b: set<nat>)
    requires a <= b
    ensures |a| <= |b| && (|a| == |b| ==> a == b)
    decreases a
  {
    if x :| x in a { SubsetSize(a - {x}, b - {x}); }
  }

  /** `n` different indices below `n` leave none out. */
  lemma PermutationCovers(p: seq<nat>, n: nat)
    requires IsPermutation(p, n)
    ensures forall x: nat :: x in p <==> x < n
  {
    DistinctSize(p);
    DistinctSize(Range(n));
    forall x: nat ensures x in Members(Range(n)) <==> x < n {
      if x < n { assert Range(n)[x] == x; }
    }
    SubsetSize(Members(p), Members(Range(n)));
    forall x: nat ensures x in p <==> x < n {
      assert x in Members(p) <==> x in Members(Range(n));
    }
  }

  lemma PermutationIff(p: seq<nat>, n: nat)
    ensures IsPermutation(p, n) <==> p in Orderings(Range(n))
  {
    InOrderings(Range(n), p);
    forall x: nat ensures x in Range(n) <==> x < n {
      if x < n { assert Range(n)[x] == x; }
    }
    if IsPermutation(p, n) { PermutationCovers(p, n); }
    if Rearranges(p, Range(n)) { assert forall i :: 0 <= i < n ==> p[i] in Range(n); }
  }

  // ---- rearranging values ----

  predicate Inside(p: seq<nat>, n: nat) { forall i :: 0 <= i < |p| ==> p[i] < n }

  lemma PickFirst<T>(values: seq<T>, p: seq<nat>)
    requires p != [] && Inside(p, |values|)
    ensures Inside(p[1..], |values|) && Pick(values, p) == [values[p[0]]] + Pick(values, p[1..])
  {}

  lemma PickWithout<T>(values: seq<T>, items: seq<nat>, k: nat)
    requires k < |items| && Inside(items, |values|)
    ensures Inside(Without(items, k), |values|)
    ensures multiset(Pick(values, Without(items, k))) == multiset(Pick(values, items)) - multiset{values[items[k]]}
  {
    assert Pick(values, Without(items, k)) == Without(Pick(values, items), k);
    WithoutOne(Pick(values, items), k);
  }

  lemma {:induction false} OrderingKeepsValues<T>(values: seq<T>, items: seq<nat>, p: seq<nat>)
    requires Distinct(items) && Rearranges(p, items) && Inside(items, |values|)
    ensures Inside(p, |values|) && multiset(Pick(values, p)) == multiset(Pick(values, items))
    decreases |items|
  {
    forall i | 0 <= i < |p| ensures p[i] < |values| { assert p[i] in items; }
    if items == [] {
      assert p == [];
    } else {
      var k := PositionOf(p[0], p, items);
      RearrangesTail(p, items, k);
      WithoutMembers(items, k);
      PickFirst(values, p);
      PickWithout(values, items, k);
      OrderingKeepsValues(values, Without(items, k), p[1..]);
      assert values[items[k]] in multiset(Pick(values, items)) by { assert Pick(values, items)[k] == values[items[k]]; }
    }
  }

  lemma PositionOf(x: nat, p: seq<nat>, items: seq<nat>) returns (k: nat)
    requires Rearranges(p, items) && x in p
    ensures k < |items| && items[k] == x
  {
    k :| 0 <= k < |items| && items[k] == x;
  }

  /** A permutation rearranges values. */
  lemma PermutationKeepsValues<T>(values: seq<T>, p: seq<nat>)
    requires IsPermutation(p, |values|)
    ensures multiset(Pick(values, p)) == multiset(values)
  {
    PermutationIff(p, |values|);
    InOrderings(Range(|values|), p);
    OrderingKeepsValues(values, Range(|values|), p);
    assert Pick(values, Range(|values|)) == values;
  }

  lemma FindValue<T>(values: seq<T>, items: seq<nat>, want: seq<T>) returns (k: nat)
    requires Inside(items, |values|) && want != [] && multiset(want) == multiset(Pick(values, items))
    ensures k < |items| && values[items[k]] == want[0]
  {
    assert want[0] in multiset(want);
    k :| 0 <= k < |items| && Pick(values, items)[k] == want[0];
  }

  lemma {:induction false} OrderingFor<T>(values: seq<T>, items: seq<nat>, want: seq<T>) returns (p: seq<nat>)
    requires Distinct(items) && Inside(items, |values|) && multiset(want) == multiset(Pick(values, items))
    ensures Rearranges(p, items) && Inside(p, |values|) && Pick(values, p) == want
    decreases |items|
  {
    assert |want| == |multiset(want)| && |items| == |multiset(Pick(values, items))|;
    if items == [] {
      p := [];
    } else {
      var k := FindValue(values, items, want);
      WithoutMembers(items, k);
      PickWithout(values, items, k);
      WithoutOne(want, 0);
      assert Without(want, 0) == want[1..];
      var q := OrderingFor(values, Without(items, k), want[1..]);
      p := [items[k]] + q;
      ConsOrdering(values, items, k, q, want);
    }
  }

  lemma ConsOrdering<T>(values: seq<T>, items: seq<nat>, k: nat, q: seq<nat>, want: seq<T>)
    requires Distinct(items) && Inside(items, |values|) && k < |items| && want != [] && values[items[k]] == want[0]
    requires Rearranges(q, Without(items, k)) && Inside(q, |values|) && Pick(values, q) == want[1..]
    ensures var p := [items[k]] + q; Rearranges(p, items) && Inside(p, |values|) && Pick(values, p) == want
  {
    var p := [items[k]] + q;
    assert p[1..] == q;
    RearrangesTail(p, items, k);
    PickFirst(values, p);
  }

  /** Any rearrangement of values comes from a permutation. */
  lemma PermutationFor<T>(values: seq<T>, want: seq<T>) returns (p: seq<nat>)
    requires multiset(want) == multiset(values)
    ensures IsPermutation(p, |values|) && Pick(values, p) == want
  {
    assert Pick(values, Range(|values|)) == values;
    p := OrderingFor(values, Range(|values|), want);
    InOrderings(Range(|values|), p);
    PermutationIff(p, |values|);
  }
}
