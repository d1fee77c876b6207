/** A stable sort by an ordering relation, as the library sort is used by the memory checks. */
module Sorting {
  ghost predicate TotalPreorder<T(!new)>(le: (T, T) -> bool) {
    && (forall x, y :: le(x, y) || le(y, x))
    && (forall x, y, z :: le(x, y) && le(y, z) ==> le(x, z))
  }

  /** Insert after every element that may come before `x`, so equal elements keep their order. */
  function Insert<T>(x: T, s: seq<T>, le: (T, T) -> bool): seq<T> {
    if s == [] || le(s[|s| - 1], x) then s + [x]
    else Insert(x, s[..|s| - 1], le) + [s[|s| - 1]]
  }

  function Sort<T>(s: seq<T>, le: (T, T) -> bool): seq<T> {
    if s == [] then [] else Insert(s[|s| - 1], Sort(s[..|s| - 1], le), le)
  }

  ghost predicate Sorted<T>(s: seq<T>, le: (T, T) -> bool) {
    forall i, j :: 0 <= i < j < |s| ==> le(s[i], s[j])
  }

  lemma {:induction false} InsertKeeps<T>(x: T, s: seq<T>, le: (T, T) -> bool)
    ensures multiset(Insert(x, s, le)) == multiset(s) + multiset{x}
    ensures |Insert(x, s, le)| == |s| + 1
  {
    if s != [] && !le(s[|s| - 1], x) {
      InsertKeeps(x, s[..|s| - 1], le);
      assert s == s[..|s| - 1] + [s[|s| - 1]];
    }
  }

  lemma {:induction false} InsertSorted<T(!new)>(x: T, s: seq<T>, le: (T, T) -> bool)
    requires TotalPreorder(le) && Sorted(s, le)
    ensures Sorted(Insert(x, s, le), le)
  {
    if s != [] {
      var front, last := s[..|s| - 1], s[|s| - 1];
      if !le(last, x) {
        InsertSorted(x, front, le);
        InsertKeeps(x, front, le);
        var t := Insert(x, front, le);
        forall i | 0 <= i < |t| ensures le(t[i], last) {
          assert t[i] in multiset(t);
          assert t[i] in multiset(front) || t[i] == x;
          if t[i] in multiset(front) { var k :| 0 <= k < |front| && front[k] == t[i]; assert le(s[k], s[|s| - 1]); }
        }
      } else {
        forall i | 0 <= i < |s| ensures le(s[i], x) { assert i == |s| - 1 || le(s[i], last); }
      }
    }
  }

  /** The sorted sequence is an ordered rearrangement. */
  lemma {:induction false} SortSorts<T(!new)>(s: seq<T>, le: (T, T) -> bool)
    requires TotalPreorder(le)
    ensures Sorted(Sort(s, le), le) && multiset(Sort(s, le)) == multiset(s) && |Sort(s, le)| == |s|
  {
    if s != [] {
      SortSorts(s[..|s| - 1], le);
      InsertKeeps(s[|s| - 1], Sort(s[..|s| - 1], le), le);
      InsertSorted(s[|s| - 1], Sort(s[..|s| - 1], le), le);
      assert s == s[..|s| - 1] + [s[|s| - 1]];
    }
  }

  // ---- adjacent and pairwise separation ----

  predicate Apart<T>(x: T, y: T, start: T -> int, end: T -> int) { end(x) <= start(y) || end(y) <= start(x) }

  ghost predicate PairwiseApart<T>(s: seq<T>, start: T -> int, end: T -> int) {
    forall i, j :: 0 <= i < j < |s| ==> Apart(s[i], s[j], start, end)
  }

  predicate AdjacentApart<T>(s: seq<T>, start: T -> int, end: T -> int) {
    forall i :: 0 <= i < |s| - 1 ==> end(s[i]) <= start(s[i + 1])
  }

  function Without<T>(s: seq<T>, i: nat): seq<T>
    requires i < |s|
  {
    s[..i] + s[i + 1..]
  }

  lemma WithoutOne<T>(s: seq<T>, i: nat)
    requires i < |s|
    ensures multiset(Without(s, i)) == multiset(s) - multiset{s[i]}
  {
    assert s == s[..i] + [s[i]] + s[i + 1..];
  }

  /** Two distinct positions of one sequence are two distinct positions of any rearrangement. */
  lemma PairFound<T>(s: seq<T>, t: seq<T>, i: nat, j: nat) returns (p: nat, q: nat)
    requires multiset(s) == multiset(t) && i < j < |s|
    ensures p < |t| && q < |t| && p != q && t[p] == s[i] && t[q] == s[j]
  {
    assert s[i] in multiset(t) by { assert s[i] in multiset(s); }
    p :| 0 <= p < |t| && t[p] == s[i];
    WithoutOne(s, i);
    WithoutOne(t, p);
    var rest := Without(t, p);
    assert s[j] in multiset(rest) by { assert Without(s, i)[j - 1] == s[j]; }
    var k :| 0 <= k < |rest| && rest[k] == s[j];
    q := if k < p then k else k + 1;
  }

  lemma {:induction false} AdjacentChain<T>(t: seq<T>, start: T -> int, end: T -> int, i: nat, j: nat)
    requires AdjacentApart(t, start, end) && i < j < |t|
    requires forall k :: 0 <= k < |t| ==> start(t[k]) < end(t[k])
    ensures end(t[i]) <= start(t[j])
    decreases j
  {
    if i < j - 1 {
      AdjacentChain(t, start, end, i, j - 1);
      assert end(t[j - 1]) <= start(t[j - 1 + 1]);
    } else {
      assert end(t[i]) <= start(t[i + 1]);
    }
  }

  /** Once ranges are sorted by start, comparing neighbours decides whether any two of them overlap. */
  lemma AdjacentIffPairwise<T>(s: seq<T>, t: seq<T>, start: T -> int, end: T -> int)
    requires multiset(s) == multiset(t)
    requires forall i, j :: 0 <= i < j < |t| ==> start(t[i]) <= start(t[j])
    requires forall x :: x in s ==> start(x) < end(x)
    ensures AdjacentApart(t, start, end) <==> PairwiseApart(s, start, end)
  {
    forall k | 0 <= k < |t| ensures start(t[k]) < end(t[k]) { assert t[k] in multiset(s); }
    if AdjacentApart(t, start, end) {
      forall i, j | 0 <= i < j < |s| ensures Apart(s[i], s[j], start, end) {
        var p, q := PairFound(s, t, i, j);
        if p < q { AdjacentChain(t, start, end, p, q); } else { AdjacentChain(t, start, end, q, p); }
      }
    }
    if PairwiseApart(s, start, end) {
      forall i | 0 <= i < |t| - 1 ensures end(t[i]) <= start(t[i + 1]) {
        var p, q := PairFound(t, s, i, i + 1);
        assert Apart(s[p], s[q], start, end) || Apart(s[q], s[p], start, end) by {
          if p < q { assert Apart(s[p], s[q], start, end); } else { assert Apart(s[q], s[p], start, end); }
        }
        assert start(t[i]) <= start(t[i + 1]);
      }
    }
  }
}
