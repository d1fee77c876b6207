/** The dependency closure a schema's liveness check computes with a worklist. */
module Closure {
  type Graph = map<string, set<string>>

  function Dependencies(g: Graph, n: string): set<string> {
    if n in g then g[n] else {}
  }

  /** A path from a root, each name a dependency of the one before it. */
  ghost predicate Path(g: Graph, roots: set<string>, p: seq<string>) {
    && p != [] && p[0] in roots
    && forall i :: 0 <= i < |p| - 1 ==> p[i + 1] in Dependencies(g, p[i])
  }

  ghost predicate Reachable(g: Graph, roots: set<string>, n: string) {
    exists p :: Path(g, roots, p) && p[|p| - 1] == n
  }

  lemma RootIsReachable(g: Graph, roots: set<string>, n: string)
    requires n in roots
    ensures Reachable(g, roots, n)
  {
    assert Path(g, roots, [n]) && [n][|[n]| - 1] == n;
  }

  lemma DependencyIsReachable(g: Graph, roots: set<string>, n: string, d: string)
    requires Reachable(g, roots, n) && d in Dependencies(g, n)
    ensures Reachable(g, roots, d)
  {
    var p :| Path(g, roots, p) && p[|p| - 1] == n;
    var q := p + [d];
    assert Path(g, roots, q) && q[|q| - 1] == d;
  }

  ghost predicate Closed(g: Graph, live: set<string>) {
    forall n, d :: n in live && d in Dependencies(g, n) ==> d in live
  }

  lemma {:induction false} PathStaysInside(g: Graph, roots: set<string>, live: set<string>, p: seq<string>, i: nat)
    requires roots <= live && Closed(g, live) && Path(g, roots, p) && i < |p|
    ensures p[i] in live
  {
    if i > 0 { PathStaysInside(g, roots, live, p, i - 1); }
  }

  lemma ClosedIsReachable(g: Graph, roots: set<string>, live: set<string>)
    requires roots <= live && Closed(g, live)
    requires forall n :: n in live ==> Reachable(g, roots, n)
    ensures forall n :: n in live <==> Reachable(g, roots, n)
  {
    forall n | Reachable(g, roots, n) ensures n in live {
      var p :| Path(g, roots, p) && p[|p| - 1] == n;
      PathStaysInside(g, roots, live, p, |p| - 1);
    }
  }

  /** Every name that is a root or a dependency. */
  ghost function Universe(g: Graph, roots: set<string>): set<string> { roots + set n, d | n in g && d in g[n] :: d }

  lemma GrowingShrinksRest(universe: set<string>, before: set<string>, live: set<string>)
    requires before <= live <= universe
    ensures universe - live <= universe - before
    ensures live != before ==> universe - live < universe - before
  {
    if live != before {
      var x :| x in live && x !in before;
      assert x in universe - before && x !in universe - live;
    }
  }

  /** Names still to visit account for every dependency not yet followed. */
  ghost predicate Frontier(g: Graph, live: set<string>, pending: seq<string>) {
    && (forall n :: n in pending ==> n in live)
    && forall n, d :: n in live && n !in pending && d in Dependencies(g, n) ==> d in live
  }

  lemma FrontierStep(g: Graph, live: set<string>, pending: seq<string>, current: string, live': set<string>,
      pending': seq<string>)
    requires Frontier(g, live, pending + [current])
    requires live' == live + Dependencies(g, current)
    requires forall n :: n in pending' <==> n in pending || (n in live' && n !in live)
    ensures Frontier(g, live', pending')
  {
    forall n, d | n in live' && n !in pending' && d in Dependencies(g, n) ensures d in live' {
      if n != current { assert n !in pending + [current]; }
    }
    assert forall n :: n in pending ==> n in pending + [current];
  }

  /** The worklist returns exactly the reachable names. */
  method TransitiveDependencies(roots: set<string>, g: Graph) returns (live: set<string>)
    ensures forall n :: n in live <==> Reachable(g, roots, n)
  {
    live := roots;
    var pending := SetToSeq(roots);
    forall n | n in live ensures Reachable(g, roots, n) { RootIsReachable(g, roots, n); }
    while pending != []
      invariant roots <= live <= Universe(g, roots)
      invariant forall n :: n in live ==> Reachable(g, roots, n)
      invariant Frontier(g, live, pending)
      decreases Universe(g, roots) - live, |pending|
    {
      ghost var before := live;
      var current := pending[|pending| - 1];
      ghost var rest := pending[..|pending| - 1];
      assert pending == rest + [current];
      assert current in live by { assert current in pending; }
      pending := pending[..|pending| - 1];
      live, pending := Expand(roots, g, live, pending, current);
      FrontierStep(g, before, rest, current, live, pending);
      GrowingShrinksRest(Universe(g, roots), before, live);
    }
    ClosedIsReachable(g, roots, live);
  }

  /** Visit the dependencies of one name, remembering those not seen before. */
  method Expand(ghost roots: set<string>, g: Graph, live: set<string>, pending: seq<string>, current: string)
    returns (live': set<string>, pending': seq<string>)
    requires current in live
    requires forall n :: n in live ==> Reachable(g, roots, n)
    ensures live' == live + Dependencies(g, current)
    ensures forall n :: n in live' ==> Reachable(g, roots, n)
    ensures forall n :: n in pending' <==> n in pending || (n in live' && n !in live)
    ensures live' == live ==> pending' == pending
  {
    live', pending' := live, pending;
    var todo := Dependencies(g, current);
    while todo != {}
      invariant todo <= Dependencies(g, current)
      invariant live' == live + (Dependencies(g, current) - todo)
      invariant forall n :: n in pending' <==> n in pending || (n in live' && n !in live)
      invariant live' == live ==> pending' == pending
      decreases todo
    {
      var d :| d in todo;
      todo := todo - {d};
      if d !in live' {
        live' := live' + {d};
        pending' := pending' + [d];
      }
    }
    forall n | n in live' ensures Reachable(g, roots, n) {
      if n !in live { DependencyIsReachable(g, roots, current, n); }
    }
  }

  method SetToSeq(s: set<string>) returns (l: seq<string>)
    ensures forall x :: x in l <==> x in s
  {
    l := [];
    var rest := s;
    while rest != {}
      invariant rest <= s && forall x :: x in l <==> x in s - rest
      decreases rest
    {
      var x :| x in rest;
      rest := rest - {x};
      l := l + [x];
    }
  }
}
