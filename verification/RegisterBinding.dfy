/** Candidate register bindings and the exhaustive search that asks the verifier about each. */
module RegisterBinding {
  import opened Wrappers
  import opened Numerals
  import opened Sorting
  import opened Permutations

  type Pairs = seq<(string, string)>

  /** Guest-to-host pairs for a window's inputs and outputs. */
  datatype Proposal = Proposal(inputs: Pairs, outputs: Pairs)

  datatype Status = Equivalent | Failed | Unsupported | Error

  datatype Result = Bound(proposal: Proposal) | Unsat | Fallback(detail: string)

  datatype Problem = Problem(sameKind: bool, guestIn: seq<string>, hostIn: seq<string>, guestOut: seq<string>,
      hostOut: seq<string>,
                             guestWidth: string -> Option<nat>, hostWidth: string -> Option<nat>,
                             guestFixedRole: string -> bool, hostFixedRole: string -> bool, fixedPairs: Pairs)

  // ---- widths ----

  function WidthsOf(regs: seq<string>, width: string -> Option<nat>): Option<seq<nat>> {
    if exists i :: 0 <= i < |regs| && width(regs[i]).None? then None
    else Some(seq(|regs|, i requires 0 <= i < |regs| => if width(regs[i]).Some? then width(regs[i]).value else 0))
  }

  method RegisterWidths(regs: seq<string>, width: string -> Option<nat>) returns (widths: Option<seq<nat>>)
    ensures widths == WidthsOf(regs, width)
  {
    var found: seq<nat> := [];
    for i := 0 to |regs|
      invariant |found| == i && forall k :: 0 <= k < i ==> width(regs[k]) == Some(found[k])
    {
      var w := width(regs[i]);
      if w.None? { return None; }
      found := found + [w.value];
    }
    widths := Some(found);
    assert widths.value == WidthsOf(regs, width).value;
  }

  predicate NatLe(a: nat, b: nat) { a <= b }

  function WidthDomainsExist(guest: seq<nat>, host: seq<nat>): bool { Sort(guest, NatLe) == Sort(host, NatLe) }

  predicate Ascending(s: seq<nat>) { forall i, j :: 0 <= i < j < |s| ==> s[i] <= s[j] }

  /** Only one ascending sequence has given elements. */
  lemma {:induction false} SortedUnique(s: seq<nat>, t: seq<nat>)
    requires multiset(s) == multiset(t) && |s| == |t| && Ascending(s) && Ascending(t)
    ensures s == t
    decreases |s|
  {
    if s != [] {
      LastsEqual(s, t);
      SortedUnique(s[..|s| - 1], t[..|t| - 1]);
      assert s == s[..|s| - 1] + [s[|s| - 1]] && t == t[..|t| - 1] + [t[|t| - 1]];
    }
  }

  lemma LastsEqual(s: seq<nat>, t: seq<nat>)
    requires multiset(s) == multiset(t) && |s| == |t| > 0 && Ascending(s) && Ascending(t)
    ensures s[|s| - 1] == t[|t| - 1] && multiset(s[..|s| - 1]) == multiset(t[..|t| - 1])
    ensures Ascending(s[..|s| - 1]) && Ascending(t[..|t| - 1])
  {
    LastIsGreatest(s, t);
    LastIsGreatest(t, s);
    DropLast(s);
    DropLast(t);
  }

  lemma DropLast(s: seq<nat>)
    requires s != []
    ensures multiset(s[..|s| - 1]) == multiset(s) - multiset{s[|s| - 1]}
  {
    WithoutOne(s, |s| - 1);
    assert Without(s, |s| - 1) == s[..|s| - 1];
  }

  lemma LastIsGreatest(s: seq<nat>, t: seq<nat>)
    requires multiset(s) == multiset(t) && |s| == |t| > 0 && Ascending(t)
    ensures s[|s| - 1] <= t[|t| - 1]
  {
    assert s[|s| - 1] in multiset(t) by { assert s[|s| - 1] in multiset(s); }
    var k :| 0 <= k < |t| && t[k] == s[|s| - 1];
  }

  lemma NatOrder()
    ensures TotalPreorder(NatLe)
  {}

  lemma SortedNats(s: seq<nat>)
    ensures multiset(Sort(s, NatLe)) == multiset(s) && |Sort(s, NatLe)| == |s|
    ensures Ascending(Sort(s, NatLe))
  {
    NatOrder();
    SortSorts(s, NatLe);
    var t := Sort(s, NatLe);
    forall i, j | 0 <= i < j < |t| ensures t[i] <= t[j] { assert NatLe(t[i], t[j]); }
  }

  /** The sorted widths agree exactly when some bijection preserves widths. */
  lemma WidthDomainsIffBijection(guest: seq<nat>, host: seq<nat>)
    ensures WidthDomainsExist(guest, host) <==> exists p :: Preserves(p, guest, host)
  {
    SortedNats(guest);
    SortedNats(host);
    if WidthDomainsExist(guest, host) {
      var p := PermutationFor(guest, host);
      assert |guest| == |multiset(guest)| && |host| == |multiset(host)|;
      assert Preserves(p, guest, host);
    }
    if p :| Preserves(p, guest, host) {
      PermutationKeepsValues(guest, p);
      SortedUnique(Sort(guest, NatLe), Sort(host, NatLe));
    }
  }

  /** `p` maps every host place to a guest index of its width, and is one to one. */
  predicate Preserves(p: seq<nat>, guest: seq<nat>, host: seq<nat>) {
    IsPermutation(p, |guest|) && |host| == |guest| && Pick(guest, p) == host
  }

  // ---- options ----

  /** The pairs a permutation stands for. */
  function Named(guest: seq<string>, host: seq<string>, p: seq<nat>): (r: Pairs)
    requires |p| == |host| && Inside(p, |guest|)
    ensures |r| == |host| && forall i :: 0 <= i < |host| ==> r[i] == (guest[p[i]], host[i])
  {
    seq(|host|, i requires 0 <= i < |host| => (guest[p[i]], host[i]))
  }

  lemma NamedInjective(guest: seq<string>, host: seq<string>, p: seq<nat>, q: seq<nat>)
    requires |p| == |host| == |q| && Inside(p, |guest|) && Inside(q, |guest|) && Distinct(guest)
    requires Named(guest, host, p) == Named(guest, host, q)
    ensures p == q
  {
    forall i | 0 <= i < |p| ensures p[i] == q[i] {
      assert Named(guest, host, p)[i] == Named(guest, host, q)[i];
    }
  }

  /** `options` lists the width-preserving bijections `orders`, all of them and each once. */
  ghost predicate ListsBijections(options: seq<Pairs>, orders: seq<seq<nat>>, guest: seq<string>, host: seq<string>,
      gw: seq<nat>, hw: seq<nat>)
  {
    && |gw| == |guest| && |hw| == |host| && |options| == |orders| && Distinct(orders)
    && (forall p :: p in orders <==> Preserves(p, gw, hw))
    && forall i :: 0 <= i < |orders| ==>
         |orders[i]| == |host| && Inside(orders[i], |guest|) && options[i] == Named(guest, host, orders[i])
  }

  /** The bijections among the first `k` orderings. */
  ghost predicate ListedSoFar(all: seq<seq<nat>>, k: nat, orders: seq<seq<nat>>, gw: seq<nat>, hw: seq<nat>) {
    && k <= |all| && Distinct(orders) && forall p :: p in orders <==> p in all[..k] && Preserves(p, gw, hw)
  }

  lemma ListOneMore(all: seq<seq<nat>>, k: nat, orders: seq<seq<nat>>, gw: seq<nat>, hw: seq<nat>)
    requires ListedSoFar(all, k, orders, gw, hw) && k < |all| && Distinct(all)
    ensures ListedSoFar(all, k + 1, if Preserves(all[k], gw, hw) then orders + [all[k]] else orders, gw, hw)
  {
    assert all[..k + 1] == all[..k] + [all[k]];
    assert all[k] !in all[..k];
  }

  method BindingOptions(guest: seq<string>, host: seq<string>, guestWidth: string -> Option<nat>,
      hostWidth: string -> Option<nat>)
    returns (options: Option<seq<Pairs>>, ghost orders: seq<seq<nat>>)
    ensures options.Some? <==> WidthsOf(guest, guestWidth).Some? && WidthsOf(host, hostWidth).Some?
                               && WidthDomainsExist(WidthsOf(guest, guestWidth).value, WidthsOf(host, hostWidth).value)
    ensures options.Some? ==> ListsBijections(options.value, orders, guest, host, WidthsOf(guest, guestWidth).value,
            WidthsOf(host, hostWidth).value)
  {
    orders := [];
    var gws := RegisterWidths(guest, guestWidth);
    var hws := RegisterWidths(host, hostWidth);
    if gws.Some? && hws.Some? { WidthDomainsIffBijection(gws.value, hws.value); }
    if |guest| != |host| { return None, orders; }
    if gws.None? || hws.None? { return None, orders; }
    var found;
    found, orders := MatchingOrders(guest, host, gws.value, hws.value);
    if found == [] {
      NoneListed(orders, gws.value, hws.value);
      return None, orders;
    }
    assert orders[0] in orders;
    options := Some(found);
  }

  lemma NoneListed(orders: seq<seq<nat>>, gw: seq<nat>, hw: seq<nat>)
    requires orders == [] && forall p :: p in orders <==> Preserves(p, gw, hw)
    ensures !exists p :: Preserves(p, gw, hw)
  {
    forall p ensures !Preserves(p, gw, hw) { assert p !in orders; }
  }

  /** Go through all orderings of the guest registers and keep those whose widths match. */
  method MatchingOrders(guest: seq<string>, host: seq<string>, gw: seq<nat>, hw: seq<nat>)
    returns (found: seq<Pairs>, ghost orders: seq<seq<nat>>)
    requires |gw| == |guest| == |host| == |hw|
    ensures ListsBijections(found, orders, guest, host, gw, hw)
  {
    var all := Orderings(Range(|guest|));
    OrderingsDistinct(Range(|guest|));
    found, orders := [], [];
    for k := 0 to |all|
      invariant ListedSoFar(all, k, orders, gw, hw) && |found| == |orders|
      invariant forall i :: 0 <= i < |orders| ==>
                |orders[i]| == |host| && Inside(orders[i], |guest|) && found[i] == Named(guest, host, orders[i])
    {
      assert all[k] in all;
      PermutationIff(all[k], |guest|);
      ListOneMore(all, k, orders, gw, hw);
      if forall i :: 0 <= i < |host| ==> gw[all[k][i]] == hw[i] {
        assert Pick(gw, all[k]) == hw;
        found := found + [Named(guest, host, all[k])];
        orders := orders + [all[k]];
      }
    }
    AllListed(all, orders, gw, hw);
  }

  lemma AllListed(all: seq<seq<nat>>, orders: seq<seq<nat>>, gw: seq<nat>, hw: seq<nat>)
    requires all == Orderings(Range(|gw|)) && ListedSoFar(all, |all|, orders, gw, hw)
    ensures forall p :: p in orders <==> Preserves(p, gw, hw)
  {
    assert all[..|all|] == all;
    forall p ensures p in orders <==> Preserves(p, gw, hw) { PermutationIff(p, |gw|); }
  }

  /** With distinct register names, no option is listed twice. */
  lemma OptionsListedOnce(options: seq<Pairs>, orders: seq<seq<nat>>, guest: seq<string>, host: seq<string>,
      gw: seq<nat>, hw: seq<nat>)
    requires ListsBijections(options, orders, guest, host, gw, hw) && Distinct(guest)
    ensures Distinct(options)
  {
    forall i, j | 0 <= i < j < |options| ensures options[i] != options[j] {
      if options[i] == options[j] { NamedInjective(guest, host, orders[i], orders[j]); }
    }
  }

  // ---- fixed pairs ----

  predicate DistinctNames(pairs: Pairs) {
    forall i, j :: 0 <= i < j < |pairs| ==> pairs[i].0 != pairs[j].0 && pairs[i].1 != pairs[j].1
  }

  /** No pair relates a fixed register to anything but its partner. */
  predicate Respects(pairs: Pairs, fixed: Pairs) {
    forall f, p :: f in fixed && p in pairs ==> (p.0 == f.0 <==> p.1 == f.1)
  }

  function ByGuest(pairs: Pairs): map<string, string> {
    if pairs == [] then map[] else ByGuest(pairs[..|pairs| - 1])[pairs[|pairs| - 1].0 := pairs[|pairs| - 1].1]
  }

  function ByHost(pairs: Pairs): map<string, string> {
    if pairs == [] then map[] else ByHost(pairs[..|pairs| - 1])[pairs[|pairs| - 1].1 := pairs[|pairs| - 1].0]
  }

  /** The pair at `i` is the last one naming its guest register, so it is the one a dictionary keeps. */
  predicate LastGuest(pairs: Pairs, i: nat)
    requires i < |pairs|
  {
    forall j :: i < j < |pairs| ==> pairs[j].0 != pairs[i].0
  }

  predicate LastHost(pairs: Pairs, i: nat)
    requires i < |pairs|
  {
    forall j :: i < j < |pairs| ==> pairs[j].1 != pairs[i].1
  }

  /** The last pair naming the guest register of `f` gives it the partner `f` does. */
  predicate KeepsGuest(pairs: Pairs, f: (string, string)) {
    forall i :: 0 <= i < |pairs| && pairs[i].0 == f.0 && LastGuest(pairs, i) ==> pairs[i].1 == f.1
  }

  predicate KeepsHost(pairs: Pairs, f: (string, string)) {
    forall i :: 0 <= i < |pairs| && pairs[i].1 == f.1 && LastHost(pairs, i) ==> pairs[i].0 == f.0
  }

  /** Every fixed pair is kept by the last pairs naming its registers. */
  predicate KeepsAll(pairs: Pairs, fixed: Pairs) {
    forall i :: 0 <= i < |fixed| ==> KeepsGuest(pairs, fixed[i]) && KeepsHost(pairs, fixed[i])
  }

  lemma {:induction false} GuestLookup(pairs: Pairs, f: (string, string))
    ensures (f.0 in ByGuest(pairs) ==> ByGuest(pairs)[f.0] == f.1) <==> KeepsGuest(pairs, f)
  {
    if pairs != [] {
      var n := |pairs| - 1;
      var front := pairs[..n];
      GuestLookup(front, f);
      assert LastGuest(pairs, n);
      if pairs[n].0 != f.0 {
        forall i | 0 <= i < n && pairs[i].0 == f.0 ensures LastGuest(pairs, i) <==> LastGuest(front, i) {
          assert forall j :: i < j < n ==> pairs[j] == front[j];
        }
        assert forall i :: 0 <= i < n ==> pairs[i] == front[i];
      }
    }
  }

  lemma {:induction false} HostLookup(pairs: Pairs, f: (string, string))
    ensures (f.1 in ByHost(pairs) ==> ByHost(pairs)[f.1] == f.0) <==> KeepsHost(pairs, f)
  {
    if pairs != [] {
      var n := |pairs| - 1;
      var front := pairs[..n];
      HostLookup(front, f);
      assert LastHost(pairs, n);
      if pairs[n].1 != f.1 {
        forall i | 0 <= i < n && pairs[i].1 == f.1 ensures LastHost(pairs, i) <==> LastHost(front, i) {
          assert forall j :: i < j < n ==> pairs[j] == front[j];
        }
        assert forall i :: 0 <= i < n ==> pairs[i] == front[i];
      }
    }
  }

  /** Where a register is paired more than once, only its last pair is looked at. */
  method RespectsFixedPairs(pairs: Pairs, fixed: Pairs) returns (ok: bool)
    ensures ok <==> KeepsAll(pairs, fixed)
  {
    var byGuest, byHost := ByGuest(pairs), ByHost(pairs);
    for i := 0 to |fixed|
      invariant forall k :: 0 <= k < i ==> KeepsGuest(pairs, fixed[k]) && KeepsHost(pairs, fixed[k])
    {
      var (guest, host) := fixed[i];
      GuestLookup(pairs, fixed[i]);
      HostLookup(pairs, fixed[i]);
      if (guest in byGuest && byGuest[guest] != host) || (host in byHost && byHost[host] != guest) { return false; }
    }
    ok := true;
  }

  lemma OnceKept(pairs: Pairs, f: (string, string))
    requires DistinctNames(pairs)
    ensures KeepsGuest(pairs, f) && KeepsHost(pairs, f) <==> forall p :: p in pairs ==> (p.0 == f.0 <==> p.1 == f.1)
  {
    assert forall i :: 0 <= i < |pairs| ==> LastGuest(pairs, i) && LastHost(pairs, i) && pairs[i] in pairs;
  }

  /** When no register is paired twice, respecting is relating no fixed register to anything but its partner. */
  lemma OncePaired(pairs: Pairs, fixed: Pairs)
    requires DistinctNames(pairs)
    ensures KeepsAll(pairs, fixed) <==> Respects(pairs, fixed)
  {
    forall i | 0 <= i < |fixed|
      ensures KeepsGuest(pairs, fixed[i]) && KeepsHost(pairs, fixed[i])
              <==> forall p :: p in pairs ==> (p.0 == fixed[i].0 <==> p.1 == fixed[i].1)
    {
      OnceKept(pairs, fixed[i]);
    }
  }

  // ---- eligibility ----

  const MAX_SURFACE_REGISTERS: nat := 4

  predicate SameWidths(p: Problem) {
    && WidthsOf(p.guestIn, p.guestWidth).Some? && WidthsOf(p.hostIn, p.hostWidth).Some?
    && WidthsOf(p.guestOut, p.guestWidth).Some? && WidthsOf(p.hostOut, p.hostWidth).Some?
    && WidthDomainsExist(WidthsOf(p.guestIn, p.guestWidth).value, WidthsOf(p.hostIn, p.hostWidth).value)
    && WidthDomainsExist(WidthsOf(p.guestOut, p.guestWidth).value, WidthsOf(p.hostOut, p.hostWidth).value)
  }

  predicate Eligible(p: Problem) {
    && p.sameKind
    && |p.guestIn| == |p.hostIn| <= MAX_SURFACE_REGISTERS && |p.guestOut| == |p.hostOut| <= MAX_SURFACE_REGISTERS
    && (forall i :: 0 <= i < |p.guestIn| ==> !p.guestFixedRole(p.guestIn[i]))
    && (forall i :: 0 <= i < |p.hostIn| ==> !p.hostFixedRole(p.hostIn[i]))
    && SameWidths(p)
  }

  /** The surfaces in the order they are checked, with how many registers each has. */
  function SurfaceSizes(p: Problem): seq<(string, nat)> {
    [("guest_inputs", |p.guestIn|), ("host_inputs", |p.hostIn|), ("guest_outputs", |p.guestOut|),
     ("host_outputs", |p.hostOut|)]
  }

  /** The first surface with too many registers. */
  ghost predicate FirstOver(p: Problem, k: nat) {
    && k < 4 && SurfaceSizes(p)[k].1 > 4
    && forall j :: 0 <= j < k ==> SurfaceSizes(p)[j].1 <= 4
  }

  ghost predicate FixedRoleInput(p: Problem) {
    (exists r :: r in p.guestIn && p.guestFixedRole(r)) || exists r :: r in p.hostIn && p.hostFixedRole(r)
  }

  ghost predicate UnknownWidth(p: Problem) {
    || WidthsOf(p.guestIn, p.guestWidth).None? || WidthsOf(p.hostIn, p.hostWidth).None?
    || WidthsOf(p.guestOut, p.guestWidth).None? || WidthsOf(p.hostOut, p.hostWidth).None?
  }

  /** Why a problem is not eligible: the first requirement it misses. */
  ghost predicate Ineligible(p: Problem, detail: string) {
    !Eligible(p) &&
    if !p.sameKind then detail == "surface_kind_mismatch"
    else if exists k: nat :: FirstOver(p, k) then
      exists k: nat :: FirstOver(p, k) && detail == LimitDetail(SurfaceSizes(p)[k].0, SurfaceSizes(p)[k].1)
    else if |p.guestIn| != |p.hostIn| || |p.guestOut| != |p.hostOut| then detail == "register_count_mismatch"
    else if FixedRoleInput(p) then detail == "unmodeled_input"
    else if UnknownWidth(p) then detail == "non_integer_register"
    else detail == "width_domain_empty"
  }

  function LimitDetail(name: string, n: nat): string { "register_limit_exceeded:" + name + ":" + Decimal(n) + ">4" }

  method OverLimit(p: Problem) returns (detail: Option<string>)
    ensures detail.None? <==> forall k :: 0 <= k < 4 ==> SurfaceSizes(p)[k].1 <= 4
    ensures detail.Some? ==>
              exists k: nat ::
                FirstOver(p, k) && detail.value == LimitDetail(SurfaceSizes(p)[k].0, SurfaceSizes(p)[k].1)
  {
    var sizes := SurfaceSizes(p);
    for k := 0 to 4
      invariant forall j :: 0 <= j < k ==> sizes[j].1 <= 4
    {
      if sizes[k].1 > MAX_SURFACE_REGISTERS {
        assert FirstOver(p, k);
        return Some("register_limit_exceeded:" + sizes[k].0 + ":" + Decimal(sizes[k].1) + ">"
                    + Decimal(MAX_SURFACE_REGISTERS));
      }
    }
    detail := None;
  }

  method EligibilityDetail(p: Problem) returns (detail: Option<string>)
    ensures detail.None? <==> Eligible(p)
    ensures detail.Some? ==> Ineligible(p, detail.value)
  {
    if !p.sameKind { return Some("surface_kind_mismatch"); }
    var over := OverLimit(p);
    assert SurfaceSizes(p)[0].1 == |p.guestIn| && SurfaceSizes(p)[1].1 == |p.hostIn|;
    assert SurfaceSizes(p)[2].1 == |p.guestOut| && SurfaceSizes(p)[3].1 == |p.hostOut|;
    if over.Some? { return over; }
    assert forall k: nat :: !FirstOver(p, k);
    if |p.guestIn| != |p.hostIn| || |p.guestOut| != |p.hostOut| { return Some("register_count_mismatch"); }
    if (exists i :: 0 <= i < |p.guestIn| && p.guestFixedRole(p.guestIn[i]))
        || (exists i :: 0 <= i < |p.hostIn| && p.hostFixedRole(p.hostIn[i])) {
      return Some("unmodeled_input");
    }
    var guestIn := RegisterWidths(p.guestIn, p.guestWidth);
    var hostIn := RegisterWidths(p.hostIn, p.hostWidth);
    var guestOut := RegisterWidths(p.guestOut, p.guestWidth);
    var hostOut := RegisterWidths(p.hostOut, p.hostWidth);
    if guestIn.None? || hostIn.None? || guestOut.None? || hostOut.None? { return Some("non_integer_register"); }
    if !WidthDomainsExist(guestIn.value, hostIn.value) || !WidthDomainsExist(guestOut.value, hostOut.value) {
      return Some("width_domain_empty");
    }
    detail := None;
  }

  // ---- the exhaustive search ----

  function WithEach(input: Pairs, outputs: seq<Pairs>): (r: seq<Proposal>)
    ensures forall q :: q in r <==> q.inputs == input && q.outputs in outputs
  {
    if outputs == [] then [] else [Proposal(input, outputs[0])] + WithEach(input, outputs[1..])
  }

  /** Every input option with every output option. */
  function Product(inputs: seq<Pairs>, outputs: seq<Pairs>): (r: seq<Proposal>)
    ensures forall q :: q in r <==> q.inputs in inputs && q.outputs in outputs
  {
    if inputs == [] then [] else WithEach(inputs[0], outputs) + Product(inputs[1..], outputs)
  }

  /** A width-preserving binding that leaves the fixed pairs alone. */
  ghost predicate Admissible(p: Problem, q: Proposal) {
    && SameWidths(p) && Respects(q.inputs, p.fixedPairs)
    && var gi, hi := WidthsOf(p.guestIn, p.guestWidth).value, WidthsOf(p.hostIn, p.hostWidth).value;
       var go, ho := WidthsOf(p.guestOut, p.guestWidth).value, WidthsOf(p.hostOut, p.hostWidth).value;
       && (exists a :: Preserves(a, gi, hi) && q.inputs == Named(p.guestIn, p.hostIn, a))
       && exists b :: Preserves(b, go, ho) && q.outputs == Named(p.guestOut, p.hostOut, b)
  }

  lemma OptionsAre(options: seq<Pairs>, orders: seq<seq<nat>>, guest: seq<string>, host: seq<string>, gw: seq<nat>,
      hw: seq<nat>, pairs: Pairs)
    requires ListsBijections(options, orders, guest, host, gw, hw)
    ensures pairs in options <==> exists a :: Preserves(a, gw, hw) && pairs == Named(guest, host, a)
  {
    if pairs in options {
      var i :| 0 <= i < |options| && options[i] == pairs;
      assert orders[i] in orders;
    }
    if a :| Preserves(a, gw, hw) && pairs == Named(guest, host, a) {
      assert a in orders;
      var i :| 0 <= i < |orders| && orders[i] == a;
      assert options[i] == pairs;
    }
  }

  lemma NamedDistinct(guest: seq<string>, host: seq<string>, p: seq<nat>)
    requires IsPermutation(p, |guest|) && |host| == |guest| && Distinct(guest) && Distinct(host)
    ensures DistinctNames(Named(guest, host, p))
  {}

  /** Ask the verifier about every admissible binding until one is accepted. */
  method SolveWithVerifier(p: Problem, verify: Proposal -> Status) returns (r: Result)
    requires Distinct(p.guestIn) && Distinct(p.hostIn)
    ensures r == Fallback("selector_domain_empty") <==> !SameWidths(p)
    ensures r.Bound? ==> Admissible(p, r.proposal) && verify(r.proposal) == Equivalent
    ensures r.Unsat? ==> SameWidths(p) && forall q :: Admissible(p, q) ==> verify(q) == Failed
    ensures r == Fallback("verification_unsupported") ==> exists q :: Admissible(p, q) && verify(q) == Unsupported
    ensures r == Fallback("verification_error") ==> exists q :: Admissible(p, q) && verify(q) == Error
    ensures r.Fallback? ==> r.detail in {"selector_domain_empty", "verification_unsupported", "verification_error"}
  {
    var ins, outs;
    ghost var inOrders, outOrders;
    ins, inOrders := BindingOptions(p.guestIn, p.hostIn, p.guestWidth, p.hostWidth);
    outs, outOrders := BindingOptions(p.guestOut, p.hostOut, p.guestWidth, p.hostWidth);
    if ins.None? || outs.None? { return Fallback("selector_domain_empty"); }
    ProductIsAdmissible(p, ins.value, outs.value, inOrders, outOrders);
    r := SearchAll(p, Product(ins.value, outs.value), verify);
  }

  lemma ProductIsAdmissible(p: Problem, ins: seq<Pairs>, outs: seq<Pairs>, inOrders: seq<seq<nat>>,
      outOrders: seq<seq<nat>>)
    requires SameWidths(p) && Distinct(p.guestIn) && Distinct(p.hostIn)
    requires ListsBijections(ins, inOrders, p.guestIn, p.hostIn, WidthsOf(p.guestIn, p.guestWidth).value,
             WidthsOf(p.hostIn, p.hostWidth).value)
    requires ListsBijections(outs, outOrders, p.guestOut, p.hostOut, WidthsOf(p.guestOut, p.guestWidth).value,
             WidthsOf(p.hostOut, p.hostWidth).value)
    ensures forall q :: Admissible(p, q) <==> q in Product(ins, outs) && Respects(q.inputs, p.fixedPairs)
    ensures forall q :: q in Product(ins, outs) ==> DistinctNames(q.inputs)
  {
    forall q ensures Admissible(p, q) <==> q in Product(ins, outs) && Respects(q.inputs, p.fixedPairs)
      ensures q in Product(ins, outs) ==> DistinctNames(q.inputs)
    {
      OptionsAre(ins, inOrders, p.guestIn, p.hostIn, WidthsOf(p.guestIn, p.guestWidth).value,
          WidthsOf(p.hostIn, p.hostWidth).value, q.inputs);
      OptionsAre(outs, outOrders, p.guestOut, p.hostOut, WidthsOf(p.guestOut, p.guestWidth).value,
          WidthsOf(p.hostOut, p.hostWidth).value, q.outputs);
      OptionsDistinct(ins, inOrders, p.guestIn, p.hostIn, WidthsOf(p.guestIn, p.guestWidth).value,
          WidthsOf(p.hostIn, p.hostWidth).value, q.inputs);
    }
  }

  lemma OptionsDistinct(options: seq<Pairs>, orders: seq<seq<nat>>, guest: seq<string>, host: seq<string>, gw: seq<nat>,
      hw: seq<nat>, pairs: Pairs)
    requires ListsBijections(options, orders, guest, host, gw, hw) && Distinct(guest) && Distinct(host)
    ensures pairs in options ==> DistinctNames(pairs)
  {
    if pairs in options {
      var i :| 0 <= i < |options| && options[i] == pairs;
      assert orders[i] in orders;
      NamedDistinct(guest, host, orders[i]);
    }
  }

  method SearchAll(p: Problem, all: seq<Proposal>, verify: Proposal -> Status) returns (r: Result)
    requires forall q :: q in all ==> DistinctNames(q.inputs)
    requires forall q :: Admissible(p, q) <==> q in all && Respects(q.inputs, p.fixedPairs)
    ensures r.Bound? ==> Admissible(p, r.proposal) && verify(r.proposal) == Equivalent
    ensures r.Unsat? ==> forall q :: Admissible(p, q) ==> verify(q) == Failed
    ensures r == Fallback("verification_unsupported") ==> exists q :: Admissible(p, q) && verify(q) == Unsupported
    ensures r == Fallback("verification_error") ==> exists q :: Admissible(p, q) && verify(q) == Error
    ensures r.Fallback? ==> r.detail in {"verification_unsupported", "verification_error"}
  {
    for k := 0 to |all|
      invariant forall i :: 0 <= i < k && Respects(all[i].inputs, p.fixedPairs) ==> verify(all[i]) == Failed
    {
      assert all[k] in all;
      OncePaired(all[k].inputs, p.fixedPairs);
      var ok := RespectsFixedPairs(all[k].inputs, p.fixedPairs);
      if !ok { continue; }
      var status := verify(all[k]);
      match status
      case Equivalent => return Bound(all[k]);
      case Unsupported => return Fallback("verification_unsupported");
      case Error => return Fallback("verification_error");
      case Failed =>
    }
    r := Unsat;
  }
}
