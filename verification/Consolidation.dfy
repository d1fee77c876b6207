/** Removing rules that a more parameterized rule subsumes. */
module Consolidation {
  import opened Wrappers
  import opened RuleAst
  import opened Fingerprint
  import opened Semantics
  import opened AlphaSemantics
  import opened Substitution
  import opened SubstSemantics

  // ---- subsumption ----

  /** `b` with one of its immediates replaced by a reserved literal is `a` up to renaming. */
  ghost predicate SubsumesBy(b: Rule, a: Rule, id: int, value: string) {
    id in ImmIds(b) && value in RESERVED && AlphaEqual(SubstImm(b, id, value), a)
  }

  ghost predicate Subsumes(b: Rule, a: Rule) {
    exists id, value :: SubsumesBy(b, a, id, value)
  }

  /** Some other rule of the list subsumes rule `i`. */
  ghost predicate SubsumedAt(rules: seq<Rule>, i: nat)
    requires i < |rules|
  {
    exists j :: 0 <= j < |rules| && j != i && Subsumes(rules[j], rules[i])
  }

  ghost predicate WellFormed(rules: seq<Rule>) {
    forall i :: 0 <= i < |rules| ==> ValidRule(rules[i]) && PositiveImms(rules[i])
  }

  ghost predicate DistinctIds(rules: seq<Rule>) {
    forall i, j :: 0 <= i < j < |rules| ==> rules[i].ruleId != rules[j].ruleId
  }

  function Keep(rules: seq<Rule>, marked: set<int>): (kept: seq<Rule>)
    ensures forall r :: r in kept <==> r in rules && r.ruleId !in marked
    ensures |kept| <= |rules|
  {
    if rules == [] then [] else (if rules[0].ruleId in marked then [] else [rules[0]]) + Keep(rules[1..], marked)
  }

  /** The ids of the rules that some other rule of the list subsumes. */
  ghost function SubsumedIds(rules: seq<Rule>): set<int> {
    set i | 0 <= i < |rules| && SubsumedAt(rules, i) :: rules[i].ruleId
  }

  /** One pair of rules: try every immediate of `b` with every reserved literal. */
  method MarkPair(b: Rule, a: Rule, marked: set<int>) returns (marked': set<int>)
    requires ValidRule(a) && ValidRule(b) && PositiveImms(b)
    ensures marked' == if Subsumes(b, a) then marked + {a.ruleId} else marked
  {
    marked' := marked;
    var todo := ImmIds(b);
    while todo != {}
      invariant todo <= ImmIds(b)
      invariant forall id, value :: id in ImmIds(b) - todo ==> !SubsumesBy(b, a, id, value)
      invariant marked' == marked
      decreases todo
    {
      var id :| id in todo;
      todo := todo - {id};
      var hit := TryLiterals(b, a, id);
      if hit { marked' := marked' + {a.ruleId}; }
      if a.ruleId in marked' { return; }
    }
  }

  /** Alpha-equality is decided by comparing fingerprints. */
  method RuleAlphaEqual(a: Rule, b: Rule) returns (equal: bool)
    requires ValidRule(a) && ValidRule(b)
    ensures equal <==> AlphaEqual(a, b)
  {
    FingerprintIffAlphaEqual(a, b);
    equal := RuleFingerprint(a) == RuleFingerprint(b);
  }

  method TryLiteral(b: Rule, a: Rule, id: int, value: string) returns (hit: bool)
    requires ValidRule(a) && ValidRule(b) && PositiveImms(b) && id in ImmIds(b) && value in RESERVED
    ensures hit <==> SubsumesBy(b, a, id, value)
  {
    SubstRemovesOne(b, id, value);
    hit := RuleAlphaEqual(SubstImm(b, id, value), a);
  }

  method TryLiterals(b: Rule, a: Rule, id: int) returns (hit: bool)
    requires ValidRule(a) && ValidRule(b) && PositiveImms(b) && id in ImmIds(b)
    ensures hit <==> exists value :: SubsumesBy(b, a, id, value)
  {
    for i := 0 to |RESERVED|
      invariant forall j :: 0 <= j < i ==> !SubsumesBy(b, a, id, RESERVED[j])
    {
      var equal := TryLiteral(b, a, id, RESERVED[i]);
      if equal { return true; }
    }
    hit := false;
  }

  /** Exactly the rules with the id of a subsumed rule go; the others stay in order. */
  method Consolidate(rules: seq<Rule>) returns (kept: seq<Rule>)
    requires WellFormed(rules)
    ensures kept == Keep(rules, SubsumedIds(rules))
  {
    if |rules| < 2 {
      NothingSubsumed(rules);
      return rules;
    }
    var subsumedIds: set<int> := {};
    for i := 0 to |rules|
      invariant subsumedIds == SubsumedUpTo(rules, i)
    {
      MarkOneMore(rules, i);
      subsumedIds := MarkAgainstAll(rules, i, subsumedIds);
    }
    kept := Keep(rules, subsumedIds);
  }

  ghost function SubsumedUpTo(rules: seq<Rule>, n: nat): set<int>
    requires n <= |rules|
  {
    set i | 0 <= i < n && SubsumedAt(rules, i) :: rules[i].ruleId
  }

  lemma MarkOneMore(rules: seq<Rule>, n: nat)
    requires n < |rules|
    ensures SubsumedUpTo(rules, n + 1) == SubsumedUpTo(rules, n) + if SubsumedAt(rules, n) then {rules[n].ruleId}
            else {}
  {}

  /** A shorter list has no other rule to subsume one. */
  lemma NothingSubsumed(rules: seq<Rule>)
    requires |rules| < 2
    ensures Keep(rules, SubsumedIds(rules)) == rules
  {
    forall i | 0 <= i < |rules| ensures !SubsumedAt(rules, i) { Alone(rules, i); }
    assert SubsumedIds(rules) == {};
    KeepAll(rules);
  }

  lemma Alone(rules: seq<Rule>, i: nat)
    requires |rules| < 2 && i < |rules|
    ensures !SubsumedAt(rules, i)
  {}

  lemma KeepAll(rules: seq<Rule>)
    ensures Keep(rules, {}) == rules
  {}

  /** Which rules of the list subsume rule `i`. */
  ghost function Hits(rules: seq<Rule>, i: nat): (hits: seq<bool>)
    requires i < |rules|
    ensures |hits| == |rules| && forall k :: 0 <= k < |rules| ==> hits[k] == (k != i && Subsumes(rules[k], rules[i]))
  {
    seq(|rules|, k requires 0 <= k < |rules| => k != i && Subsumes(rules[k], rules[i]))
  }

  ghost predicate AnyBefore(hits: seq<bool>, j: nat)
    requires j <= |hits|
  {
    exists k :: 0 <= k < j && hits[k]
  }

  lemma AnyOneMore(hits: seq<bool>, j: nat)
    requires j < |hits|
    ensures AnyBefore(hits, j + 1) <==> AnyBefore(hits, j) || hits[j]
  {}

  lemma AnyHit(rules: seq<Rule>, i: nat)
    requires i < |rules|
    ensures AnyBefore(Hits(rules, i), |rules|) <==> SubsumedAt(rules, i)
  {
    var hits := Hits(rules, i);
    if SubsumedAt(rules, i) {
      var j :| 0 <= j < |rules| && j != i && Subsumes(rules[j], rules[i]);
      assert hits[j];
    }
  }

  /** Rule `i` against every other rule of the list. */
  method MarkAgainstAll(rules: seq<Rule>, i: nat, marked: set<int>) returns (marked': set<int>)
    requires WellFormed(rules) && i < |rules|
    ensures marked' == if SubsumedAt(rules, i) then marked + {rules[i].ruleId} else marked
  {
    marked' := marked;
    ghost var hits := Hits(rules, i);
    for j := 0 to |rules|
      invariant marked' == if AnyBefore(hits, j) then marked + {rules[i].ruleId} else marked
    {
      AnyOneMore(hits, j);
      if i != j {
        marked' := MarkPair(rules[j], rules[i], marked');
      }
    }
    AnyHit(rules, i);
  }

  // ---- who survives ----

  lemma OwnId(rules: seq<Rule>, i: nat)
    requires DistinctIds(rules) && i < |rules|
    ensures rules[i].ruleId in SubsumedIds(rules) <==> SubsumedAt(rules, i)
  {
    if rules[i].ruleId in SubsumedIds(rules) {
      var k :| 0 <= k < |rules| && rules[k].ruleId == rules[i].ruleId && SubsumedAt(rules, k);
      assert k == i;
    }
  }

  /** With distinct rule ids, a rule survives exactly when no other input rule subsumes it. */
  lemma SurvivesIff(rules: seq<Rule>, i: nat)
    requires DistinctIds(rules) && i < |rules|
    ensures rules[i] in Keep(rules, SubsumedIds(rules)) <==> !SubsumedAt(rules, i)
  {
    OwnId(rules, i);
    assert rules[i] in rules;
  }

  // ---- subsumption strictly loses an immediate ----

  lemma {:induction false} ImageSize(s: set<int>, t: set<int>, f: int -> int)
    requires forall x :: x in s ==> f(x) in t
    requires forall y :: y in t ==> exists x :: x in s && f(x) == y
    requires forall x, y :: x in s && y in s && f(x) == f(y) ==> x == y
    ensures |s| == |t|
    decreases s
  {
    if exists y :: y in t {
      var y :| y in t;
      var x :| x in s && f(x) == y;
      forall z | z in t - {y} ensures exists w :: w in s - {x} && f(w) == z {
        var w :| w in s && f(w) == z;
        assert w in s - {x};
      }
      ImageSize(s - {x}, t - {y}, f);
    } else {
      assert forall x :: x !in s;
      assert s == {} && t == {};
    }
  }

  lemma RenamesImms(rho: Renaming, a: Rule, b: Rule)
    requires Renames(rho, a, b) && PositiveImms(a) && PositiveImms(b)
    ensures forall id :: id in ImmIds(a) ==> NewId(rho, ImmKey(id)) in ImmIds(b)
    ensures forall id :: id in ImmIds(b) ==> exists j :: j in ImmIds(a) && NewId(rho, ImmKey(j)) == id
    ensures forall i, j :: i in ImmIds(a) && j in ImmIds(a) && NewId(rho, ImmKey(i)) == NewId(rho, ImmKey(j)) ==> i == j
  {
    var ks := KeysRule(a);
    FuseRule(map[], rho, rho, a);
    assert KeysRule(b) == RenameKeys(rho, ks);
    forall id | id in ImmIds(a) ensures NewId(rho, ImmKey(id)) in ImmIds(b) {
      ImmIdsMember(a, id);
      var i :| 0 <= i < |ks| && ks[i] == ImmKey(id);
      assert KeysRule(b)[i] == RenameKey(rho, ks[i]);
    }
    forall id | id in ImmIds(b) ensures exists j :: j in ImmIds(a) && NewId(rho, ImmKey(j)) == id {
      ImmIdsMember(b, id);
      var i :| 0 <= i < |ks| && KeysRule(b)[i] == ImmKey(id);
      assert RenameKey(rho, ks[i]) == ImmKey(id);
      ImmIdsMember(a, ks[i].id);
      assert ks[i].id in ImmIds(a);
    }
    forall i, j | i in ImmIds(a) && j in ImmIds(a) && NewId(rho, ImmKey(i)) == NewId(rho, ImmKey(j)) ensures i == j {
      ImmIdsMember(a, i);
      ImmIdsMember(a, j);
      assert RenameKey(rho, ImmKey(i)) == RenameKey(rho, ImmKey(j));
    }
  }

  lemma AlphaKeepsImmCount(a: Rule, b: Rule)
    requires AlphaEqual(a, b) && PositiveImms(a) && PositiveImms(b)
    ensures |ImmIds(a)| == |ImmIds(b)|
  {
    var rho: Renaming :| Renames(rho, a, b);
    RenamesImms(rho, a, b);
    ImageSize(ImmIds(a), ImmIds(b), (id: int) => NewId(rho, ImmKey(id)));
  }

  /** The subsuming rule has exactly one immediate more, so subsumption has no cycles. */
  lemma SubsumesOneMore(b: Rule, a: Rule)
    requires Subsumes(b, a) && ValidRule(b) && PositiveImms(a) && PositiveImms(b)
    ensures |ImmIds(b)| == |ImmIds(a)| + 1
  {
    var id, value :| SubsumesBy(b, a, id, value);
    SubstRemovesOne(b, id, value);
    AlphaKeepsImmCount(SubstImm(b, id, value), a);
  }

  // ---- a substitution can be replayed on an alpha-equal rule ----

  lemma AlphaSubst(a: Rule, b: Rule, id: int, value: string) returns (id': int)
    requires AlphaEqual(a, b) && ValidRule(a) && ValidRule(b) && PositiveImms(a) && PositiveImms(b) && id in ImmIds(b)
    ensures id' in ImmIds(a) && AlphaEqual(SubstImm(a, id', value), SubstImm(b, id, value))
  {
    AlphaSymmetric(a, b);
    var rho: Renaming :| Renames(rho, b, a);
    RenamesImms(rho, b, a);
    id' := NewId(rho, ImmKey(id));
    ReplaySubst(rho, a, b, id, value);
    AlphaSymmetric(SubstImm(b, id, value), SubstImm(a, id', value));
  }

  lemma RenamingTargets(rho: Renaming, a: Rule, b: Rule, id: int)
    requires Renames(rho, b, a) && PositiveImms(a) && PositiveImms(b) && id in ImmIds(b)
    ensures Targets(rho, KeysRule(b), id, NewId(rho, ImmKey(id)))
  {
    var ks, id' := KeysRule(b), NewId(rho, ImmKey(id));
    RenamesImms(rho, b, a);
    ImmIdsMember(b, id);
    ImmIdsMember(a, id');
    forall i | 0 <= i < |ks| && ks[i].space.Imm? ensures NewId(rho, ks[i]) == id' <==> ks[i] == ImmKey(id) {
      ImmIdsMember(b, ks[i].id);
    }
  }

  lemma ReplaySubst(rho: Renaming, a: Rule, b: Rule, id: int, value: string)
    requires Renames(rho, b, a) && ValidRule(b) && PositiveImms(a) && PositiveImms(b) && id in ImmIds(b)
    ensures Renames(rho, SubstImm(b, id, value), SubstImm(a, NewId(rho, ImmKey(id)), value))
  {
    var id' := NewId(rho, ImmKey(id));
    RenamingTargets(rho, a, b, id);
    TargetsSplit(rho, KeysInsts(b.guest), KeysInsts(b.host), id, id');
    SubstRenameInsts(rho, b.guest, id, id', value);
    SubstRenameInsts(rho, b.host, id, id', value);
    SubstImmKeys(b, id, value);
    CoversWithout(rho, KeysRule(b), ImmKey(id));
  }

  lemma CoversWithout(rho: Renaming, ks: seq<Key>, k: Key)
    requires Covers(rho, ks)
    ensures Covers(rho, Without(ks, k))
  {
    WithoutMembers(ks, k);
    forall i | 0 <= i < |Without(ks, k)| ensures Without(ks, k)[i] in rho {
      assert Without(ks, k)[i] in Without(ks, k);
      var j :| 0 <= j < |ks| && ks[j] == Without(ks, k)[i];
    }
  }

  // ---- every removed rule is an instance of a survivor ----

  datatype Step = Step(id: int, value: string)

  function Instance(r: Rule, steps: seq<Step>): Rule {
    if steps == [] then r
    else SubstImm(Instance(r, steps[..|steps| - 1]), steps[|steps| - 1].id, steps[|steps| - 1].value)
  }

  /** Each step replaces an immediate that is still there by a reserved literal. */
  ghost predicate Applicable(r: Rule, steps: seq<Step>) {
    steps != [] ==>
      var n := |steps| - 1;
      Applicable(r, steps[..n]) && steps[n].id in ImmIds(Instance(r, steps[..n])) && steps[n].value in RESERVED
  }

  lemma {:induction false} InstanceWellFormed(r: Rule, steps: seq<Step>)
    requires ValidRule(r) && PositiveImms(r) && Applicable(r, steps)
    ensures ValidRule(Instance(r, steps)) && PositiveImms(Instance(r, steps))
    ensures |ImmIds(Instance(r, steps))| == |ImmIds(r)| - |steps|
    decreases |steps|
  {
    if steps != [] {
      var n := |steps| - 1;
      InstanceWellFormed(r, steps[..n]);
      SubstRemovesOne(Instance(r, steps[..n]), steps[n].id, steps[n].value);
    }
  }

  function MostImms(rules: seq<Rule>): (m: nat)
    ensures forall i :: 0 <= i < |rules| ==> |ImmIds(rules[i])| <= m
  {
    if rules == [] then 0
    else
      var rest := MostImms(rules[1..]);
      if |ImmIds(rules[0])| > rest then |ImmIds(rules[0])| else rest
  }

  /** Every input rule is, up to renaming, some surviving rule after finitely many reserved-literal substitutions. */
  lemma {:induction false} SurvivorCovers(rules: seq<Rule>, i: nat) returns (s: nat, steps: seq<Step>)
    requires WellFormed(rules) && i < |rules|
    ensures s < |rules| && !SubsumedAt(rules, s)
    ensures Applicable(rules[s], steps) && AlphaEqual(Instance(rules[s], steps), rules[i])
    decreases MostImms(rules) - |ImmIds(rules[i])|
  {
    if !SubsumedAt(rules, i) {
      AlphaReflexive(rules[i]);
      return i, [];
    }
    var j :| 0 <= j < |rules| && j != i && Subsumes(rules[j], rules[i]);
    SubsumesOneMore(rules[j], rules[i]);
    var id, value :| SubsumesBy(rules[j], rules[i], id, value);
    s, steps := SurvivorCovers(rules, j);
    var step := ExtendCover(rules[s], steps, rules[j], rules[i], id, value);
    steps := steps + [step];
  }

  lemma ExtendCover(r: Rule, steps: seq<Step>, b: Rule, a: Rule, id: int, value: string) returns (step: Step)
    requires ValidRule(r) && PositiveImms(r) && Applicable(r, steps) && AlphaEqual(Instance(r, steps), b)
    requires ValidRule(b) && PositiveImms(b) && SubsumesBy(b, a, id, value)
    ensures Applicable(r, steps + [step]) && AlphaEqual(Instance(r, steps + [step]), a)
  {
    InstanceWellFormed(r, steps);
    var id' := AlphaSubst(Instance(r, steps), b, id, value);
    step := Step(id', value);
    OneMoreStep(r, steps, step);
    AlphaTransitive(SubstImm(Instance(r, steps), id', value), SubstImm(b, id, value), a);
  }

  lemma OneMoreStep(r: Rule, steps: seq<Step>, step: Step)
    requires Applicable(r, steps) && step.id in ImmIds(Instance(r, steps)) && step.value in RESERVED
    ensures Applicable(r, steps + [step])
    ensures Instance(r, steps + [step]) == SubstImm(Instance(r, steps), step.id, step.value)
  {
    assert (steps + [step])[..|steps|] == steps;
  }

  // ---- when consolidation preserves the verdict ----

  /** `a` is checked with the domains of `b`, carried over by a renaming, and zero is a value of the replaced one. */
  ghost predicate DomainsKept(b: Rule, before: Domains, a: Rule, after: Domains, id: int, value: string) {
    && 0 in before(id)
    && exists rho: Renaming :: Renames(rho, SubstImm(b, id, value), a) && DomainsFollow(rho, before, after)
  }

  /** One subsumption: the subsumed rule passes exactly when the subsuming one reads the replaced immediate cleanly. */
  lemma InstancePassesIff(before: Domains, after: Domains, literal: string -> Option<int>, b: Rule, a: Rule, id: int,
      value: string)
    requires ValidRule(b) && PositiveImms(b) && SubsumesBy(b, a, id, value) && FirstSourcesKeep(b, id)
    requires DomainsKept(b, before, a, after, id, value) && ReadsZero(literal) && Passes(before, literal, b)
    ensures Passes(after, literal, a) <==> CleanRule(b, id)
  {
    ImmIdsMember(b, id);
    SubstPassesIff(before, literal, b, id, value);
    var rho: Renaming :| Renames(rho, SubstImm(b, id, value), a) && DomainsFollow(rho, before, after);
    PassesAlpha(rho, before, after, literal, SubstImm(b, id, value), a);
  }

  /** Whatever its first sources, a rule subsumed under an immediate that is not read cleanly never passes. */
  lemma InstanceNeverPasses(before: Domains, after: Domains, literal: string -> Option<int>, b: Rule, a: Rule, id: int,
      value: string)
    requires ValidRule(b) && PositiveImms(b) && SubsumesBy(b, a, id, value) && !CleanRule(b, id)
    requires DomainsKept(b, before, a, after, id, value) && ReadsZero(literal)
    ensures !Passes(after, literal, a)
  {
    ImmIdsMember(b, id);
    LostNeverPasses(before, literal, b, id, value);
    var rho: Renaming :| Renames(rho, SubstImm(b, id, value), a) && DomainsFollow(rho, before, after);
    PassesAlpha(rho, before, after, literal, SubstImm(b, id, value), a);
  }

  /** Every subsumption of the list reads the replaced immediate cleanly. */
  ghost predicate CleanSubsumptions(rules: seq<Rule>) {
    forall i, j, id, value | 0 <= i < |rules| && 0 <= j < |rules| && SubsumesBy(rules[j], rules[i], id, value) ::
      CleanRule(rules[j], id)
  }

  /** No subsumption replaces a first source that matters. */
  ghost predicate SourcesKept(rules: seq<Rule>) {
    forall i, j, id, value | 0 <= i < |rules| && 0 <= j < |rules| && SubsumesBy(rules[j], rules[i], id, value) ::
      FirstSourcesKeep(rules[j], id)
  }

  /** The domains each rule is checked with follow the subsumptions. */
  ghost predicate AllDomainsKept(rules: seq<Rule>, domains: seq<Domains>)
    requires |domains| == |rules|
  {
    forall i, j, id, value | 0 <= i < |rules| && 0 <= j < |rules| && SubsumesBy(rules[j], rules[i], id, value) ::
      DomainsKept(rules[j], domains[j], rules[i], domains[i], id, value)
  }

  ghost predicate SurvivorsPass(rules: seq<Rule>, domains: seq<Domains>, literal: string -> Option<int>)
    requires |domains| == |rules|
  {
    forall s :: 0 <= s < |rules| && !SubsumedAt(rules, s) ==> Passes(domains[s], literal, rules[s])
  }

  /** If every survivor passes and every subsumption is clean, every input rule passes. */
  lemma {:induction false} RemovedRulesPass(rules: seq<Rule>, domains: seq<Domains>, literal: string -> Option<int>,
      i: nat)
    requires WellFormed(rules) && |domains| == |rules| && AllDomainsKept(rules, domains) && SourcesKept(rules)
    requires CleanSubsumptions(rules) && ReadsZero(literal) && SurvivorsPass(rules, domains, literal) && i < |rules|
    ensures Passes(domains[i], literal, rules[i])
    decreases MostImms(rules) - |ImmIds(rules[i])|
  {
    if SubsumedAt(rules, i) {
      var j :| 0 <= j < |rules| && j != i && Subsumes(rules[j], rules[i]);
      SubsumesOneMore(rules[j], rules[i]);
      var id, value :| SubsumesBy(rules[j], rules[i], id, value);
      RemovedRulesPass(rules, domains, literal, j);
      InstancePassesIff(domains[j], domains[i], literal, rules[j], rules[i], id, value);
    }
  }

  /** Once the survivors pass, all input rules pass exactly when every subsumption is clean. */
  lemma RemovedRulesPassIff(rules: seq<Rule>, domains: seq<Domains>, literal: string -> Option<int>)
    requires WellFormed(rules) && |domains| == |rules| && AllDomainsKept(rules, domains) && SourcesKept(rules)
    requires ReadsZero(literal) && SurvivorsPass(rules, domains, literal)
    ensures (forall i :: 0 <= i < |rules| ==> Passes(domains[i], literal, rules[i])) <==> CleanSubsumptions(rules)
  {
    if CleanSubsumptions(rules) {
      forall i: nat | i < |rules| ensures Passes(domains[i], literal, rules[i]) {
        RemovedRulesPass(rules, domains, literal, i);
      }
    }
    if forall i :: 0 <= i < |rules| ==> Passes(domains[i], literal, rules[i]) {
      forall i, j, id, value | 0 <= i < |rules| && 0 <= j < |rules| && SubsumesBy(rules[j], rules[i], id, value)
        ensures CleanRule(rules[j], id)
      {
        InstancePassesIff(domains[j], domains[i], literal, rules[j], rules[i], id, value);
      }
    }
  }

  /** With one domain for all immediates, as by default, domains follow every subsumption. */
  lemma UniformKept(rules: seq<Rule>, domain: seq<int>)
    requires 0 in domain
    ensures AllDomainsKept(rules, seq(|rules|, _ => Uniform(domain)))
  {
    var domains := seq(|rules|, _ => Uniform(domain));
    forall i, j, id, value | 0 <= i < |rules| && 0 <= j < |rules| && SubsumesBy(rules[j], rules[i], id, value)
      ensures DomainsKept(rules[j], domains[j], rules[i], domains[i], id, value)
    {
      var rho: Renaming :| Renames(rho, SubstImm(rules[j], id, value), rules[i]);
      assert DomainsFollow(rho, Uniform(domain), Uniform(domain));
    }
  }

  // ---- rules that pass and whose instances do not ----

  function Reg64(id: int): Operand { RegOp("i64", 64, id) }

  function Plain(id: int): Operand { ImmOp(id, None, false, false) }

  function Inst(mnemonic: string, operands: seq<Operand>): Instruction { Instruction(mnemonic, operands, [], []) }

  function Temp64(id: int): Operand { TmpOp("i64", 64, id) }

  /** A host shift by the logarithm of a guest immediate, next to a move both sides make. */
  const LOG_RULE := Rule(1, "log",
    [Inst("add", [Temp64(1), Reg64(2), Plain(1)]), Inst("mov", [Reg64(1), Reg64(2)])],
    [Inst("lsl", [Temp64(2), Reg64(2), ImmOp(0, Some(Log2(ImmRef(1))), false, false)]),
        Inst("mov", [Reg64(1), Reg64(2)])])

  /** The immediate as first source on one side and as second source on the other: no instruction of the two
      architectures is written so, but the syntax, the evaluator and consolidation take it. */
  const WIDTH_RULE := Rule(2, "width", [Inst("add", [Reg64(1), Plain(1), Reg64(2)])],
      [Inst("add", [Reg64(1), Reg64(2), Plain(1)])])

  lemma LowerPlain()
    ensures Lower("mov") == "mov" && Lower("add") == "add" && Lower("lsl") == "lsl"
  {}

  lemma EvalOne(c: Context, side: string, st: State, inst: Instruction)
    ensures EvalInsts(c, side, st, [inst]) == EvalInst(c, side, st, inst)
  {
    var next := EvalInst(c, side, st, inst);
    if next.Some? { assert EvalInsts(c, side, next.value, [inst][1..]) == next; }
  }

  function ZeroValuation(reg: nat): Valuation {
    Valuation((k: Key) => reg, (side: string, k: Key, bits: int) => 0, (id: int) => 0)
  }

  lemma EvalTwo(c: Context, side: string, st: State, i: Instruction, j: Instruction)
    ensures EvalInsts(c, side, st, [i, j])
            == var next := EvalInst(c, side, st, i); if next.None? then None else EvalInst(c, side, next.value, j)
  {
    assert [i, j][1..] == [j];
    var next := EvalInst(c, side, st, i);
    if next.Some? { EvalOne(c, side, next.value, j); }
  }

  lemma LogRuleRuns(c: Context)
    ensures var result := EvalRule(c, LOG_RULE); result.Some? && Agree(result.value.0, result.value.1)
  {
    LowerPlain();
    var r, start := LOG_RULE, State(map[], map[]);
    EvalTwo(c, "guest", start, r.guest[0], r.guest[1]);
    LogGuestFirst(c, start);
    LogMove(c, "guest", EvalInst(c, "guest", start, r.guest[0]).value, 1);
    var guest := EvalInsts(c, "guest", start, r.guest).value;
    EvalTwo(c, "host", State(map[], guest.widths), r.host[0], r.host[1]);
    LogHostFirst(c, State(map[], guest.widths));
    LogMove(c, "host", EvalInst(c, "host", State(map[], guest.widths), r.host[0]).value, 2);
    var host := EvalInsts(c, "host", State(map[], guest.widths), r.host).value;
    LogOutputs(c, guest.regs, host.regs);
  }

  /** What both sides leave in the moved register. */
  function MovedValue(c: Context): Bv { FitWidth(FitWidth(Wrap(c.vals.reg(KeyOf(Reg64(2))), 64), 64), 64) }

  /** The first instruction of either side writes its temporary only. */
  lemma LogGuestFirst(c: Context, st: State)
    requires st.regs == map[]
    ensures var a := EvalInst(c, "guest", st, LOG_RULE.guest[0]);
            a.Some? && a.value.regs.Keys == {KeyOf(Temp64(1))}
  {
    LowerPlain();
  }

  lemma BinaryDefined(m: string, x: Bv, y: Bv)
    requires m in BINARY
    ensures Binary(m, x, y).Some?
  {}

  /** An operation of three operands is its sources, operated on and assigned. */
  lemma BinaryRuns(c: Context, side: string, st: State, m: string, dst: Operand, x: Operand, y: Operand)
    requires Lower(m) == m && m in BINARY && m !in {"mov", "movzx", "lea"}
    ensures EvalInst(c, side, st, Inst(m, [dst, x, y])) == Assign(st, dst, EvalBinary(c, side, st, m, [dst, x, y]))
    ensures var v := EvalOp(c, side, st.regs, st.widths, x, None);
            EvalBinary(c, side, st, m, [dst, x, y])
            == if v.None? then None else WithSecond(c, side, st.regs, m, v.value, y)
  {
    assert FirstSource([dst, x, y]) == Some(x);
  }

  lemma ShiftRuns(c: Context, st: State, amount: Operand)
    requires st.regs == map[] && EvalOp(c, "host", map[], st.widths, amount, Some(64)).Some?
    ensures var a := EvalInst(c, "host", st, Inst("lsl", [Temp64(2), Reg64(2), amount]));
            a.Some? && a.value.regs.Keys == {KeyOf(Temp64(2))}
  {
    LowerPlain();
    BinaryRuns(c, "host", st, "lsl", Temp64(2), Reg64(2), amount);
    var x, y := EvalOp(c, "host", map[], st.widths, Reg64(2), None),
      EvalOp(c, "host", map[], st.widths, amount, Some(64));
    BinaryDefined("lsl", x.value.0, FitWidth(y.value.0, 64));
  }

  lemma LogHostFirst(c: Context, st: State)
    requires st.regs == map[]
    ensures var a := EvalInst(c, "host", st, LOG_RULE.host[0]);
            a.Some? && a.value.regs.Keys == {KeyOf(Temp64(2))}
  {
    var e := Log2(ImmRef(1));
    assert EvalExpr(c, st.widths, e, 64).Some?;
    ShiftRuns(c, st, ImmOp(0, Some(e), false, false));
  }

  /** The move reads the register it names, which the temporary is not. */
  lemma LogMove(c: Context, side: string, st: State, temp: int)
    requires st.regs.Keys == {KeyOf(Temp64(temp))}
    ensures var b := EvalInst(c, side, st, Inst("mov", [Reg64(1), Reg64(2)]));
            b.Some? && b.value.regs.Keys == {KeyOf(Temp64(temp)), KeyOf(Reg64(1))}
            && b.value.regs[KeyOf(Reg64(1))] == MovedValue(c)
  {
    LowerPlain();
  }

  lemma LogOutputs(c: Context, guest: Registers, host: Registers)
    requires guest.Keys == {KeyOf(Temp64(1)), KeyOf(Reg64(1))} && host.Keys == {KeyOf(Temp64(2)), KeyOf(Reg64(1))}
    requires guest[KeyOf(Reg64(1))] == MovedValue(c) == host[KeyOf(Reg64(1))]
    ensures Agree(guest, host)
  {
    assert KeyOf(Reg64(1)) in guest && KeyOf(Reg64(1)) in host;
  }

  /** Substituting under a logarithm turns a passing rule into an unsupported one. */
  lemma LogarithmIsLost(domain: seq<int>, literal: string -> Option<int>)
    requires 0 in domain
    ensures Passes(Uniform(domain), literal, LOG_RULE)
    ensures !CleanRule(LOG_RULE, 1) && !Passes(Uniform(domain), literal, SubstImm(LOG_RULE, 1, "0"))
  {
    forall vals: Valuation | InDomains(vals, Uniform(domain))
      ensures var result := EvalRule(Context(Uniform(domain), literal, vals), LOG_RULE);
              result.Some? && Agree(result.value.0, result.value.1)
    {
      LogRuleRuns(Context(Uniform(domain), literal, vals));
    }
    LogRuleNotClean();
    var vals := ZeroValuation(0);
    assert InDomains(vals, Uniform(domain));
    LogInstanceUnsupported(Context(Uniform(domain), literal, vals));
  }

  lemma LogRuleNotClean()
    ensures !CleanRule(LOG_RULE, 1)
  {
    LowerPlain();
    var inst := LOG_RULE.host[0];
    assert FirstSource(inst.operands) == Some(inst.operands[1]) && !CleanOp(inst.operands[2], 1);
    assert !CleanInst(inst, 1);
  }

  lemma LogOfLiteralUnsupported(c: Context, st: State)
    ensures EvalInst(c, "host", st, SubstInst(LOG_RULE.host[0], 1, "0")).None?
  {
    LowerPlain();
    var inst := SubstInst(LOG_RULE.host[0], 1, "0");
    assert inst.operands[2] == SubstOp(LOG_RULE.host[0].operands[2], 1, "0");
    assert FirstSource(inst.operands) == Some(inst.operands[1]);
  }

  lemma LogInstanceUnsupported(c: Context)
    ensures EvalRule(c, SubstImm(LOG_RULE, 1, "0")).None?
  {
    var s := SubstImm(LOG_RULE, 1, "0");
    assert s.host[0] == SubstInst(LOG_RULE.host[0], 1, "0");
    forall st ensures EvalInsts(c, "host", st, s.host).None? { LogOfLiteralUnsupported(c, st); }
  }

  lemma {:induction false} EightMore(n: nat)
    ensures Pow2(n + 8) == 256 * Pow2(n)
  {
    assert Pow2(n + 8) == 2 * Pow2(n + 7) && Pow2(n + 7) == 2 * Pow2(n + 6) && Pow2(n + 6) == 2 * Pow2(n + 5);
    assert Pow2(n + 5) == 2 * Pow2(n + 4) && Pow2(n + 4) == 2 * Pow2(n + 3) && Pow2(n + 3) == 2 * Pow2(n + 2);
    assert Pow2(n + 2) == 2 * Pow2(n + 1) && Pow2(n + 1) == 2 * Pow2(n);
  }

  lemma {:induction false} Powers()
    ensures Pow2(32) == 0x1_0000_0000 && Pow2(64) == 0x1_0000_0000_0000_0000
  {
    EightMore(0);
    EightMore(8);
    EightMore(16);
    EightMore(24);
    EightMore(32);
    EightMore(40);
    EightMore(48);
    EightMore(56);
  }

  /** A 64-bit slice of the immediate on one side and the immediate itself on the other. */
  const SLICE_RULE := Rule(3, "slice", [Inst("mov", [Reg64(1), BitSliceOp(Plain(1), 64)])],
      [Inst("mov", [Reg64(1), Plain(1)])])

  lemma MoveRuns(c: Context, side: string, w: Widths, src: Operand, v: Bv, w': Widths)
    requires EvalOp(c, side, map[], w, src, None) == Some((v, w'))
    ensures EvalInsts(c, side, State(map[], w), [Inst("mov", [Reg64(1), src])])
            == Some(State(map[KeyOf(Reg64(1)) := FitWidth(v, 64)], w'))
  {
    LowerPlain();
    EvalOne(c, side, State(map[], w), Inst("mov", [Reg64(1), src]));
  }

  lemma WrapTwice(v: int, n: nat)
    ensures Wrap(Wrap(v, n).value, n) == Wrap(v, n)
  {
    RemainderOfRemainder(v, Pow2(n));
  }

  lemma RemainderOfRemainder(v: int, p: nat)
    requires p > 0
    ensures v % p % p == v % p
  {}

  /** The immediate is read as 64 bits, whether its symbol is new or of that width. */
  lemma PlainRead(c: Context, side: string, w: Widths)
    requires w == map[] || w == map[1 := 64]
    ensures EvalOp(c, side, map[], w, Plain(1), None) == Some((Wrap(c.vals.imm(1), 64), map[1 := 64]))
  {}

  lemma SliceRead(c: Context, side: string)
    ensures EvalOp(c, side, map[], map[], BitSliceOp(Plain(1), 64), None)
            == Some((Wrap(c.vals.imm(1), 64), map[1 := 64]))
  {
    PlainRead(c, side, map[]);
    WrapTwice(c.vals.imm(1), 64);
    assert EvalOp(c, side, map[], map[], BitSliceOp(Plain(1), 64), None)
        == Some((Wrap(Wrap(c.vals.imm(1), 64).value, 64), map[1 := 64]));
  }

  lemma SliceRuleRuns(c: Context)
    ensures var result := EvalRule(c, SLICE_RULE); result.Some? && Agree(result.value.0, result.value.1)
  {
    var v, w := Wrap(c.vals.imm(1), 64), map[1 := 64];
    SliceRead(c, "guest");
    PlainRead(c, "host", w);
    MoveRuns(c, "guest", map[], BitSliceOp(Plain(1), 64), v, w);
    MoveRuns(c, "host", w, Plain(1), v, w);
    assert KeyOf(Reg64(1)) in EvalRule(c, SLICE_RULE).value.0;
  }

  /** A literal zero has 32 bits, so a wider slice of it turns a passing rule into an unsupported one. */
  lemma SliceIsLost(domain: seq<int>, literal: string -> Option<int>)
    requires 0 in domain && ReadsZero(literal)
    ensures Passes(Uniform(domain), literal, SLICE_RULE)
    ensures !CleanRule(SLICE_RULE, 1) && !Passes(Uniform(domain), literal, SubstImm(SLICE_RULE, 1, "0"))
  {
    forall vals: Valuation | InDomains(vals, Uniform(domain))
      ensures var result := EvalRule(Context(Uniform(domain), literal, vals), SLICE_RULE);
              result.Some? && Agree(result.value.0, result.value.1)
    {
      SliceRuleRuns(Context(Uniform(domain), literal, vals));
    }
    LowerPlain();
    assert !CleanInst(SLICE_RULE.guest[0], 1);
    assert RESERVED[2] == "0";
    LostNeverPasses(Uniform(domain), literal, SLICE_RULE, 1, "0");
  }

  lemma AddIsSum(x: Bv, y: Bv)
    ensures Binary("add", x, y) == Some(Wrap(x.value + y.value, x.width))
  {}

  lemma AddRegReg(c: Context, side: string, st: State, x: Operand, y: Operand, a: Bv, b: Bv, w: Widths, w': Widths)
    requires EvalOp(c, side, st.regs, st.widths, x, None) == Some((a, w))
    requires EvalOp(c, side, st.regs, w, y, Some(a.width)) == Some((b, w'))
    requires b.width == a.width
    ensures EvalInsts(c, side, st, [Inst("add", [Reg64(1), x, y])])
            == Some(State(st.regs[KeyOf(Reg64(1)) := FitWidth(Wrap(a.value + b.value, a.width), 64)], w'))
  {
    LowerPlain();
    EvalOne(c, side, st, Inst("add", [Reg64(1), x, y]));
    BinaryRuns(c, side, st, "add", Reg64(1), x, y);
    AddIsSum(a, b);
  }

  /** Both sides are one addition into the same register. */
  lemma AddBoth(c: Context, r: Rule, gx: Operand, gy: Operand, hx: Operand, hy: Operand, a: Bv, b: Bv, p: Bv, q: Bv,
      w0: Widths, w1: Widths, w2: Widths, w3: Widths)
    requires r.guest == [Inst("add", [Reg64(1), gx, gy])] && r.host == [Inst("add", [Reg64(1), hx, hy])]
    requires EvalOp(c, "guest", map[], map[], gx, None) == Some((a, w0))
    requires EvalOp(c, "guest", map[], w0, gy, Some(a.width)) == Some((b, w1))
    requires EvalOp(c, "host", map[], w1, hx, None) == Some((p, w2))
    requires EvalOp(c, "host", map[], w2, hy, Some(p.width)) == Some((q, w3))
    requires a.width == b.width && p.width == q.width
    ensures EvalRule(c, r) == Some((map[KeyOf(Reg64(1)) := FitWidth(Wrap(a.value + b.value, a.width), 64)],
                                    map[KeyOf(Reg64(1)) := FitWidth(Wrap(p.value + q.value, p.width), 64)]))
  {
    AddRegReg(c, "guest", State(map[], map[]), gx, gy, a, b, w0, w1);
    AddRegReg(c, "host", State(map[], w1), hx, hy, p, q, w2, w3);
  }

  lemma WidthRulePasses(domain: seq<int>, literal: string -> Option<int>, vals: Valuation)
    ensures var result := EvalRule(Context(Uniform(domain), literal, vals), WIDTH_RULE);
            result.Some? && Agree(result.value.0, result.value.1)
  {
    var c, r1, w := Context(Uniform(domain), literal, vals), KeyOf(Reg64(1)), map[1 := 64];
    var i, x := Wrap(vals.imm(1), 64), Wrap(vals.reg(KeyOf(Reg64(2))), 64);
    AddBoth(c, WIDTH_RULE, Plain(1), Reg64(2), Reg64(2), Plain(1), i, x, x, i, w, w, w, w);
    assert i.value + x.value == x.value + i.value;
    assert r1 in EvalRule(c, WIDTH_RULE).value.0;
  }

  lemma WidthRuleSubst()
    ensures SubstImm(WIDTH_RULE, 1, "0").guest == [Inst("add", [Reg64(1), LitOp("0"), Reg64(2)])]
    ensures SubstImm(WIDTH_RULE, 1, "0").host == [Inst("add", [Reg64(1), Reg64(2), LitOp("0")])]
  {
    var s := SubstImm(WIDTH_RULE, 1, "0");
    assert LiteralText(false, false, "0") == "0";
    assert s.guest[0] == SubstInst(WIDTH_RULE.guest[0], 1, "0") && s.host[0] == SubstInst(WIDTH_RULE.host[0], 1, "0");
    assert s.guest[0].operands == [Reg64(1), LitOp("0"), Reg64(2)]
      && s.host[0].operands == [Reg64(1), Reg64(2), LitOp("0")];
  }

  /** Substituting a first source narrows the operation to the literal's 32 bits. */
  lemma WidthIsLost(domain: seq<int>, literal: string -> Option<int>)
    requires 0 in domain && literal("0") == Some(0)
    ensures Passes(Uniform(domain), literal, WIDTH_RULE)
    ensures CleanRule(WIDTH_RULE, 1) && !FirstSourcesKeep(WIDTH_RULE, 1)
    ensures !Passes(Uniform(domain), literal, SubstImm(WIDTH_RULE, 1, "0"))
  {
    forall vals: Valuation | InDomains(vals, Uniform(domain))
      ensures var result := EvalRule(Context(Uniform(domain), literal, vals), WIDTH_RULE);
              result.Some? && Agree(result.value.0, result.value.1)
    {
      WidthRulePasses(domain, literal, vals);
    }
    WidthRuleClean();
    var vals := ZeroValuation(0x1_0000_0000);
    assert InDomains(vals, Uniform(domain));
    NarrowedRuleDisagrees(domain, literal);
  }

  lemma WidthRuleClean()
    ensures CleanRule(WIDTH_RULE, 1) && !FirstSourcesKeep(WIDTH_RULE, 1)
  {
    LowerPlain();
    var inst := WIDTH_RULE.guest[0];
    assert FirstSource(inst.operands) == Some(Plain(1)) && !SourceKeeps("add", inst.operands, 1);
    assert !FirstSourceKeeps(inst, 1);
  }

  lemma NarrowedRuleDisagrees(domain: seq<int>, literal: string -> Option<int>)
    requires literal("0") == Some(0)
    ensures var result := EvalRule(Context(Uniform(domain), literal, ZeroValuation(0x1_0000_0000)),
            SubstImm(WIDTH_RULE, 1, "0"));
            result.Some? && !Agree(result.value.0, result.value.1)
  {
    NarrowedRuns(domain, literal);
    NarrowedValues();
    var result := EvalRule(Context(Uniform(domain), literal, ZeroValuation(0x1_0000_0000)),
      SubstImm(WIDTH_RULE, 1, "0")).value;
    Disagree(result.0, result.1, KeyOf(Reg64(1)));
  }

  lemma NarrowedGuest(c: Context)
    requires c.literal("0") == Some(0) && c.vals == ZeroValuation(0x1_0000_0000)
    ensures EvalOp(c, "guest", map[], map[], LitOp("0"), None) == Some((Bv(32, 0), map[]))
    ensures EvalOp(c, "guest", map[], map[], Reg64(2), Some(32)) == Some((Bv(32, 0), map[]))
  {
    Powers();
    WrapZero(32);
  }

  lemma NarrowedHost(c: Context)
    requires c.literal("0") == Some(0) && c.vals == ZeroValuation(0x1_0000_0000)
    ensures EvalOp(c, "host", map[], map[], Reg64(2), None) == Some((Bv(64, 0x1_0000_0000), map[]))
    ensures EvalOp(c, "host", map[], map[], LitOp("0"), Some(64)) == Some((Bv(64, 0), map[]))
  {
    Powers();
    WrapZero(64);
  }

  lemma NarrowedRuns(domain: seq<int>, literal: string -> Option<int>)
    requires literal("0") == Some(0)
    ensures EvalRule(Context(Uniform(domain), literal, ZeroValuation(0x1_0000_0000)), SubstImm(WIDTH_RULE, 1, "0"))
            == Some((map[KeyOf(Reg64(1)) := FitWidth(Wrap(0, 32), 64)],
                map[KeyOf(Reg64(1)) := FitWidth(Wrap(0x1_0000_0000, 64), 64)]))
  {
    var s, c := SubstImm(WIDTH_RULE, 1, "0"), Context(Uniform(domain), literal, ZeroValuation(0x1_0000_0000));
    WidthRuleSubst();
    NarrowedGuest(c);
    NarrowedHost(c);
    AddBoth(c, s, LitOp("0"), Reg64(2), Reg64(2), LitOp("0"), Bv(32, 0), Bv(32, 0), Bv(64, 0x1_0000_0000), Bv(64, 0),
            map[], map[], map[], map[]);
  }

  lemma NarrowedValues()
    ensures FitWidth(Wrap(0, 32), 64).value == 0 && FitWidth(Wrap(0x1_0000_0000, 64), 64).value == 0x1_0000_0000
  {
    Powers();
  }

  lemma Disagree(guest: Registers, host: Registers, k: Key)
    requires k in guest && k in host && guest[k].value != host[k].value
    ensures !Agree(guest, host)
  {}
}
