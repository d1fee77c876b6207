/** The register surface of an instruction window: which families it must be given, and which it produces. */
module WindowSlice {
  import opened Wrappers
  import opened Liveness

  /** What the liveness index stores for one instruction. */
  datatype Entry = Entry(liveOut: set<Family>, readSet: set<Family>, writeSet: set<Family>, unsupported: bool)

  datatype Surface =
    | Skipped(reason: string)
    | Emitted(inputs: seq<string>, outputs: seq<string>, inputFamilies: seq<Family>, outputFamilies: seq<Family>,
              deadWrites: seq<string>, kind: string)

  // ---- families in order of first mention ----

  type Pairs = seq<(Family, string)>

  function Firsts(pairs: Pairs): seq<Family> {
    seq(|pairs|, i requires 0 <= i < |pairs| => pairs[i].0)
  }

  function Seconds(pairs: Pairs): seq<string> {
    seq(|pairs|, i requires 0 <= i < |pairs| => pairs[i].1)
  }

  ghost predicate NoRepeats<T(!new)>(s: seq<T>) {
    forall i, j :: 0 <= i < j < |s| ==> s[i] != s[j]
  }

  predicate Mentions(arch: Arch, register: string, f: Family) {
    !arch.isZero(register) && arch.family(register) != "" && arch.family(register) == f
  }

  /** The position of the first register that names a family. */
  function FirstAt(arch: Arch, registers: seq<string>, f: Family): (k: nat)
    ensures k <= |registers| && (k < |registers| ==> Mentions(arch, registers[k], f))
    ensures forall j :: 0 <= j < k ==> !Mentions(arch, registers[j], f)
  {
    if registers == [] || Mentions(arch, registers[0], f) then 0 else 1 + FirstAt(arch, registers[1..], f)
  }

  predicate Earlier(arch: Arch, registers: seq<string>, f: Family, g: Family) {
    FirstAt(arch, registers, f) < FirstAt(arch, registers, g)
  }

  /** Each pair is a family and the first register that names it. */
  ghost predicate FirstNames(arch: Arch, registers: seq<string>, pairs: Pairs) {
    forall i :: 0 <= i < |pairs| ==>
      var k := FirstAt(arch, registers, pairs[i].0);
      k < |registers| && registers[k] == pairs[i].1
  }

  ghost predicate InOrder(arch: Arch, registers: seq<string>, pairs: Pairs) {
    forall i, j :: 0 <= i < j < |pairs| ==> Earlier(arch, registers, pairs[i].0, pairs[j].0)
  }

  /** Each family of the registers once, with the first register that names it, in the order of first mention. */
  ghost predicate ListsFamilies(arch: Arch, registers: seq<string>, pairs: Pairs) {
    && NoRepeats(Firsts(pairs))
    && (forall f :: f in Firsts(pairs) <==> f in FamilySet(arch, registers))
    && FirstNames(arch, registers, pairs) && InOrder(arch, registers, pairs)
  }

  /** The families first named before position `i`. */
  ghost predicate ListedUpTo(arch: Arch, registers: seq<string>, i: nat, pairs: Pairs) {
    && i <= |registers| && NoRepeats(Firsts(pairs))
    && (forall f :: f in Firsts(pairs) <==> f in FamilySet(arch, registers[..i]))
    && FirstNames(arch, registers, pairs) && InOrder(arch, registers, pairs)
    && forall k :: 0 <= k < |pairs| ==> FirstAt(arch, registers, pairs[k].0) < i
  }

  lemma ListOneMore(arch: Arch, registers: seq<string>, i: nat, pairs: Pairs)
    requires ListedUpTo(arch, registers, i, pairs) && i < |registers|
    ensures var r := registers[i];
            var f := arch.family(r);
            ListedUpTo(arch, registers, i + 1, if Mentions(arch, r, f) && f !in Firsts(pairs) then pairs + [(f, r)]
                else pairs)
  {
    var r := registers[i];
    var f := arch.family(r);
    FamilySetSnoc(arch, registers, i);
    if Mentions(arch, r, f) && f !in Firsts(pairs) {
      FirstsSnoc(pairs, (f, r));
      FirstMention(arch, registers, i);
    }
  }

  method OrderedFamilyRegisters(arch: Arch, registers: seq<string>) returns (pairs: Pairs)
    ensures ListsFamilies(arch, registers, pairs)
  {
    pairs := [];
    var seen: set<Family> := {};
    for i := 0 to |registers|
      invariant ListedUpTo(arch, registers, i, pairs) && forall f :: f in seen <==> f in Firsts(pairs)
    {
      ListOneMore(arch, registers, i, pairs);
      var register := registers[i];
      if arch.isZero(register) { continue; }
      var family := arch.family(register);
      if family != "" && family !in seen {
        FirstsSnoc(pairs, (family, register));
        seen := seen + {family};
        pairs := pairs + [(family, register)];
      }
    }
    assert registers[..|registers|] == registers;
  }

  /** A family not named before is first named here. */
  lemma FirstMention(arch: Arch, registers: seq<string>, i: nat)
    requires i < |registers| && Mentions(arch, registers[i], arch.family(registers[i]))
    requires arch.family(registers[i]) !in FamilySet(arch, registers[..i])
    ensures FirstAt(arch, registers, arch.family(registers[i])) == i
  {
    assert forall j :: 0 <= j < i ==> registers[..i][j] == registers[j];
  }

  lemma FamilySetSnoc(arch: Arch, registers: seq<string>, i: nat)
    requires i < |registers|
    ensures var r := registers[i];
            FamilySet(arch, registers[..i + 1])
            == FamilySet(arch, registers[..i]) + if !arch.isZero(r) && arch.family(r) != "" then {arch.family(r)}
                else {}
  {
    var s, t := registers[..i], registers[..i + 1];
    assert forall k :: 0 <= k < i ==> s[k] == t[k];
    assert t[i] == registers[i];
  }

  lemma FirstsSnoc(pairs: Pairs, p: (Family, string))
    ensures Firsts(pairs + [p]) == Firsts(pairs) + [p.0]
  {}

  // ---- places in a window ----

  /** An operand of an instruction of the window. */
  datatype Place = Place(inst: nat, operand: nat)

  predicate Before(p: Place, q: Place) { p.inst < q.inst || (p.inst == q.inst && p.operand < q.operand) }

  ghost predicate ReadAt(window: seq<Inst>, p: Place, r: string) {
    p.inst < |window| && p.operand < |window[p.inst].readRegisters| && window[p.inst].readRegisters[p.operand] == r
  }

  ghost predicate WriteAt(window: seq<Inst>, p: Place, r: string) {
    p.inst < |window| && p.operand < |window[p.inst].writeRegisters| && window[p.inst].writeRegisters[p.operand] == r
  }

  ghost predicate ReadSomewhere(arch: Arch, window: seq<Inst>, f: Family) {
    exists p, r :: ReadAt(window, p, r) && Mentions(arch, r, f)
  }

  ghost predicate WrittenSomewhere(arch: Arch, window: seq<Inst>, f: Family) {
    exists p, r :: WriteAt(window, p, r) && Mentions(arch, r, f)
  }

  /** The window reads the family as register `r` at `p`, and nowhere before. */
  ghost predicate FirstRead(arch: Arch, window: seq<Inst>, f: Family, p: Place, r: string) {
    && ReadAt(window, p, r) && Mentions(arch, r, f)
    && forall q, r' :: ReadAt(window, q, r') && Before(q, p) ==> !Mentions(arch, r', f)
  }

  ghost predicate FirstWrite(arch: Arch, window: seq<Inst>, f: Family, p: Place, r: string) {
    && WriteAt(window, p, r) && Mentions(arch, r, f)
    && forall q, r' :: WriteAt(window, q, r') && Before(q, p) ==> !Mentions(arch, r', f)
  }

  /** The pair names the family by the register of its first read. */
  ghost predicate FirstReadAs(arch: Arch, window: seq<Inst>, pair: (Family, string)) {
    exists p :: FirstRead(arch, window, pair.0, p, pair.1)
  }

  ghost predicate FirstWriteAs(arch: Arch, window: seq<Inst>, pair: (Family, string)) {
    exists p :: FirstWrite(arch, window, pair.0, p, pair.1)
  }

  /** Some write operand belongs to the family, counting the zero register like any other. */
  ghost predicate Overwrites(arch: Arch, window: seq<Inst>, f: Family) {
    exists p, r :: WriteAt(window, p, r) && arch.family(r) == f
  }

  /** Of two families, the one the window overwrites is listed first, else the one read first. */
  ghost predicate ReadsInOrder(arch: Arch, window: seq<Inst>, f: Family, g: Family) {
    if Overwrites(arch, window, f) <==> Overwrites(arch, window, g) then
      forall p, r, q, r' :: FirstRead(arch, window, f, p, r) && FirstRead(arch, window, g, q, r') ==> Before(p, q)
    else Overwrites(arch, window, f)
  }

  ghost predicate WritesInOrder(arch: Arch, window: seq<Inst>, f: Family, g: Family) {
    forall p, r, q, r' :: FirstWrite(arch, window, f, p, r) && FirstWrite(arch, window, g, q, r') ==> Before(p, q)
  }

  /** The reads that are needed, each with the register of its first read. */
  ghost predicate InputsPlaced(arch: Arch, window: seq<Inst>, needed: set<Family>, pairs: Pairs) {
    && NoRepeats(Firsts(pairs))
    && (forall f :: f in Firsts(pairs) <==> ReadSomewhere(arch, window, f) && f in needed)
    && (forall i :: 0 <= i < |pairs| ==> FirstReadAs(arch, window, pairs[i]))
    && forall i, j :: 0 <= i < j < |pairs| ==> ReadsInOrder(arch, window, pairs[i].0, pairs[j].0)
  }

  /** The writes that are live, each with the register of its first write. */
  ghost predicate OutputsPlaced(arch: Arch, window: seq<Inst>, live: set<Family>, pairs: Pairs) {
    && NoRepeats(Firsts(pairs))
    && (forall f :: f in Firsts(pairs) <==> WrittenSomewhere(arch, window, f) && f in live)
    && (forall i :: 0 <= i < |pairs| ==> FirstWriteAs(arch, window, pairs[i]))
    && forall i, j :: 0 <= i < j < |pairs| ==> WritesInOrder(arch, window, pairs[i].0, pairs[j].0)
  }

  // ---- places and positions in the concatenated operand lists ----

  ghost function Flat(lists: seq<seq<string>>): seq<string> {
    if lists == [] then [] else lists[0] + Flat(lists[1..])
  }

  ghost predicate Inside(lists: seq<seq<string>>, p: Place) { p.inst < |lists| && p.operand < |lists[p.inst]| }

  ghost function Position(lists: seq<seq<string>>, p: Place): nat
    requires Inside(lists, p)
  {
    if p.inst == 0 then p.operand else |lists[0]| + Position(lists[1..], Place(p.inst - 1, p.operand))
  }

  lemma {:induction false} PositionHolds(lists: seq<seq<string>>, p: Place)
    requires Inside(lists, p)
    ensures Position(lists, p) < |Flat(lists)| && Flat(lists)[Position(lists, p)] == lists[p.inst][p.operand]
  {
    if p.inst > 0 { PositionHolds(lists[1..], Place(p.inst - 1, p.operand)); }
  }

  lemma {:induction false} PositionsKeepOrder(lists: seq<seq<string>>, p: Place, q: Place)
    requires Inside(lists, p) && Inside(lists, q)
    ensures Before(p, q) <==> Position(lists, p) < Position(lists, q)
  {
    if p.inst > 0 && q.inst > 0 {
      PositionsKeepOrder(lists[1..], Place(p.inst - 1, p.operand), Place(q.inst - 1, q.operand));
    }
  }

  lemma {:induction false} PlaceOfPosition(lists: seq<seq<string>>, n: nat) returns (p: Place)
    requires n < |Flat(lists)|
    ensures Inside(lists, p) && Position(lists, p) == n
  {
    if n < |lists[0]| {
      p := Place(0, n);
    } else {
      var q := PlaceOfPosition(lists[1..], n - |lists[0]|);
      p := Place(q.inst + 1, q.operand);
    }
  }

  /** The family is first named at this place. */
  ghost predicate FirstPlace(arch: Arch, lists: seq<seq<string>>, f: Family, p: Place) {
    && Inside(lists, p) && Mentions(arch, lists[p.inst][p.operand], f)
    && forall q :: Inside(lists, q) && Before(q, p) ==> !Mentions(arch, lists[q.inst][q.operand], f)
  }

  lemma FirstPlaceIsFirst(arch: Arch, lists: seq<seq<string>>, f: Family, p: Place)
    requires FirstPlace(arch, lists, f, p)
    ensures FirstAt(arch, Flat(lists), f) == Position(lists, p)
  {
    PositionHolds(lists, p);
    var k := FirstAt(arch, Flat(lists), f);
    if k < Position(lists, p) {
      var q := PlaceOfPosition(lists, k);
      PositionHolds(lists, q);
      PositionsKeepOrder(lists, q, p);
    }
  }

  lemma FirstPlaceExists(arch: Arch, lists: seq<seq<string>>, f: Family) returns (p: Place)
    requires FirstAt(arch, Flat(lists), f) < |Flat(lists)|
    ensures FirstPlace(arch, lists, f, p) && lists[p.inst][p.operand] == Flat(lists)[FirstAt(arch, Flat(lists), f)]
  {
    p := PlaceOfPosition(lists, FirstAt(arch, Flat(lists), f));
    PositionHolds(lists, p);
    forall q | Inside(lists, q) && Before(q, p) ensures !Mentions(arch, lists[q.inst][q.operand], f) {
      PositionHolds(lists, q);
      PositionsKeepOrder(lists, q, p);
    }
  }

  /** A family is in the set of the whole list exactly when some place names it. */
  lemma FamilyHasPlace(arch: Arch, lists: seq<seq<string>>, f: Family)
    ensures f in FamilySet(arch, Flat(lists)) <==>
            exists p :: Inside(lists, p) && Mentions(arch, lists[p.inst][p.operand], f)
  {
    if f in FamilySet(arch, Flat(lists)) {
      var k :| 0 <= k < |Flat(lists)| && Mentions(arch, Flat(lists)[k], f);
      var p := PlaceOfPosition(lists, k);
      PositionHolds(lists, p);
    }
    if p :| Inside(lists, p) && Mentions(arch, lists[p.inst][p.operand], f) { PositionHolds(lists, p); }
  }

  ghost function ReadLists(window: seq<Inst>): seq<seq<string>> {
    seq(|window|, k requires 0 <= k < |window| => window[k].readRegisters)
  }

  ghost function WriteLists(window: seq<Inst>): seq<seq<string>> {
    seq(|window|, k requires 0 <= k < |window| => window[k].writeRegisters)
  }

  lemma {:induction false} ReadsAreFlat(window: seq<Inst>)
    ensures AllReads(window) == Flat(ReadLists(window))
  {
    if window != [] {
      ReadsAreFlat(window[1..]);
      assert ReadLists(window)[1..] == ReadLists(window[1..]);
    }
  }

  lemma {:induction false} WritesAreFlat(window: seq<Inst>)
    ensures AllWrites(window) == Flat(WriteLists(window))
  {
    if window != [] {
      WritesAreFlat(window[1..]);
      assert WriteLists(window)[1..] == WriteLists(window[1..]);
    }
  }

  /** The listed reads are those of the operands. */
  lemma ReadFamilies(arch: Arch, window: seq<Inst>, f: Family)
    ensures f in FamilySet(arch, AllReads(window)) <==> ReadSomewhere(arch, window, f)
  {
    var lists := ReadLists(window);
    ReadsAreFlat(window);
    FamilyHasPlace(arch, lists, f);
    if p :| Inside(lists, p) && Mentions(arch, lists[p.inst][p.operand], f) {
      assert ReadAt(window, p, lists[p.inst][p.operand]);
    }
    if p, r :| ReadAt(window, p, r) && Mentions(arch, r, f) { assert Inside(lists, p); }
  }

  lemma WriteFamilies(arch: Arch, window: seq<Inst>, f: Family)
    ensures f in FamilySet(arch, AllWrites(window)) <==> WrittenSomewhere(arch, window, f)
  {
    var lists := WriteLists(window);
    WritesAreFlat(window);
    FamilyHasPlace(arch, lists, f);
    if p :| Inside(lists, p) && Mentions(arch, lists[p.inst][p.operand], f) {
      assert WriteAt(window, p, lists[p.inst][p.operand]);
    }
    if p, r :| WriteAt(window, p, r) && Mentions(arch, r, f) { assert Inside(lists, p); }
  }

  lemma FirstReadIsPlace(arch: Arch, window: seq<Inst>, f: Family, p: Place, r: string)
    ensures FirstRead(arch, window, f, p, r) <==>
            FirstPlace(arch, ReadLists(window), f, p) && ReadLists(window)[p.inst][p.operand] == r
  {
    var lists := ReadLists(window);
    forall q | Inside(lists, q) ensures ReadAt(window, q, lists[q.inst][q.operand]) {}
    forall q, r' | ReadAt(window, q, r') ensures Inside(lists, q) && lists[q.inst][q.operand] == r' {}
  }

  lemma FirstWriteIsPlace(arch: Arch, window: seq<Inst>, f: Family, p: Place, r: string)
    ensures FirstWrite(arch, window, f, p, r) <==>
            FirstPlace(arch, WriteLists(window), f, p) && WriteLists(window)[p.inst][p.operand] == r
  {
    var lists := WriteLists(window);
    forall q | Inside(lists, q) ensures WriteAt(window, q, lists[q.inst][q.operand]) {}
    forall q, r' | WriteAt(window, q, r') ensures Inside(lists, q) && lists[q.inst][q.operand] == r' {}
  }

  /** First names in the concatenated list are first names at a place. */
  lemma NamedAtPlace(arch: Arch, lists: seq<seq<string>>, pairs: Pairs, i: nat) returns (p: Place)
    requires FirstNames(arch, Flat(lists), pairs) && i < |pairs|
    ensures FirstPlace(arch, lists, pairs[i].0, p) && lists[p.inst][p.operand] == pairs[i].1
  {
    p := FirstPlaceExists(arch, lists, pairs[i].0);
  }

  /** The order of first mention is the order of the first places. */
  lemma EarlierIsBefore(arch: Arch, lists: seq<seq<string>>, f: Family, g: Family, p: Place, q: Place)
    requires FirstPlace(arch, lists, f, p) && FirstPlace(arch, lists, g, q)
    ensures Earlier(arch, Flat(lists), f, g) <==> Before(p, q)
  {
    FirstPlaceIsFirst(arch, lists, f, p);
    FirstPlaceIsFirst(arch, lists, g, q);
    PositionsKeepOrder(lists, p, q);
  }

  // ---- the backward slice ----

  /** The families the window's last instruction reads and that are condition codes. */
  function ConditionReads(arch: Arch, last: Inst): set<Family> {
    set f | f in FamilySet(arch, last.readRegisters) && arch.isCondition(f)
  }

  /** What must agree before instruction `k` so that `seed` agrees at the end. */
  function Needed(arch: Arch, window: seq<Inst>, terminal: bool, seed: set<Family>, k: nat): set<Family>
    requires k <= |window|
    decreases |window| - k
  {
    if k == |window| then seed else
    var n := Needed(arch, window, terminal, seed, k + 1);
    if Writes(arch, window[k]) * n != {} then (n - Writes(arch, window[k])) + Reads(arch, window[k])
    else if terminal && k == |window| - 1 then n + Reads(arch, window[k])
    else n
  }

  function AllReads(window: seq<Inst>): seq<string> {
    if window == [] then [] else window[0].readRegisters + AllReads(window[1..])
  }

  function AllWrites(window: seq<Inst>): seq<string> {
    if window == [] then [] else window[0].writeRegisters + AllWrites(window[1..])
  }

  ghost predicate CallFree(window: seq<Inst>) {
    forall k :: 0 <= k < |window| ==> window[k].flow != Call
  }

  /** The slice keeps instruction `k`. */
  predicate Takes(arch: Arch, window: seq<Inst>, terminal: bool, seed: set<Family>, k: nat)
    requires k < |window|
  {
    Writes(arch, window[k]) * Needed(arch, window, terminal, seed, k + 1) != {} || (terminal && k == |window| - 1)
  }

  predicate Unwritten(arch: Arch, window: seq<Inst>, f: Family, i: nat, j: nat) {
    i <= j <= |window| && forall k :: i <= k < j ==> f !in Writes(arch, window[k])
  }

  ghost predicate ReadFirst(arch: Arch, window: seq<Inst>, terminal: bool, seed: set<Family>, f: Family, k: nat) {
    exists j :: k <= j < |window| && Takes(arch, window, terminal, seed, j) && f in Reads(arch, window[j])
        && Unwritten(arch, window, f, k, j)
  }

  /** A needed family is read by an instruction the slice takes, or seeded, and not written before that. */
  lemma {:induction false} NeededOrigin(arch: Arch, window: seq<Inst>, terminal: bool, seed: set<Family>, k: nat,
      f: Family)
    requires k <= |window| && f in Needed(arch, window, terminal, seed, k)
    ensures ReadFirst(arch, window, terminal, seed, f, k) || (f in seed && Unwritten(arch, window, f, k, |window|))
    decreases |window| - k
  {
    if k < |window| {
      var w, n := Writes(arch, window[k]), Needed(arch, window, terminal, seed, k + 1);
      assert forall g :: g in w && g in n ==> g in w * n;
      if f in Reads(arch, window[k]) && Takes(arch, window, terminal, seed, k) {
        assert Unwritten(arch, window, f, k, k);
      } else {
        assert f in n && f !in w;
        NeededOrigin(arch, window, terminal, seed, k + 1, f);
        if ReadFirst(arch, window, terminal, seed, f, k + 1) { ReadLater(arch, window, terminal, seed, f, k); }
      }
    }
  }

  lemma ReadLater(arch: Arch, window: seq<Inst>, terminal: bool, seed: set<Family>, f: Family, k: nat)
    requires k < |window| && f !in Writes(arch, window[k]) && ReadFirst(arch, window, terminal, seed, f, k + 1)
    ensures ReadFirst(arch, window, terminal, seed, f, k)
  {
    var j :| k + 1 <= j < |window| && Takes(arch, window, terminal, seed, j) && f in Reads(arch, window[j])
             && Unwritten(arch, window, f, k + 1, j);
    assert Unwritten(arch, window, f, k, j);
  }

  /** Back from where it is needed to where it was last written. */
  lemma {:induction false} NeededBack(arch: Arch, window: seq<Inst>, terminal: bool, seed: set<Family>, i: nat, j: nat,
      f: Family)
    requires Unwritten(arch, window, f, i, j) && f in Needed(arch, window, terminal, seed, j)
    ensures f in Needed(arch, window, terminal, seed, i)
  {
    if i < j { NeededBack(arch, window, terminal, seed, i, j - 1, f); }
  }

  lemma {:induction false} ReadsAreListed(arch: Arch, window: seq<Inst>, j: nat)
    requires j < |window|
    ensures FamilySet(arch, window[j].readRegisters) <= FamilySet(arch, AllReads(window))
    decreases |window|
  {
    var all := AllReads(window);
    if j == 0 {
      FamilySetConcat(arch, window[0].readRegisters, AllReads(window[1..]));
    } else {
      ReadsAreListed(arch, window[1..], j - 1);
      FamilySetConcat(arch, window[0].readRegisters, AllReads(window[1..]));
    }
  }

  lemma {:induction false} WritesAreListed(arch: Arch, window: seq<Inst>, f: Family)
    ensures f in FamilySet(arch, AllWrites(window)) ==> exists j :: 0 <= j < |window| && f in Writes(arch, window[j])
    ensures CallFree(window) && (exists j :: 0 <= j < |window| && f in Writes(arch, window[j])) ==>
            f in FamilySet(arch, AllWrites(window))
    decreases |window|
  {
    if window != [] {
      WritesAreListed(arch, window[1..], f);
      FamilySetConcat(arch, window[0].writeRegisters, AllWrites(window[1..]));
      if exists j :: 0 <= j < |window[1..]| && f in Writes(arch, window[1..][j]) {
        var j :| 0 <= j < |window[1..]| && f in Writes(arch, window[1..][j]);
        assert f in Writes(arch, window[j + 1]);
      }
      if exists j :: 0 <= j < |window| && f in Writes(arch, window[j]) {
        var j :| 0 <= j < |window| && f in Writes(arch, window[j]);
        if j > 0 { assert f in Writes(arch, window[1..][j - 1]); }
      }
    }
  }

  lemma FamilySetConcat(arch: Arch, a: seq<string>, b: seq<string>)
    ensures FamilySet(arch, a + b) == FamilySet(arch, a) + FamilySet(arch, b)
  {
    var c := a + b;
    forall f | f in FamilySet(arch, c) ensures f in FamilySet(arch, a) + FamilySet(arch, b) {
      var k :| 0 <= k < |c| && !arch.isZero(c[k]) && arch.family(c[k]) != "" && f == arch.family(c[k]);
      if k < |a| { assert c[k] == a[k]; } else { assert c[k] == b[k - |a|]; }
    }
    forall f | f in FamilySet(arch, a) ensures f in FamilySet(arch, c) {
      var k :| 0 <= k < |a| && !arch.isZero(a[k]) && arch.family(a[k]) != "" && f == arch.family(a[k]);
      assert c[k] == a[k];
    }
    forall f | f in FamilySet(arch, b) ensures f in FamilySet(arch, c) {
      var k :| 0 <= k < |b| && !arch.isZero(b[k]) && arch.family(b[k]) != "" && f == arch.family(b[k]);
      assert c[|a| + k] == b[k];
    }
  }

  // ---- the inferred surface ----

  /** Output families: written in the window and live after it. */
  function Outputs(arch: Arch, window: seq<Inst>, liveOut: set<Family>): set<Family> {
    FamilySet(arch, AllWrites(window)) * liveOut
  }

  /** What the slice starts from. */
  function Seed(arch: Arch, window: seq<Inst>, liveOut: set<Family>): set<Family>
    requires window != []
  {
    var last := window[|window| - 1];
    Outputs(arch, window, liveOut) + if last.flow == Conditional then ConditionReads(arch, last) else {}
  }

  predicate Terminal(window: seq<Inst>)
    requires window != []
  {
    window[|window| - 1].flow == Conditional
  }

  function InputNeed(arch: Arch, window: seq<Inst>, liveOut: set<Family>): set<Family>
    requires window != []
  {
    Needed(arch, window, window[|window| - 1].flow == Conditional, Seed(arch, window, liveOut), 0)
  }

  /** The index holds the register effects the analysis computed, and which control flow it could not resolve. */
  ghost predicate Indexed(arch: Arch, index: map<int, Entry>, window: seq<Inst>) {
    forall k :: 0 <= k < |window| && window[k].address in index ==>
      var entry := index[window[k].address];
      && entry.readSet == Reads(arch, window[k]) && entry.writeSet == Writes(arch, window[k])
      && entry.unsupported == window[k].unresolved
  }

  ghost predicate Supported(index: map<int, Entry>, window: seq<Inst>) {
    forall k :: 0 <= k < |window| ==> window[k].address in index && !index[window[k].address].unsupported
  }

  /** The pairs kept of the first `i`. */
  ghost predicate SelectedUpTo(arch: Arch, registers: seq<string>, pairs: Pairs, keep: set<Family>, i: nat,
      selected: Pairs)
  {
    && i <= |pairs| && NoRepeats(Firsts(selected))
    && (forall f :: f in Firsts(selected) <==> f in Firsts(pairs)[..i] && f in keep)
    && FirstNames(arch, registers, selected) && InOrder(arch, registers, selected)
    && forall k, j :: 0 <= k < |selected| && i <= j < |pairs| ==>
         Earlier(arch, registers, selected[k].0, pairs[j].0)
  }

  lemma SelectSkips(arch: Arch, registers: seq<string>, pairs: Pairs, keep: set<Family>, i: nat, selected: Pairs)
    requires i < |pairs| && SelectedUpTo(arch, registers, pairs, keep, i, selected) && pairs[i].0 !in keep
    ensures SelectedUpTo(arch, registers, pairs, keep, i + 1, selected)
  {
    assert Firsts(pairs)[..i + 1] == Firsts(pairs)[..i] + [pairs[i].0];
  }

  lemma SelectTakes(arch: Arch, registers: seq<string>, pairs: Pairs, keep: set<Family>, i: nat, selected: Pairs)
    requires ListsFamilies(arch, registers, pairs) && i < |pairs| && pairs[i].0 in keep
    requires SelectedUpTo(arch, registers, pairs, keep, i, selected)
    ensures SelectedUpTo(arch, registers, pairs, keep, i + 1, selected + [pairs[i]])
  {
    var all, more := Firsts(pairs), selected + [pairs[i]];
    assert all[..i + 1] == all[..i] + [all[i]] && all[i] !in all[..i];
    FirstsSnoc(selected, pairs[i]);
    forall k, j | 0 <= k < |more| && i + 1 <= j < |pairs| ensures Earlier(arch, registers, more[k].0, pairs[j].0) {
      assert k < |selected| ==> more[k] == selected[k];
    }
    forall k, j | 0 <= k < j < |more| ensures Earlier(arch, registers, more[k].0, more[j].0) {
      assert more[k] == selected[k] && (j < |selected| ==> more[j] == selected[j]);
    }
  }

  /** The pairs kept are those whose family is in `keep`, in order. */
  method SelectFamilies(arch: Arch, registers: seq<string>, pairs: Pairs, keep: set<Family>) returns (selected: Pairs)
    requires ListsFamilies(arch, registers, pairs)
    ensures NoRepeats(Firsts(selected))
    ensures forall f :: f in Firsts(selected) <==> f in FamilySet(arch, registers) && f in keep
    ensures FirstNames(arch, registers, selected) && InOrder(arch, registers, selected)
  {
    selected := [];
    for i := 0 to |pairs|
      invariant SelectedUpTo(arch, registers, pairs, keep, i, selected)
    {
      if pairs[i].0 in keep {
        SelectTakes(arch, registers, pairs, keep, i, selected);
        selected := selected + [pairs[i]];
      } else {
        SelectSkips(arch, registers, pairs, keep, i, selected);
      }
    }
    assert Firsts(pairs)[..|pairs|] == Firsts(pairs);
  }

  function WrittenFamilies(arch: Arch, window: seq<Inst>): set<Family> {
    set w | w in AllWrites(window) :: arch.family(w)
  }

  /** Written families first, and each group in the order of first mention. */
  ghost predicate InInputOrder(arch: Arch, window: seq<Inst>, pairs: Pairs) {
    forall i, j :: 0 <= i < j < |pairs| ==>
      var f, g := pairs[i].0, pairs[j].0;
      var written := WrittenFamilies(arch, window);
      if f in written <==> g in written then Earlier(arch, AllReads(window), f, g) else f in written
  }

  /** Inputs that the window also writes come first. */
  method OrderedInputRegisters(arch: Arch, window: seq<Inst>, needed: set<Family>) returns (pairs: Pairs)
    ensures InputsPlaced(arch, window, needed, pairs)
  {
    var allReads, writeFamilies := AllReads(window), WrittenFamilies(arch, window);
    var ordered := OrderedFamilyRegisters(arch, allReads);
    var written := SelectFamilies(arch, allReads, ordered, needed * writeFamilies);
    var rest := SelectFamilies(arch, allReads, ordered, needed - writeFamilies);
    InputsInOrder(arch, window, written, rest);
    pairs := written + rest;
    InputsArePlaced(arch, window, needed, pairs);
  }

  lemma OverwritesIff(arch: Arch, window: seq<Inst>, f: Family)
    ensures f in WrittenFamilies(arch, window) <==> Overwrites(arch, window, f)
  {
    var lists := WriteLists(window);
    WritesAreFlat(window);
    if f in WrittenFamilies(arch, window) {
      var k :| 0 <= k < |Flat(lists)| && arch.family(Flat(lists)[k]) == f;
      var p := PlaceOfPosition(lists, k);
      PositionHolds(lists, p);
      assert WriteAt(window, p, lists[p.inst][p.operand]);
    }
    if p, r :| WriteAt(window, p, r) && arch.family(r) == f {
      assert Inside(lists, p);
      PositionHolds(lists, p);
    }
  }

  lemma InputsArePlaced(arch: Arch, window: seq<Inst>, needed: set<Family>, pairs: Pairs)
    requires NoRepeats(Firsts(pairs)) && FirstNames(arch, AllReads(window), pairs) && InInputOrder(arch, window, pairs)
    requires forall f :: f in Firsts(pairs) <==> f in FamilySet(arch, AllReads(window)) && f in needed
    ensures InputsPlaced(arch, window, needed, pairs)
  {
    var lists := ReadLists(window);
    ReadsAreFlat(window);
    forall f ensures f in Firsts(pairs) <==> ReadSomewhere(arch, window, f) && f in needed {
      ReadFamilies(arch, window, f);
    }
    forall i | 0 <= i < |pairs| ensures FirstReadAs(arch, window, pairs[i]) {
      var p := NamedAtPlace(arch, lists, pairs, i);
      FirstReadIsPlace(arch, window, pairs[i].0, p, pairs[i].1);
    }
    forall i, j | 0 <= i < j < |pairs| ensures ReadsInOrder(arch, window, pairs[i].0, pairs[j].0) {
      ReadsStayInOrder(arch, window, pairs, i, j);
    }
  }

  lemma ReadsStayInOrder(arch: Arch, window: seq<Inst>, pairs: Pairs, i: nat, j: nat)
    requires InInputOrder(arch, window, pairs) && i < j < |pairs|
    ensures ReadsInOrder(arch, window, pairs[i].0, pairs[j].0)
  {
    var f, g := pairs[i].0, pairs[j].0;
    ReadsAreFlat(window);
    OverwritesIff(arch, window, f);
    OverwritesIff(arch, window, g);
    forall p, r, q, r' | FirstRead(arch, window, f, p, r) && FirstRead(arch, window, g, q, r')
      ensures Earlier(arch, AllReads(window), f, g) <==> Before(p, q)
    {
      FirstReadIsPlace(arch, window, f, p, r);
      FirstReadIsPlace(arch, window, g, q, r');
      EarlierIsBefore(arch, ReadLists(window), f, g, p, q);
    }
  }

  lemma InputsInOrder(arch: Arch, window: seq<Inst>, written: Pairs, rest: Pairs)
    requires NoRepeats(Firsts(written)) && NoRepeats(Firsts(rest))
    requires forall f :: f in Firsts(written) ==> f in WrittenFamilies(arch, window)
    requires forall f :: f in Firsts(rest) ==> f !in WrittenFamilies(arch, window)
    requires InOrder(arch, AllReads(window), written) && InOrder(arch, AllReads(window), rest)
    ensures var pairs := written + rest;
            && NoRepeats(Firsts(pairs)) && Firsts(pairs) == Firsts(written) + Firsts(rest)
            && InInputOrder(arch, window, pairs)
  {
    var pairs, w := written + rest, WrittenFamilies(arch, window);
    assert Firsts(pairs) == Firsts(written) + Firsts(rest);
    forall i | 0 <= i < |pairs| ensures pairs[i].0 in w <==> i < |written| {
      if i < |written| { assert Firsts(written)[i] in w; } else { assert Firsts(rest)[i - |written|] !in w; }
    }
    forall i, j | 0 <= i < j < |pairs| ensures Firsts(pairs)[i] != Firsts(pairs)[j] {
      assert pairs[i].0 in w <==> i < |written|;
      assert pairs[j].0 in w <==> j < |written|;
      if j < |written| { assert Firsts(written)[i] != Firsts(written)[j]; }
      else if i >= |written| { assert Firsts(rest)[i - |written|] != Firsts(rest)[j - |written|]; }
    }
  }

  method BackwardSlice(arch: Arch, index: map<int, Entry>, window: seq<Inst>, terminal: bool, seed: set<Family>)
    returns (needed: set<Family>)
    requires Indexed(arch, index, window) && Supported(index, window)
    ensures needed == Needed(arch, window, terminal, seed, 0)
  {
    needed := seed;
    for k := |window| downto 0
      invariant needed == Needed(arch, window, terminal, seed, k)
    {
      var entry := index[window[k].address];
      if entry.writeSet * needed != {} {
        needed := (needed - entry.writeSet) + entry.readSet;
      } else if terminal && k == |window| - 1 {
        needed := needed + entry.readSet;
      }
    }
  }

  /** A write of a family that is neither an output nor a condition code. */
  ghost predicate DeadAt(arch: Arch, window: seq<Inst>, outputs: set<Family>, p: Place) {
    exists r :: WriteAt(window, p, r) && arch.family(r) !in outputs && !arch.isCondition(arch.family(r))
  }

  /** The listed registers are those at the listed places, which come in order. */
  ghost predicate ListsWrites(window: seq<Inst>, registers: seq<string>, places: seq<Place>) {
    && |places| == |registers|
    && (forall i :: 0 <= i < |places| ==> WriteAt(window, places[i], registers[i]))
    && forall i, j :: 0 <= i < j < |places| ==> Before(places[i], places[j])
  }

  /** The dead writes before `end`, in order. */
  ghost predicate DeadUpTo(arch: Arch, window: seq<Inst>, outputs: set<Family>, end: Place, dead: seq<string>,
      places: seq<Place>)
  {
    && ListsWrites(window, dead, places)
    && forall p :: p in places <==> DeadAt(arch, window, outputs, p) && Before(p, end)
  }

  /** The registers of all dead writes, in order. */
  ghost predicate ListsDead(arch: Arch, window: seq<Inst>, outputs: set<Family>, dead: seq<string>) {
    exists places ::
      ListsWrites(window, dead, places) && forall p :: p in places <==> DeadAt(arch, window, outputs, p)
  }

  /** Registers written but neither observed after the window nor condition codes. */
  method DeadWrites(arch: Arch, window: seq<Inst>, outputs: set<Family>) returns (dead: seq<string>)
    ensures ListsDead(arch, window, outputs, dead)
  {
    dead := [];
    ghost var places := [];
    for i := 0 to |window|
      invariant DeadUpTo(arch, window, outputs, Place(i, 0), dead, places)
    {
      var registers := window[i].writeRegisters;
      for j := 0 to |registers|
        invariant DeadUpTo(arch, window, outputs, Place(i, j), dead, places)
      {
        DeadOneMore(arch, window, outputs, Place(i, j), dead, places);
        var family := arch.family(registers[j]);
        if family !in outputs && !arch.isCondition(family) {
          dead, places := dead + [registers[j]], places + [Place(i, j)];
        }
      }
      forall p ensures DeadAt(arch, window, outputs, p) && Before(p, Place(i, |registers|)) <==>
                       DeadAt(arch, window, outputs, p) && Before(p, Place(i + 1, 0)) {}
    }
    assert forall p :: DeadAt(arch, window, outputs, p) ==> Before(p, Place(|window|, 0));
  }

  lemma DeadOneMore(arch: Arch, window: seq<Inst>, outputs: set<Family>, end: Place, dead: seq<string>,
      places: seq<Place>)
    requires end.inst < |window| && end.operand < |window[end.inst].writeRegisters|
    requires DeadUpTo(arch, window, outputs, end, dead, places)
    ensures var r := window[end.inst].writeRegisters[end.operand];
            var next := Place(end.inst, end.operand + 1);
            if arch.family(r) !in outputs && !arch.isCondition(arch.family(r)) then
              DeadUpTo(arch, window, outputs, next, dead + [r], places + [end])
            else DeadUpTo(arch, window, outputs, next, dead, places)
  {
    var r := window[end.inst].writeRegisters[end.operand];
    var next := Place(end.inst, end.operand + 1);
    assert WriteAt(window, end, r);
    assert forall p :: Before(p, next) <==> Before(p, end) || p == end;
    assert DeadAt(arch, window, outputs, end) <==> arch.family(r) !in outputs && !arch.isCondition(arch.family(r));
    forall i | 0 <= i < |places| ensures Before(places[i], end) { assert places[i] in places; }
  }

  /** Registers and families paired up again. */
  function Paired(families: seq<Family>, registers: seq<string>): Pairs
    requires |families| == |registers|
  {
    seq(|families|, i requires 0 <= i < |families| => (families[i], registers[i]))
  }

  lemma PairedAgain(pairs: Pairs)
    ensures Paired(Firsts(pairs), Seconds(pairs)) == pairs
  {}

  /** An emitted surface lists each input and output family once, with the first register that names it, in a fixed
      order. */
  ghost predicate Describes(arch: Arch, window: seq<Inst>, liveOut: set<Family>, s: Surface)
    requires window != []
  {
    && s.Emitted? && |s.inputs| == |s.inputFamilies| && |s.outputs| == |s.outputFamilies|
    && InputsPlaced(arch, window, InputNeed(arch, window, liveOut), Paired(s.inputFamilies, s.inputs))
    && OutputsPlaced(arch, window, liveOut, Paired(s.outputFamilies, s.outputs))
    && ListsDead(arch, window, (set f | f in s.outputFamilies), s.deadWrites)
    && s.kind == if window[|window| - 1].flow == Conditional && s.outputFamilies == [] then "branch" else "register"
  }

  ghost predicate NeedsConditionCode(arch: Arch, window: seq<Inst>, liveOut: set<Family>)
    requires window != []
  {
    exists f :: f in InputNeed(arch, window, liveOut) && arch.isCondition(f)
  }

  method Infer(arch: Arch, index: map<int, Entry>, window: seq<Inst>) returns (s: Surface)
    requires Indexed(arch, index, window)
    ensures window == [] ==> s == Skipped("no_verifiable_surface")
    ensures window != [] && !Supported(index, window) ==> s == Skipped("missing_liveness_surface")
    ensures window != [] && Supported(index, window) ==>
      var last := window[|window| - 1];
      var liveOut := index[last.address].liveOut;
      if NeedsConditionCode(arch, window, liveOut) then s == Skipped("external_live_condition_code_dependency")
      else if Outputs(arch, window, liveOut) == {} && last.flow != Conditional then
        s == Skipped("no_verifiable_surface")
      else Describes(arch, window, liveOut, s)
  {
    if window == [] { return Skipped("no_verifiable_surface"); }
    var ready := AllSupported(index, window);
    if !ready { return Skipped("missing_liveness_surface"); }
    var last := window[|window| - 1];
    var liveOut, terminal := index[last.address].liveOut, last.flow == Conditional;
    var outputs := OutputPairs(arch, window, liveOut);
    var seed := Outputs(arch, window, liveOut) + if terminal then ConditionReads(arch, last) else {};
    var needed := BackwardSlice(arch, index, window, terminal, seed);
    if exists f :: f in needed && arch.isCondition(f) { return Skipped("external_live_condition_code_dependency"); }
    var inputs := OrderedInputRegisters(arch, window, needed);
    if outputs == [] && !terminal { return Skipped("no_verifiable_surface"); }
    PairedAgain(inputs);
    PairedAgain(outputs);
    var outputFamilies := Firsts(outputs);
    var dead := DeadWrites(arch, window, (set f | f in outputFamilies));
    s := Emitted(Seconds(inputs), Seconds(outputs), Firsts(inputs), outputFamilies, dead,
                 if terminal && outputs == [] then "branch" else "register");
  }

  method OutputPairs(arch: Arch, window: seq<Inst>, liveOut: set<Family>) returns (outputs: Pairs)
    ensures OutputsPlaced(arch, window, liveOut, outputs)
    ensures outputs == [] <==> Outputs(arch, window, liveOut) == {}
  {
    var defs := OrderedFamilyRegisters(arch, AllWrites(window));
    outputs := SelectFamilies(arch, AllWrites(window), defs, liveOut);
    OutputsArePlaced(arch, window, liveOut, outputs);
    if outputs != [] { assert Firsts(outputs)[0] in Outputs(arch, window, liveOut); }
  }

  lemma OutputsArePlaced(arch: Arch, window: seq<Inst>, live: set<Family>, pairs: Pairs)
    requires NoRepeats(Firsts(pairs)) && FirstNames(arch, AllWrites(window), pairs)
    requires InOrder(arch, AllWrites(window), pairs)
    requires forall f :: f in Firsts(pairs) <==> f in FamilySet(arch, AllWrites(window)) && f in live
    ensures OutputsPlaced(arch, window, live, pairs)
  {
    var lists := WriteLists(window);
    WritesAreFlat(window);
    forall f ensures f in Firsts(pairs) <==> WrittenSomewhere(arch, window, f) && f in live {
      WriteFamilies(arch, window, f);
    }
    forall i | 0 <= i < |pairs| ensures FirstWriteAs(arch, window, pairs[i]) {
      var p := NamedAtPlace(arch, lists, pairs, i);
      FirstWriteIsPlace(arch, window, pairs[i].0, p, pairs[i].1);
    }
    forall i, j | 0 <= i < j < |pairs| ensures WritesInOrder(arch, window, pairs[i].0, pairs[j].0) {
      WritesStayInOrder(arch, window, pairs, i, j);
    }
  }

  lemma WritesStayInOrder(arch: Arch, window: seq<Inst>, pairs: Pairs, i: nat, j: nat)
    requires InOrder(arch, AllWrites(window), pairs) && i < j < |pairs|
    ensures WritesInOrder(arch, window, pairs[i].0, pairs[j].0)
  {
    var f, g := pairs[i].0, pairs[j].0;
    WritesAreFlat(window);
    forall p, r, q, r' | FirstWrite(arch, window, f, p, r) && FirstWrite(arch, window, g, q, r') ensures Before(p, q) {
      FirstWriteIsPlace(arch, window, f, p, r);
      FirstWriteIsPlace(arch, window, g, q, r');
      EarlierIsBefore(arch, WriteLists(window), f, g, p, q);
    }
  }

  method AllSupported(index: map<int, Entry>, window: seq<Inst>) returns (ok: bool)
    ensures ok <==> Supported(index, window)
  {
    for k := 0 to |window|
      invariant forall j :: 0 <= j < k ==> window[j].address in index && !index[window[j].address].unsupported
    {
      if window[k].address !in index || index[window[k].address].unsupported { return false; }
    }
    ok := true;
  }

  /** Every argument family of a call that the slice takes is named by some read operand, or written before the call. */
  predicate CallArgumentsCovered(arch: Arch, window: seq<Inst>, terminal: bool, seed: set<Family>) {
    forall k, f :: 0 <= k < |window| && f in arch.callArguments && CallTakes(arch, window, terminal, seed, k, f) ==>
      f in FamilySet(arch, AllReads(window))
  }

  /** The slice takes a call that passes on the value a family had at entry. */
  predicate CallTakes(arch: Arch, window: seq<Inst>, terminal: bool, seed: set<Family>, k: nat, f: Family)
    requires k < |window|
  {
    window[k].flow == Call && Takes(arch, window, terminal, seed, k) && Unwritten(arch, window, f, 0, k)
  }

  lemma SeedIsListed(arch: Arch, window: seq<Inst>, liveOut: set<Family>, f: Family)
    requires window != [] && f in Seed(arch, window, liveOut) && Unwritten(arch, window, f, 0, |window|)
    ensures f in FamilySet(arch, AllReads(window))
  {
    UnwrittenIsNoOutput(arch, window, liveOut, f);
    NotOutputIsCondition(arch, window, liveOut, f);
    MemberListed(arch, window, |window| - 1, f);
  }

  lemma MemberListed(arch: Arch, window: seq<Inst>, j: nat, f: Family)
    requires j < |window| && f in FamilySet(arch, window[j].readRegisters)
    ensures f in FamilySet(arch, AllReads(window))
  {
    ReadsAreListed(arch, window, j);
  }

  lemma NotOutputIsCondition(arch: Arch, window: seq<Inst>, liveOut: set<Family>, f: Family)
    requires window != [] && f in Seed(arch, window, liveOut) && f !in Outputs(arch, window, liveOut)
    ensures f in FamilySet(arch, window[|window| - 1].readRegisters)
  {
    assert f in ConditionReads(arch, window[|window| - 1]);
  }

  lemma UnwrittenIsNoOutput(arch: Arch, window: seq<Inst>, liveOut: set<Family>, f: Family)
    requires Unwritten(arch, window, f, 0, |window|)
    ensures f !in Outputs(arch, window, liveOut)
  {
    WritesAreListed(arch, window, f);
  }

  lemma CoveredIsListed(arch: Arch, window: seq<Inst>, liveOut: set<Family>, f: Family)
    requires window != [] && f in InputNeed(arch, window, liveOut)
    requires CallArgumentsCovered(arch, window, Terminal(window), Seed(arch, window, liveOut))
    ensures f in FamilySet(arch, AllReads(window))
  {
    var terminal, seed := Terminal(window), Seed(arch, window, liveOut);
    NeededOrigin(arch, window, terminal, seed, 0, f);
    if ReadFirst(arch, window, terminal, seed, f, 0) {
      var j :| 0 <= j < |window| && Takes(arch, window, terminal, seed, j) && f in Reads(arch, window[j])
               && Unwritten(arch, window, f, 0, j);
      ReadsAreListed(arch, window, j);
      if window[j].flow == Call { assert CallTakes(arch, window, terminal, seed, j, f); }
    } else {
      SeedIsListed(arch, window, liveOut, f);
    }
  }

  /** The listed inputs are the whole slice exactly when the arguments of the calls it takes are covered. */
  lemma SliceIsListedIff(arch: Arch, window: seq<Inst>, liveOut: set<Family>)
    requires window != []
    ensures InputNeed(arch, window, liveOut) <= FamilySet(arch, AllReads(window))
            <==> CallArgumentsCovered(arch, window, Terminal(window), Seed(arch, window, liveOut))
  {
    var terminal, seed := Terminal(window), Seed(arch, window, liveOut);
    if CallArgumentsCovered(arch, window, terminal, seed) {
      forall f | f in InputNeed(arch, window, liveOut) ensures f in FamilySet(arch, AllReads(window)) {
        CoveredIsListed(arch, window, liveOut, f);
      }
    } else {
      var k, f :| 0 <= k < |window| && f in arch.callArguments && CallTakes(arch, window, terminal, seed, k, f)
                  && f !in FamilySet(arch, AllReads(window));
      assert f in Reads(arch, window[k]);
      NeededBack(arch, window, terminal, seed, 0, k, f);
    }
  }

  /** In a call-free window there is nothing to cover. */
  lemma SliceIsListed(arch: Arch, window: seq<Inst>, liveOut: set<Family>)
    requires window != [] && CallFree(window)
    ensures InputNeed(arch, window, liveOut) <= FamilySet(arch, AllReads(window))
  {
    SliceIsListedIff(arch, window, liveOut);
  }

  /** A call of its own: the argument registers it reads implicitly are needed, and no register operand lists them. */
  lemma CallArgumentsAreMissed(arch: Arch, window: seq<Inst>, liveOut: set<Family>)
    requires |window| == 1 && window[0].flow == Call && window[0].readRegisters == []
    requires Outputs(arch, window, liveOut) != {} && arch.callArguments != {}
    ensures InputNeed(arch, window, liveOut)
            == arch.callArguments + (Seed(arch, window, liveOut) - Writes(arch, window[0]))
    ensures !(InputNeed(arch, window, liveOut) <= FamilySet(arch, AllReads(window)))
  {
    var seed := Seed(arch, window, liveOut);
    var f :| f in Outputs(arch, window, liveOut);
    var rest := window[1..];
    assert rest == [] && AllReads(rest) == [] && AllWrites(rest) == [];
    assert AllWrites(window) == window[0].writeRegisters && AllReads(window) == [];
    assert f in Writes(arch, window[0]) * seed;
    assert Needed(arch, window, false, seed, 1) == seed;
    assert FamilySet(arch, []) == {} && Reads(arch, window[0]) == arch.callArguments;
    var g :| g in arch.callArguments;
    assert g in InputNeed(arch, window, liveOut);
  }
}
