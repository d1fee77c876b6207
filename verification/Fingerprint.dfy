/**
 Structured rule fingerprints. The encoding is factored into a canonical renaming of the placeholders
 (first occurrence order, one counter per namespace) followed by a stateless flattening into tuples.
 */
module Fingerprint {
  import opened Wrappers
  import opened RuleAst

  /** The values a fingerprint tuple holds. */
  datatype Fp = Int(n: int) | Str(s: string) | Nil | Tup(items: seq<Fp>)

  const GUEST_MARKER := 0
  const HOST_MARKER := 1
  const TAG_REG := 10
  const TAG_IMM := 11
  const TAG_TMP := 12
  const TAG_LIT := 13
  const TAG_LABEL := 14
  const TAG_REGTEXT := 15
  const TAG_REGVIEW := 16
  const TAG_GUEST_REGVIEW := 17
  const TAG_BITSLICE := 18
  const TAG_EXT := 19
  const TAG_SAVE := 20
  const TAG_RESTORE := 21
  const TAG_META_BLOCK := 22
  const TAG_POST_META_BLOCK := 23
  const TAG_MEMORY := 24
  const TAG_ADDRESS := 25
  const TAG_READWRITE := 26
  const SYN_HASH := 30
  const SYN_NEG := 31

  // ---- flattening ----

  function Text(t: string): seq<Fp> { if t == "" then [] else [Str(t)] }

  function Flag(on: bool, tag: int): seq<Fp> { if on then [Int(tag)] else [] }

  function EncodeExpr(e: ImmExpr): Fp {
    match e
    case ImmRef(id) => Tup([Str("imm-ref"), Int(id)])
    case IntLit(v) => Tup([Str("int"), Int(v)])
    case Neg(a) => Tup([Str("neg"), EncodeExpr(a)])
    case BitOr(l, r) => Tup([Str("or"), EncodeExpr(l), EncodeExpr(r)])
    case ShiftLeft(l, r) => Tup([Str("shl"), EncodeExpr(l), EncodeExpr(r)])
    case Log2(a) => Tup([Str("log2"), EncodeExpr(a)])
    case RawImm(t) => Tup([Str("raw")] + Text(t))
  }

  function EncodeOp(op: Operand): seq<Fp>
    decreases op
  {
    match op
    case RegOp(p, b, id) => [Int(TAG_REG), Int(id), Str(p), Int(b)]
    case RegViewOp(b, bits) => [Int(TAG_REGVIEW), Int(bits)] + EncodeOp(b)
    case GuestRegViewOp(scope, register, bits) => [Int(TAG_GUEST_REGVIEW), Int(bits), Str(scope), Str(register)]
    case BitSliceOp(b, bits) => [Int(TAG_BITSLICE), Int(bits)] + EncodeOp(b)
    case ExtOp(kind, bits, v) => [Int(TAG_EXT), Str(kind), Int(bits)] + EncodeOp(v)
    case ReadWriteOp(r, w) => [Int(TAG_READWRITE), Tup(EncodeOp(r)), Tup(EncodeOp(w))]
    case ImmOp(id, derived, hash, neg) =>
      (if derived.Some? then [Int(TAG_IMM), Str("derived"), EncodeExpr(derived.value)] else [Int(TAG_IMM), Int(id)])
      + (Flag(hash, SYN_HASH) + Flag(neg, SYN_NEG))
    case TmpOp(p, b, id) => [Int(TAG_TMP), Int(id), Str(p), Int(b)]
    case LitOp(t) => [Int(TAG_LIT)] + Text(t)
    case LabelOp(id, hash) => [Int(TAG_LABEL), Int(id)] + Flag(hash, SYN_HASH)
    case RegTextOp(t) => [Int(TAG_REGTEXT)] + Text(t)
    case MemoryOp(a, syntax, valueBits, size) =>
      [Int(TAG_MEMORY), Str(syntax), if valueBits.Some? then Int(valueBits.value) else Nil,
       if size.Some? then Str(size.value) else Nil] + EncodeAddress(a)
  }

  function EncodeAddress(a: Address): seq<Fp>
    decreases a
  {
    [Int(TAG_ADDRESS), Str(a.writeback)]
    + (EncodePart("base", a.base)
    + (EncodePart("index", a.index)
    + (EncodePart("scale", a.scale)
    + (EncodePart("shift", a.shift)
    + EncodePart("disp", a.displacement)))))
  }

  function EncodePart(role: string, part: Option<Operand>): seq<Fp>
    decreases part
  {
    if part.None? then [] else [Tup([Str(role), Tup(EncodeOp(part.value))])]
  }

  function EncodeFlat(ops: seq<Operand>): seq<Fp> {
    if ops == [] then [] else EncodeOp(ops[0]) + EncodeFlat(ops[1..])
  }

  function MetaTag(kind: MetaKind): int { if kind.Save? then TAG_SAVE else TAG_RESTORE }

  function EncodeMetas(ms: seq<MetaOp>): seq<Fp> {
    if ms == [] then [] else ([Int(MetaTag(ms[0].kind))] + EncodeFlat(ms[0].regs)) + EncodeMetas(ms[1..])
  }

  function EncodeBlock(tag: int, ms: seq<MetaOp>): seq<Fp> {
    if ms == [] then [] else [Tup([Int(tag)] + EncodeMetas(ms))]
  }

  function EncodeOps(ops: seq<Operand>): (r: seq<Fp>)
    ensures |r| == |ops| && forall i :: 0 <= i < |ops| ==> r[i] == Tup(EncodeOp(ops[i]))
  {
    if ops == [] then [] else [Tup(EncodeOp(ops[0]))] + EncodeOps(ops[1..])
  }

  function EncodeInst(inst: Instruction): Fp {
    Tup([Str(inst.mnemonic)] + (EncodeBlock(TAG_META_BLOCK, inst.meta)
      + (EncodeOps(inst.operands) + EncodeBlock(TAG_POST_META_BLOCK, inst.postMeta))))
  }

  function EncodeInsts(insts: seq<Instruction>): (r: seq<Fp>)
    ensures |r| == |insts| && forall i :: 0 <= i < |insts| ==> r[i] == EncodeInst(insts[i])
  {
    if insts == [] then [] else [EncodeInst(insts[0])] + EncodeInsts(insts[1..])
  }

  function EncodeRule(r: Rule): Fp {
    Tup([Tup([Int(GUEST_MARKER)])] + (EncodeInsts(r.guest) + ([Tup([Int(HOST_MARKER)])] + EncodeInsts(r.host))))
  }

  // ---- canonical numbering ----

  /** The ids handed out so far and the next id of each namespace. */
  datatype Numbering = Numbering(ids: Renaming, reg: nat, tmp: nat, imm: nat, label_: nat)
  {
    function Next(space: Space): nat {
      match space
      case Reg => reg
      case Tmp => tmp
      case Imm => imm
      case Label => label_
    }

    function Visit(k: Key): Numbering {
      if k in ids then this else
      match k.space
      case Reg => this.(ids := ids[k := reg], reg := reg + 1)
      case Tmp => this.(ids := ids[k := tmp], tmp := tmp + 1)
      case Imm => this.(ids := ids[k := imm], imm := imm + 1)
      case Label => this.(ids := ids[k := label_], label_ := label_ + 1)
    }

    function VisitAll(ks: seq<Key>): Numbering
      decreases |ks|
    {
      if ks == [] then this else Visit(ks[0]).VisitAll(ks[1..])
    }
  }

  const START := Numbering(map[], 1, 1, 1, 1)

  function CanonicalIds(r: Rule): Renaming { START.VisitAll(KeysRule(r)).ids }

  function Canonical(r: Rule): Rule { RenameRule(CanonicalIds(r), r) }

  /** What the fingerprint builder returns for a rule (see FingerprintBuilder.FingerprintRule). */
  function RuleFingerprint(r: Rule): Fp { EncodeRule(Canonical(r)) }

  // ---- alpha-equivalence, independently of any numbering ----

  ghost predicate SameBody(a: Rule, b: Rule) {
    a.guest == b.guest && a.host == b.host
  }

  ghost predicate Renames(rho: Renaming, a: Rule, b: Rule) {
    Injective(rho) && Covers(rho, KeysRule(a)) && SameBody(RenameRule(rho, a), b)
  }

  /** One injective, type-preserving renaming, shared by Guest and Host, turns `a` into `b`. */
  ghost predicate AlphaEqual(a: Rule, b: Rule) {
    exists rho: Renaming :: Renames(rho, a, b)
  }

  // ---- numbering lemmas ----

  lemma {:induction false} VisitAllConcat(n: Numbering, a: seq<Key>, b: seq<Key>)
    ensures n.VisitAll(a + b) == n.VisitAll(a).VisitAll(b)
    decreases |a|
  {
    if a == [] { assert a + b == b; } else {
      assert (a + b)[1..] == a[1..] + b;
      VisitAllConcat(n.Visit(a[0]), a[1..], b);
    }
  }

  /** Ids already handed out stay, and every visited key has one. */
  lemma {:induction false} VisitAllGrows(n: Numbering, ks: seq<Key>)
    ensures forall k :: k in n.ids ==> k in n.VisitAll(ks).ids && n.VisitAll(ks).ids[k] == n.ids[k]
    ensures Covers(n.VisitAll(ks).ids, ks)
    decreases |ks|
  {
    if ks != [] {
      VisitAllGrows(n.Visit(ks[0]), ks[1..]);
      forall i | 0 <= i < |ks| ensures ks[i] in n.VisitAll(ks).ids {
        if i > 0 { assert ks[1..][i - 1] == ks[i]; }
      }
    }
  }

  ghost predicate Tight(n: Numbering) {
    && (forall k :: k in n.ids ==> n.ids[k] < n.Next(k.space))
    && Injective(n.ids)
  }

  lemma VisitTight(n: Numbering, k: Key)
    requires Tight(n)
    ensures Tight(n.Visit(k))
  {
    var m := n.Visit(k);
    forall i, j | i in m.ids && j in m.ids && RenameKey(m.ids, i) == RenameKey(m.ids, j) ensures i == j {
      if i in n.ids && j in n.ids { assert RenameKey(n.ids, i) == RenameKey(n.ids, j); }
    }
  }

  lemma {:induction false} VisitAllTight(n: Numbering, ks: seq<Key>)
    requires Tight(n)
    ensures Tight(n.VisitAll(ks))
    decreases |ks|
  {
    if ks != [] { VisitTight(n, ks[0]); VisitAllTight(n.Visit(ks[0]), ks[1..]); }
  }

  /** Two numberings that agree through a renaming. */
  ghost predicate Mirrors(rho: Renaming, n: Numbering, m: Numbering) {
    && n.reg == m.reg && n.tmp == m.tmp && n.imm == m.imm && n.label_ == m.label_
    && forall k :: k in rho ==>
         (k in n.ids <==> RenameKey(rho, k) in m.ids) && (k in n.ids ==> n.ids[k] == m.ids[RenameKey(rho, k)])
  }

  lemma {:induction false} VisitAllMirrors(rho: Renaming, n: Numbering, m: Numbering, ks: seq<Key>)
    requires Injective(rho) && Covers(rho, ks) && Mirrors(rho, n, m)
    ensures Mirrors(rho, n.VisitAll(ks), m.VisitAll(RenameKeys(rho, ks)))
    decreases |ks|
  {
    if ks != [] {
      assert RenameKeys(rho, ks)[1..] == RenameKeys(rho, ks[1..]);
      VisitAllMirrors(rho, n.Visit(ks[0]), m.Visit(RenameKey(rho, ks[0])), ks[1..]);
    }
  }

  // ---- the flattening can be decoded ----

  /** What may follow an operand inside a flat tuple: nothing, or an integer that is not an operand suffix. */
  predicate Boundary(rest: seq<Fp>) {
    rest != [] ==> rest[0].Int? && rest[0].n != SYN_HASH && rest[0].n != SYN_NEG
  }

  lemma PrefixCancel<T>(a: seq<T>, b: seq<T>, r: seq<T>, s: seq<T>)
    requires a + r == b + s && |a| == |b|
    ensures a == b && r == s
  {
    assert a == (a + r)[..|a|] && b == (b + s)[..|b|];
    assert r == (a + r)[|a|..] && s == (b + s)[|b|..];
  }

  lemma Reassociate<T>(a: seq<T>, b: seq<T>, c: seq<T>)
    ensures (a + b) + c == a + (b + c)
    ensures a != [] ==> ((a + b) + c)[0] == a[0]
  {}

  lemma TextDecodes(a: string, b: string, r: seq<Fp>, s: seq<Fp>)
    requires Text(a) + r == Text(b) + s && Boundary(r) && Boundary(s)
    ensures a == b && r == s
  {
    if a == "" { assert Text(a) + r == r; }
    if b == "" { assert Text(b) + s == s; }
    if a != "" { assert (Text(a) + r)[0] == Str(a); }
    if b != "" { assert (Text(b) + s)[0] == Str(b); }
    PrefixCancel(Text(a), Text(b), r, s);
  }

  lemma FlagDecodes(a: bool, b: bool, tag: int, r: seq<Fp>, s: seq<Fp>)
    requires Flag(a, tag) + r == Flag(b, tag) + s
    requires r != [] ==> r[0] != Int(tag)
    requires s != [] ==> s[0] != Int(tag)
    ensures a == b && r == s
  {
    if a { assert (Flag(a, tag) + r)[0] == Int(tag); } else { assert Flag(a, tag) + r == r; }
    if b { assert (Flag(b, tag) + s)[0] == Int(tag); } else { assert Flag(b, tag) + s == s; }
    PrefixCancel(Flag(a, tag), Flag(b, tag), r, s);
  }

  lemma {:induction false} ExprDecodes(a: ImmExpr, b: ImmExpr)
    requires EncodeExpr(a) == EncodeExpr(b)
    ensures a == b
  {
    var x, y := EncodeExpr(a).items, EncodeExpr(b).items;
    assert x[0] == y[0];
    match a
    case Neg(p) => assert x[1] == y[1]; ExprDecodes(p, b.arg);
    case Log2(p) => assert x[1] == y[1]; ExprDecodes(p, b.arg);
    case BitOr(l, r) => assert x[1] == y[1] && x[2] == y[2]; ExprDecodes(l, b.left); ExprDecodes(r, b.right);
    case ShiftLeft(l, r) => assert x[1] == y[1] && x[2] == y[2]; ExprDecodes(l, b.left); ExprDecodes(r, b.right);
    case ImmRef(id) => assert x[1] == y[1];
    case IntLit(v) => assert x[1] == y[1];
    case RawImm(t) => PrefixCancel([Str("raw")], [Str("raw")], Text(t), Text(b.text)); TextDecodes(t, b.text, [], []);
  }

  function Tag(op: Operand): (t: int)
    ensures EncodeOp(op) != [] && EncodeOp(op)[0] == Int(t) && t != SYN_HASH && t != SYN_NEG
    ensures t != TAG_SAVE && t != TAG_RESTORE && t != TAG_META_BLOCK && t != TAG_POST_META_BLOCK
  {
    match op
    case RegOp(_, _, _) => TAG_REG
    case ImmOp(_, _, _, _) => TAG_IMM
    case TmpOp(_, _, _) => TAG_TMP
    case LitOp(_) => TAG_LIT
    case LabelOp(_, _) => TAG_LABEL
    case RegTextOp(_) => TAG_REGTEXT
    case RegViewOp(_, _) => TAG_REGVIEW
    case GuestRegViewOp(_, _, _) => TAG_GUEST_REGVIEW
    case BitSliceOp(_, _) => TAG_BITSLICE
    case ExtOp(_, _, _) => TAG_EXT
    case ReadWriteOp(_, _) => TAG_READWRITE
    case MemoryOp(_, _, _, _) => TAG_MEMORY
  }

  lemma HeadCancel(h: seq<Fp>, k: seq<Fp>, x: seq<Fp>, y: seq<Fp>, r: seq<Fp>, s: seq<Fp>)
    requires (h + x) + r == (k + y) + s && |h| == |k|
    ensures h == k && x + r == y + s
  {
    assert (h + x) + r == h + (x + r) && (k + y) + s == k + (y + s);
    PrefixCancel(h, k, x + r, y + s);
  }

  /** What an immediate's tuple starts with, before the marks of its spelling. */
  function ImmHead(op: Operand): seq<Fp>
    requires op.ImmOp?
  {
    if op.derived.Some? then [Int(TAG_IMM), Str("derived"), EncodeExpr(op.derived.value)]
    else [Int(TAG_IMM), Int(op.id)]
  }

  function Flags(hash: bool, neg: bool): seq<Fp> { Flag(hash, SYN_HASH) + Flag(neg, SYN_NEG) }

  lemma FlagsDecode(hash: bool, neg: bool, hash': bool, neg': bool, r: seq<Fp>, s: seq<Fp>)
    requires Flags(hash, neg) + r == Flags(hash', neg') + s && Boundary(r) && Boundary(s)
    ensures hash == hash' && neg == neg' && r == s
  {
    Reassociate(Flag(hash, SYN_HASH), Flag(neg, SYN_NEG), r);
    Reassociate(Flag(hash', SYN_HASH), Flag(neg', SYN_NEG), s);
    FlagStarts(neg, r);
    FlagStarts(neg', s);
    FlagDecodes(hash, hash', SYN_HASH, Flag(neg, SYN_NEG) + r, Flag(neg', SYN_NEG) + s);
    FlagDecodes(neg, neg', SYN_NEG, r, s);
  }

  lemma FlagStarts(neg: bool, r: seq<Fp>)
    requires Boundary(r)
    ensures Flag(neg, SYN_NEG) + r != [] ==> (Flag(neg, SYN_NEG) + r)[0] != Int(SYN_HASH)
  {
    if !neg { assert Flag(neg, SYN_NEG) + r == r; }
  }

  lemma ImmHeadDecodes(a: Operand, b: Operand)
    requires a.ImmOp? && b.ImmOp? && ValidOp(a) && ValidOp(b) && ImmHead(a) == ImmHead(b)
    ensures a.derived == b.derived && a.id == b.id
  {
    var h, k := ImmHead(a), ImmHead(b);
    assert h[1] == k[1];
    if a.derived.Some? {
      assert h[2] == k[2];
      ExprDecodes(a.derived.value, b.derived.value);
    }
  }

  /** The second entry tells a derived immediate from a plain one. */
  lemma ImmKindDecodes(a: Operand, b: Operand, r: seq<Fp>, s: seq<Fp>)
    requires a.ImmOp? && b.ImmOp? && EncodeOp(a) + r == EncodeOp(b) + s
    ensures a.derived.Some? <==> b.derived.Some?
  {
    assert (EncodeOp(a) + r)[1] == ImmHead(a)[1] && (EncodeOp(b) + s)[1] == ImmHead(b)[1];
  }

  lemma ImmDecodes(a: Operand, b: Operand, r: seq<Fp>, s: seq<Fp>)
    requires a.ImmOp? && b.ImmOp? && ValidOp(a) && ValidOp(b)
    requires EncodeOp(a) + r == EncodeOp(b) + s && Boundary(r) && Boundary(s)
    ensures a == b && r == s
  {
    ImmKindDecodes(a, b, r, s);
    HeadCancel(ImmHead(a), ImmHead(b), Flags(a.hash, a.neg), Flags(b.hash, b.neg), r, s);
    ImmHeadDecodes(a, b);
    FlagsDecode(a.hash, a.neg, b.hash, b.neg, r, s);
  }

  /** An operand can be read off the front of a flat tuple, together with what follows it. */
  lemma {:induction false} OpDecodes(a: Operand, b: Operand, r: seq<Fp>, s: seq<Fp>)
    requires ValidOp(a) && ValidOp(b)
    requires EncodeOp(a) + r == EncodeOp(b) + s && Boundary(r) && Boundary(s)
    ensures a == b && r == s
    decreases a
  {
    assert Int(Tag(a)) == (EncodeOp(a) + r)[0] == (EncodeOp(b) + s)[0] == Int(Tag(b));
    match a
    case RegOp(_, _, _) =>
      PrefixCancel(EncodeOp(a), EncodeOp(b), r, s);
      assert forall i :: 0 <= i < 4 ==> EncodeOp(a)[i] == EncodeOp(b)[i];
    case TmpOp(_, _, _) =>
      PrefixCancel(EncodeOp(a), EncodeOp(b), r, s);
      assert forall i :: 0 <= i < 4 ==> EncodeOp(a)[i] == EncodeOp(b)[i];
    case GuestRegViewOp(_, _, _) =>
      PrefixCancel(EncodeOp(a), EncodeOp(b), r, s);
      assert forall i :: 0 <= i < 4 ==> EncodeOp(a)[i] == EncodeOp(b)[i];
    case ImmOp(_, _, _, _) => ImmDecodes(a, b, r, s);
    case LitOp(t) =>
      HeadCancel([Int(TAG_LIT)], [Int(TAG_LIT)], Text(t), Text(b.text), r, s);
      TextDecodes(t, b.text, r, s);
    case RegTextOp(t) =>
      HeadCancel([Int(TAG_REGTEXT)], [Int(TAG_REGTEXT)], Text(t), Text(b.text), r, s);
      TextDecodes(t, b.text, r, s);
    case LabelOp(id, hash) =>
      var h, k := [Int(TAG_LABEL), Int(id)], [Int(TAG_LABEL), Int(b.id)];
      HeadCancel(h, k, Flag(hash, SYN_HASH), Flag(b.hash, SYN_HASH), r, s);
      assert h[1] == k[1];
      FlagDecodes(hash, b.hash, SYN_HASH, r, s);
    case RegViewOp(base, bits) =>
      var h, k := [Int(TAG_REGVIEW), Int(bits)], [Int(TAG_REGVIEW), Int(b.viewBits)];
      HeadCancel(h, k, EncodeOp(base), EncodeOp(b.base), r, s);
      assert h[1] == k[1];
      OpDecodes(base, b.base, r, s);
    case BitSliceOp(base, bits) =>
      var h, k := [Int(TAG_BITSLICE), Int(bits)], [Int(TAG_BITSLICE), Int(b.bits)];
      HeadCancel(h, k, EncodeOp(base), EncodeOp(b.base), r, s);
      assert h[1] == k[1];
      OpDecodes(base, b.base, r, s);
    case ExtOp(kind, bits, value) =>
      var h, k := [Int(TAG_EXT), Str(kind), Int(bits)], [Int(TAG_EXT), Str(b.kind), Int(b.bits)];
      HeadCancel(h, k, EncodeOp(value), EncodeOp(b.value), r, s);
      assert h[1] == k[1] && h[2] == k[2];
      OpDecodes(value, b.value, r, s);
    case ReadWriteOp(read, write) => ReadWriteDecodes(a, b, r, s);
    case MemoryOp(_, _, _, _) => MemoryDecodes(a, b, r, s);
  }

  lemma {:induction false} ReadWriteDecodes(a: Operand, b: Operand, r: seq<Fp>, s: seq<Fp>)
    requires a.ReadWriteOp? && b.ReadWriteOp? && ValidOp(a) && ValidOp(b)
    requires EncodeOp(a) + r == EncodeOp(b) + s && Boundary(r) && Boundary(s)
    ensures a == b && r == s
    decreases a, 0
  {
    PrefixCancel(EncodeOp(a), EncodeOp(b), r, s);
    assert EncodeOp(a)[1] == EncodeOp(b)[1] && EncodeOp(a)[2] == EncodeOp(b)[2];
    assert EncodeOp(a.read) + [] == EncodeOp(b.read) + [] && EncodeOp(a.write) + [] == EncodeOp(b.write) + [];
    OpDecodes(a.read, b.read, [], []);
    OpDecodes(a.write, b.write, [], []);
  }

  lemma {:induction false} MemoryDecodes(a: Operand, b: Operand, r: seq<Fp>, s: seq<Fp>)
    requires a.MemoryOp? && b.MemoryOp? && ValidOp(a) && ValidOp(b)
    requires EncodeOp(a) + r == EncodeOp(b) + s && Boundary(r) && Boundary(s)
    ensures a == b && r == s
    decreases a, 0
  {
    var h, k := EncodeOp(a)[..4], EncodeOp(b)[..4];
    assert EncodeOp(a) == h + EncodeAddress(a.address) && EncodeOp(b) == k + EncodeAddress(b.address);
    HeadCancel(h, k, EncodeAddress(a.address), EncodeAddress(b.address), r, s);
    assert h[1] == k[1] && h[2] == k[2] && h[3] == k[3];
    AddressDecodes(a.address, b.address, r, s);
  }

  /** An address part, or nothing when the next tuple carries another role. */
  lemma {:induction false} PartDecodes(role: string, p: Option<Operand>, q: Option<Operand>, r: seq<Fp>, s: seq<Fp>)
    requires ValidOpt(p) && ValidOpt(q)
    requires EncodePart(role, p) + r == EncodePart(role, q) + s
    requires NotRole(role, r) && NotRole(role, s)
    ensures p == q && r == s
    decreases p, 0
  {
    if p.None? {
      assert EncodePart(role, p) + r == r;
    } else {
      assert (EncodePart(role, p) + r)[0] == EncodePart(role, p)[0];
    }
    if q.None? {
      assert EncodePart(role, q) + s == s;
    } else {
      assert (EncodePart(role, q) + s)[0] == EncodePart(role, q)[0];
    }
    if p.Some? {
      PrefixCancel(EncodePart(role, p), EncodePart(role, q), r, s);
      assert EncodePart(role, p)[0].items[1] == EncodePart(role, q)[0].items[1];
      assert EncodeOp(p.value) + [] == EncodeOp(q.value) + [];
      OpDecodes(p.value, q.value, [], []);
    }
  }

  predicate NotRole(role: string, rest: seq<Fp>) {
    rest != [] && rest[0].Tup? && rest[0].items != [] ==> rest[0].items[0] != Str(role)
  }

  lemma OtherRole(role: string, other: string, p: Option<Operand>, rest: seq<Fp>)
    requires role != other && NotRole(role, rest)
    ensures NotRole(role, EncodePart(other, p) + rest)
  {
    if p.None? {
      assert EncodePart(other, p) + rest == rest;
    } else {
      assert (EncodePart(other, p) + rest)[0] == EncodePart(other, p)[0];
    }
  }

  predicate ValidAddress(a: Address) {
    ValidOpt(a.base) && ValidOpt(a.index) && ValidOpt(a.scale) && ValidOpt(a.shift) && ValidOpt(a.displacement)
  }

  function ShiftTail(a: Address, r: seq<Fp>): seq<Fp> {
    EncodePart("shift", a.shift) + (EncodePart("disp", a.displacement) + r)
  }

  lemma {:induction false} ShiftTailDecodes(a: Address, b: Address, r: seq<Fp>, s: seq<Fp>)
    requires ValidAddress(a) && ValidAddress(b) && Boundary(r) && Boundary(s)
    requires ShiftTail(a, r) == ShiftTail(b, s)
    ensures a.shift == b.shift && a.displacement == b.displacement && r == s
    decreases a, 0
  {
    OtherRole("shift", "disp", a.displacement, r);
    OtherRole("shift", "disp", b.displacement, s);
    PartDecodes("shift", a.shift, b.shift, EncodePart("disp", a.displacement) + r,
        EncodePart("disp", b.displacement) + s);
    PartDecodes("disp", a.displacement, b.displacement, r, s);
  }

  lemma ShiftTailRole(role: string, a: Address, r: seq<Fp>)
    requires role != "shift" && role != "disp" && Boundary(r)
    ensures NotRole(role, ShiftTail(a, r))
  {
    OtherRole(role, "disp", a.displacement, r);
    OtherRole(role, "shift", a.shift, EncodePart("disp", a.displacement) + r);
  }

  function IndexTail(a: Address, r: seq<Fp>): seq<Fp> {
    EncodePart("index", a.index) + (EncodePart("scale", a.scale) + ShiftTail(a, r))
  }

  lemma {:induction false} IndexTailDecodes(a: Address, b: Address, r: seq<Fp>, s: seq<Fp>)
    requires ValidAddress(a) && ValidAddress(b) && Boundary(r) && Boundary(s)
    requires IndexTail(a, r) == IndexTail(b, s)
    ensures a.index == b.index && a.scale == b.scale && a.shift == b.shift && a.displacement == b.displacement && r == s
    decreases a, 1
  {
    ShiftTailRole("index", a, r); ShiftTailRole("scale", a, r);
    ShiftTailRole("index", b, s); ShiftTailRole("scale", b, s);
    OtherRole("index", "scale", a.scale, ShiftTail(a, r));
    OtherRole("index", "scale", b.scale, ShiftTail(b, s));
    PartDecodes("index", a.index, b.index, EncodePart("scale", a.scale) + ShiftTail(a, r),
        EncodePart("scale", b.scale) + ShiftTail(b, s));
    PartDecodes("scale", a.scale, b.scale, ShiftTail(a, r), ShiftTail(b, s));
    ShiftTailDecodes(a, b, r, s);
  }

  lemma AddressShape(a: Address, r: seq<Fp>)
    ensures EncodeAddress(a) + r == [Int(TAG_ADDRESS), Str(a.writeback)]
            + (EncodePart("base", a.base) + IndexTail(a, r))
  {
    var h := [Int(TAG_ADDRESS), Str(a.writeback)];
    var p0, p1, p2, p3, p4 := EncodePart("base", a.base), EncodePart("index", a.index), EncodePart("scale", a.scale),
      EncodePart("shift", a.shift), EncodePart("disp", a.displacement);
    assert (h + (p0 + (p1 + (p2 + (p3 + p4))))) + r == h + (p0 + (p1 + (p2 + (p3 + (p4 + r)))));
  }

  lemma {:induction false} AddressDecodes(a: Address, b: Address, r: seq<Fp>, s: seq<Fp>)
    requires ValidAddress(a) && ValidAddress(b) && Boundary(r) && Boundary(s)
    requires EncodeAddress(a) + r == EncodeAddress(b) + s
    ensures a == b && r == s
    decreases a
  {
    var h, k := [Int(TAG_ADDRESS), Str(a.writeback)], [Int(TAG_ADDRESS), Str(b.writeback)];
    var x, y := EncodePart("base", a.base) + IndexTail(a, r), EncodePart("base", b.base) + IndexTail(b, s);
    AddressShape(a, r);
    AddressShape(b, s);
    PrefixCancel(h, k, x, y);
    assert h[1] == k[1];
    ShiftTailRole("base", a, r);
    ShiftTailRole("base", b, s);
    OtherRole("base", "scale", a.scale, ShiftTail(a, r));
    OtherRole("base", "scale", b.scale, ShiftTail(b, s));
    OtherRole("base", "index", a.index, EncodePart("scale", a.scale) + ShiftTail(a, r));
    OtherRole("base", "index", b.index, EncodePart("scale", b.scale) + ShiftTail(b, s));
    PartDecodes("base", a.base, b.base, IndexTail(a, r), IndexTail(b, s));
    IndexTailDecodes(a, b, r, s);
  }

  // ---- flat operand lists, save/restore blocks, instructions ----

  /** What may follow a flat operand list inside a save/restore block. */
  predicate MetaBoundary(rest: seq<Fp>) {
    rest != [] ==> rest[0] == Int(TAG_SAVE) || rest[0] == Int(TAG_RESTORE)
  }

  lemma {:induction false} FlatHead(ops: seq<Operand>, r: seq<Fp>)
    requires MetaBoundary(r)
    ensures Boundary(EncodeFlat(ops) + r)
    ensures ops == [] ==> EncodeFlat(ops) + r == r
    ensures ops != [] ==> EncodeFlat(ops) + r == EncodeOp(ops[0]) + (EncodeFlat(ops[1..]) + r)
    ensures ops != [] ==> !MetaBoundary(EncodeFlat(ops) + r)
  {
    if ops != [] {
      var t := Tag(ops[0]);
      Reassociate(EncodeOp(ops[0]), EncodeFlat(ops[1..]), r);
    } else {
      assert EncodeFlat(ops) + r == r;
    }
  }

  lemma {:induction false} FlatDecodes(a: seq<Operand>, b: seq<Operand>, r: seq<Fp>, s: seq<Fp>)
    requires ValidOps(a) && ValidOps(b) && MetaBoundary(r) && MetaBoundary(s)
    requires EncodeFlat(a) + r == EncodeFlat(b) + s
    ensures a == b && r == s
    decreases |a|
  {
    FlatHead(a, r);
    FlatHead(b, s);
    if a != [] {
      FlatHead(a[1..], r);
      FlatHead(b[1..], s);
      OpDecodes(a[0], b[0], EncodeFlat(a[1..]) + r, EncodeFlat(b[1..]) + s);
      FlatDecodes(a[1..], b[1..], r, s);
    }
  }

  lemma MetasHead(ms: seq<MetaOp>)
    ensures MetaBoundary(EncodeMetas(ms))
    ensures ms != [] ==> EncodeMetas(ms) == [Int(MetaTag(ms[0].kind))] + (EncodeFlat(ms[0].regs) + EncodeMetas(ms[1..]))
  {}

  lemma {:induction false} MetasDecode(a: seq<MetaOp>, b: seq<MetaOp>)
    requires ValidMetas(a) && ValidMetas(b) && EncodeMetas(a) == EncodeMetas(b)
    ensures a == b
    decreases |a|
  {
    if a != [] && b != [] {
      MetasHead(a); MetasHead(b); MetasHead(a[1..]); MetasHead(b[1..]);
      PrefixCancel([Int(MetaTag(a[0].kind))], [Int(MetaTag(b[0].kind))],
                   EncodeFlat(a[0].regs) + EncodeMetas(a[1..]), EncodeFlat(b[0].regs) + EncodeMetas(b[1..]));
      FlatDecodes(a[0].regs, b[0].regs, EncodeMetas(a[1..]), EncodeMetas(b[1..]));
      assert MetaTag(a[0].kind) == MetaTag(b[0].kind);
      MetasDecode(a[1..], b[1..]);
    }
  }

  /** A block that is absent exactly when its list is empty. */
  lemma BlockDecodes(tag: int, a: seq<MetaOp>, b: seq<MetaOp>, r: seq<Fp>, s: seq<Fp>)
    requires ValidMetas(a) && ValidMetas(b)
    requires EncodeBlock(tag, a) + r == EncodeBlock(tag, b) + s
    requires NotTagged(tag, r) && NotTagged(tag, s)
    ensures a == b && r == s
  {
    if a == [] {
      assert EncodeBlock(tag, a) + r == r;
    } else {
      assert (EncodeBlock(tag, a) + r)[0].items[0] == Int(tag);
    }
    if b == [] {
      assert EncodeBlock(tag, b) + s == s;
    } else {
      assert (EncodeBlock(tag, b) + s)[0].items[0] == Int(tag);
    }
    if a != [] {
      PrefixCancel(EncodeBlock(tag, a), EncodeBlock(tag, b), r, s);
      var x, y := [Int(tag)] + EncodeMetas(a), [Int(tag)] + EncodeMetas(b);
      assert x == EncodeBlock(tag, a)[0].items && y == EncodeBlock(tag, b)[0].items;
      PrefixCancel([Int(tag)], [Int(tag)], EncodeMetas(a), EncodeMetas(b));
      MetasDecode(a, b);
    }
  }

  predicate NotTagged(tag: int, rest: seq<Fp>) {
    rest != [] && rest[0].Tup? && rest[0].items != [] ==> rest[0].items[0] != Int(tag)
  }

  lemma {:induction false} OpsHead(ops: seq<Operand>, tag: int, r: seq<Fp>)
    requires tag == TAG_META_BLOCK || tag == TAG_POST_META_BLOCK
    requires NotTagged(tag, r)
    ensures NotTagged(tag, EncodeOps(ops) + r)
    ensures ops == [] ==> EncodeOps(ops) + r == r
    ensures ops != [] ==> EncodeOps(ops) + r == [Tup(EncodeOp(ops[0]))] + (EncodeOps(ops[1..]) + r)
  {
    if ops != [] {
      var t := Tag(ops[0]);
      Reassociate([Tup(EncodeOp(ops[0]))], EncodeOps(ops[1..]), r);
    } else {
      assert EncodeOps(ops) + r == r;
    }
  }

  /** The operands of an instruction end where its post block, or the instruction itself, ends. */
  lemma {:induction false} OpsDecode(a: seq<Operand>, b: seq<Operand>, p: seq<MetaOp>, q: seq<MetaOp>)
    requires ValidOps(a) && ValidOps(b) && ValidMetas(p) && ValidMetas(q)
    requires EncodeOps(a) + EncodeBlock(TAG_POST_META_BLOCK, p) == EncodeOps(b) + EncodeBlock(TAG_POST_META_BLOCK, q)
    ensures a == b && p == q
    decreases |a| + |b|
  {
    var x, y := EncodeBlock(TAG_POST_META_BLOCK, p), EncodeBlock(TAG_POST_META_BLOCK, q);
    if a == [] && b == [] {
      assert EncodeOps(a) + x == x + [] && EncodeOps(b) + y == y + [];
      BlockDecodes(TAG_POST_META_BLOCK, p, q, [], []);
    } else if a == [] {
      OpsVersusBlock(b, q, p);
    } else if b == [] {
      OpsVersusBlock(a, p, q);
    } else {
      assert EncodeOps(a) + x == [Tup(EncodeOp(a[0]))] + (EncodeOps(a[1..]) + x);
      assert EncodeOps(b) + y == [Tup(EncodeOp(b[0]))] + (EncodeOps(b[1..]) + y);
      PrefixCancel([Tup(EncodeOp(a[0]))], [Tup(EncodeOp(b[0]))], EncodeOps(a[1..]) + x, EncodeOps(b[1..]) + y);
      assert [Tup(EncodeOp(a[0]))][0] == [Tup(EncodeOp(b[0]))][0];
      assert EncodeOp(a[0]) + [] == EncodeOp(b[0]) + [];
      OpDecodes(a[0], b[0], [], []);
      OpsDecode(a[1..], b[1..], p, q);
    }
  }

  lemma OpsVersusBlock(ops: seq<Operand>, p: seq<MetaOp>, q: seq<MetaOp>)
    requires ops != []
    ensures EncodeOps(ops) + EncodeBlock(TAG_POST_META_BLOCK, p) != EncodeOps([]) + EncodeBlock(TAG_POST_META_BLOCK, q)
  {
    var t := Tag(ops[0]);
    var x := EncodeOps(ops) + EncodeBlock(TAG_POST_META_BLOCK, p);
    var y := EncodeOps([]) + EncodeBlock(TAG_POST_META_BLOCK, q);
    assert x[0] == Tup(EncodeOp(ops[0]));
    if q != [] { assert y[0].items[0] == Int(TAG_POST_META_BLOCK); }
  }

  lemma {:induction false} InstDecodes(a: Instruction, b: Instruction)
    requires ValidInst(a) && ValidInst(b) && EncodeInst(a) == EncodeInst(b)
    ensures a == b
  {
    var x := EncodeOps(a.operands) + EncodeBlock(TAG_POST_META_BLOCK, a.postMeta);
    var y := EncodeOps(b.operands) + EncodeBlock(TAG_POST_META_BLOCK, b.postMeta);
    assert EncodeInst(a).items == EncodeInst(b).items;
    PrefixCancel([Str(a.mnemonic)], [Str(b.mnemonic)], EncodeBlock(TAG_META_BLOCK, a.meta) + x,
        EncodeBlock(TAG_META_BLOCK, b.meta) + y);
    assert [Str(a.mnemonic)][0] == [Str(b.mnemonic)][0];
    OpsHead(a.operands, TAG_META_BLOCK, EncodeBlock(TAG_POST_META_BLOCK, a.postMeta));
    OpsHead(b.operands, TAG_META_BLOCK, EncodeBlock(TAG_POST_META_BLOCK, b.postMeta));
    BlockDecodes(TAG_META_BLOCK, a.meta, b.meta, x, y);
    OpsDecode(a.operands, b.operands, a.postMeta, b.postMeta);
  }

  lemma InstsHead(insts: seq<Instruction>, r: seq<Fp>)
    requires Marked(r)
    ensures insts == [] ==> EncodeInsts(insts) + r == r
    ensures insts != [] ==> EncodeInsts(insts) + r == [EncodeInst(insts[0])] + (EncodeInsts(insts[1..]) + r)
    ensures insts != [] ==> !Marked(EncodeInsts(insts) + r)
  {
    if insts != [] {
      Reassociate([EncodeInst(insts[0])], EncodeInsts(insts[1..]), r);
      assert EncodeInst(insts[0]).items[0] == Str(insts[0].mnemonic);
    } else {
      assert EncodeInsts(insts) + r == r;
    }
  }

  /** The instructions before a marker tuple, or before the end. */
  lemma {:induction false} InstsDecode(a: seq<Instruction>, b: seq<Instruction>, r: seq<Fp>, s: seq<Fp>)
    requires ValidInsts(a) && ValidInsts(b) && Marked(r) && Marked(s)
    requires EncodeInsts(a) + r == EncodeInsts(b) + s
    ensures a == b && r == s
    decreases |a|
  {
    InstsHead(a, r);
    InstsHead(b, s);
    if a != [] {
      PrefixCancel([EncodeInst(a[0])], [EncodeInst(b[0])], EncodeInsts(a[1..]) + r, EncodeInsts(b[1..]) + s);
      assert [EncodeInst(a[0])][0] == [EncodeInst(b[0])][0];
      InstDecodes(a[0], b[0]);
      InstsDecode(a[1..], b[1..], r, s);
      assert a == [a[0]] + a[1..] && b == [b[0]] + b[1..];
    }
  }

  predicate Marked(rest: seq<Fp>) {
    rest != [] ==> rest[0].Tup? && rest[0].items != [] && rest[0].items[0].Int?
  }

  /** The flat tuples determine the rule body: nothing of its structure is lost. */
  lemma RuleDecodes(a: Rule, b: Rule)
    requires ValidRule(a) && ValidRule(b) && EncodeRule(a) == EncodeRule(b)
    ensures SameBody(a, b)
  {
    var g, h := [Tup([Int(GUEST_MARKER)])], [Tup([Int(HOST_MARKER)])];
    var x, y := h + EncodeInsts(a.host), h + EncodeInsts(b.host);
    assert EncodeRule(a).items == EncodeRule(b).items;
    PrefixCancel(g, g, EncodeInsts(a.guest) + x, EncodeInsts(b.guest) + y);
    InstsDecode(a.guest, b.guest, x, y);
    PrefixCancel(h, h, EncodeInsts(a.host), EncodeInsts(b.host));
    assert EncodeInsts(a.host) + [] == EncodeInsts(b.host) + [];
    InstsDecode(a.host, b.host, [], []);
  }

  // ---- alpha-equivalence is an equivalence ----

  /** Every placeholder renamed to itself. */
  function Identity(ks: seq<Key>): (rho: Renaming)
    ensures forall k :: k in rho ==> rho[k] == k.id
    ensures Covers(rho, ks)
  {
    map i | 0 <= i < |ks| :: ks[i] := ks[i].id
  }

  lemma IdentityRenames(a: Rule)
    ensures SameBody(RenameRule(Identity(KeysRule(a)), a), a)
  {
    var rho := Identity(KeysRule(a));
    FuseRule(map[], rho, map[], a);
    IdentityInsts(a.guest);
    IdentityInsts(a.host);
    IdentityInsts(RenameInsts(rho, a.guest));
    IdentityInsts(RenameInsts(rho, a.host));
  }

  lemma AlphaReflexive(a: Rule)
    ensures AlphaEqual(a, a)
  {
    IdentityRenames(a);
    assert Renames(Identity(KeysRule(a)), a, a);
  }

  lemma AlphaSymmetric(a: Rule, b: Rule)
    requires AlphaEqual(a, b)
    ensures AlphaEqual(b, a)
  {
    var rho: Renaming :| Renames(rho, a, b);
    InverseRenames(rho, a, b);
  }

  /** A renaming can be undone. */
  lemma InverseRenames(rho: Renaming, a: Rule, b: Rule)
    requires Renames(rho, a, b)
    ensures Renames(Inverse(rho), b, a)
  {
    var inv := Inverse(rho);
    FuseRule(inv, rho, map[], a);
    IdentityInsts(a.guest); IdentityInsts(a.host);
    forall j, k | j in inv && k in inv && RenameKey(inv, j) == RenameKey(inv, k) ensures j == k {
      var j' :| j' in rho && j == RenameKey(rho, j');
      var k' :| k' in rho && k == RenameKey(rho, k');
    }
    assert KeysRule(b) == RenameKeys(rho, KeysRule(a));
  }

  /** `sigma` after `rho`, on the given placeholders. */
  function Composite(sigma: Renaming, rho: Renaming, ks: seq<Key>): (tau: Renaming)
    ensures Covers(tau, ks) && Fuses(sigma, rho, tau, ks)
    ensures forall k :: k in tau ==> k in ks && RenameKey(tau, k) == RenameKey(sigma, RenameKey(rho, k))
  {
    map i | 0 <= i < |ks| :: ks[i] := NewId(sigma, RenameKey(rho, ks[i]))
  }

  lemma InComposite(sigma: Renaming, rho: Renaming, ks: seq<Key>, k: Key)
    requires k in ks && Covers(rho, ks) && Covers(sigma, RenameKeys(rho, ks))
    ensures k in rho && RenameKey(rho, k) in sigma
  {
    var i :| 0 <= i < |ks| && ks[i] == k;
    assert RenameKeys(rho, ks)[i] == RenameKey(rho, k);
  }

  lemma CompositeInjective(sigma: Renaming, rho: Renaming, ks: seq<Key>)
    requires Injective(sigma) && Injective(rho) && Covers(rho, ks) && Covers(sigma, RenameKeys(rho, ks))
    ensures Injective(Composite(sigma, rho, ks))
  {
    var tau := Composite(sigma, rho, ks);
    forall j, k | j in tau && k in tau && RenameKey(tau, j) == RenameKey(tau, k) ensures j == k {
      InComposite(sigma, rho, ks, j);
      InComposite(sigma, rho, ks, k);
    }
  }

  lemma CompositeRenames(sigma: Renaming, rho: Renaming, a: Rule, b: Rule, c: Rule)
    requires Renames(rho, a, b) && Renames(sigma, b, c)
    ensures Renames(Composite(sigma, rho, KeysRule(a)), a, c)
  {
    var ks := KeysRule(a);
    FuseRule(sigma, rho, Composite(sigma, rho, ks), a);
    assert KeysRule(b) == RenameKeys(rho, ks);
    CompositeInjective(sigma, rho, ks);
  }

  lemma AlphaTransitive(a: Rule, b: Rule, c: Rule)
    requires AlphaEqual(a, b) && AlphaEqual(b, c)
    ensures AlphaEqual(a, c)
  {
    var rho: Renaming :| Renames(rho, a, b);
    var sigma: Renaming :| Renames(sigma, b, c);
    CompositeRenames(sigma, rho, a, b, c);
  }

  lemma CanonicalIsAlphaEqual(a: Rule)
    ensures AlphaEqual(a, Canonical(a))
  {
    VisitAllGrows(START, KeysRule(a));
    VisitAllTight(START, KeysRule(a));
    assert Renames(CanonicalIds(a), a, Canonical(a));
  }

  /** Renamed rules have the same canonical form. */
  lemma CanonicalIsInvariant(rho: Renaming, a: Rule, b: Rule)
    requires Renames(rho, a, b)
    ensures SameBody(Canonical(a), Canonical(b))
  {
    var ks := KeysRule(a);
    FuseRule(map[], rho, rho, a);
    assert KeysRule(b) == RenameKeys(rho, ks);
    VisitAllMirrors(rho, START, START, ks);
    VisitAllGrows(START, ks);
    FuseRule(CanonicalIds(b), rho, CanonicalIds(a), a);
  }

  /** Equal fingerprints are exactly alpha-equivalence. */
  lemma FingerprintIffAlphaEqual(a: Rule, b: Rule)
    requires ValidRule(a) && ValidRule(b)
    ensures RuleFingerprint(a) == RuleFingerprint(b) <==> AlphaEqual(a, b)
  {
    if AlphaEqual(a, b) {
      var rho: Renaming :| Renames(rho, a, b);
      CanonicalIsInvariant(rho, a, b);
    }
    if RuleFingerprint(a) == RuleFingerprint(b) {
      RenameValidRule(CanonicalIds(a), a);
      RenameValidRule(CanonicalIds(b), b);
      RuleDecodes(Canonical(a), Canonical(b));
      CanonicalIsAlphaEqual(a);
      CanonicalIsAlphaEqual(b);
      var rho: Renaming :| Renames(rho, a, Canonical(a));
      assert Renames(rho, a, Canonical(b));
      AlphaSymmetric(b, Canonical(b));
      AlphaTransitive(a, Canonical(b), b);
    }
  }
}
