/** What the evaluator's operators compute, said with integers modulo a power of two and with single bits. */
module OperatorLaws {
  import opened Wrappers
  import opened RuleAst
  import opened Semantics

  // ---- powers of two ----

  lemma {:induction false} Pow2Sum(a: nat, b: nat)
    ensures Pow2(a + b) == Pow2(a) * Pow2(b)
  {
    if a > 0 {
      Pow2Sum(a - 1, b);
      assert Pow2(a + b) == 2 * Pow2(a - 1 + b);
      Reassociate(2, Pow2(a - 1), Pow2(b));
    }
  }

  lemma Pow2Grows(a: nat, b: nat)
    requires a <= b
    ensures Pow2(a) <= Pow2(b)
  {
    Pow2Sum(a, b - a);
    ScaleUp(Pow2(a), Pow2(b - a));
  }

  lemma Pow2Byte()
    ensures Pow2(0) == 1 && Pow2(8) == 0x100
  {
    assert Pow2(2) == 4;
    Pow2Sum(2, 2);
    Pow2Sum(4, 4);
  }

  lemma Pow2Words()
    ensures Pow2(32) == 0x1_0000_0000 && Pow2(64) == 0x1_0000_0000_0000_0000
  {
    Pow2Byte();
    Pow2Sum(8, 8);
    Pow2Sum(16, 16);
    Pow2Sum(32, 32);
  }

  lemma Reassociate(a: int, b: int, c: int)
    ensures a * (b * c) == (a * b) * c
  {}

  lemma ScaleUp(a: nat, b: nat)
    requires b >= 1
    ensures a <= a * b
  {}

  // ---- residues ----

  ghost function Times(k: int, m: int): int { k * m }

  ghost predicate Congruent(a: int, b: int, m: int) { exists k :: a == b + Times(k, m) }

  predicate Proper(v: Bv) { v.value < Pow2(v.width) }

  /** The bit-vector of this width that stands for the integer. */
  ghost predicate Residue(v: Bv, n: int, width: nat) {
    v.width == width && Proper(v) && Congruent(v.value, n, Pow2(width))
  }

  lemma Congruence(a: int, b: int, k: int, m: int)
    requires a == b + k * m
    ensures Congruent(a, b, m) && Congruent(b, a, m)
  {
    assert a == b + Times(k, m);
    assert b == a + Times(-k, m);
  }

  lemma CongruentTransitive(a: int, b: int, c: int, m: int)
    requires Congruent(a, b, m) && Congruent(b, c, m)
    ensures Congruent(a, c, m)
  {
    var k :| a == b + Times(k, m);
    var j :| b == c + Times(j, m);
    assert Times(k, m) + Times(j, m) == Times(k + j, m);
  }

  lemma CongruentSum(a: int, b: int, c: int, d: int, m: int)
    requires Congruent(a, b, m) && Congruent(c, d, m)
    ensures Congruent(a + c, b + d, m)
  {
    var k :| a == b + Times(k, m);
    var j :| c == d + Times(j, m);
    assert Times(k, m) + Times(j, m) == Times(k + j, m);
  }

  lemma CongruentScaled(a: int, b: int, c: int, m: int)
    requires Congruent(a, b, m)
    ensures Congruent(a * c, b * c, m)
  {
    var k :| a == b + Times(k, m);
    assert (b + k * m) * c == b * c + (k * c) * m;
    Congruence(a * c, b * c, k * c, m);
  }

  lemma CongruentProduct(a: int, b: int, c: int, d: int, m: int)
    requires Congruent(a, b, m) && Congruent(c, d, m)
    ensures Congruent(a * c, b * d, m)
  {
    CongruentScaled(a, b, c, m);
    CongruentScaled(c, d, b, m);
    assert c * b == b * c && d * b == b * d;
    CongruentTransitive(a * c, b * c, b * d, m);
  }

  lemma CongruentFlip(a: int, b: int, m: int)
    requires Congruent(a, b, m)
    ensures Congruent(b, a, m) && Congruent(-a, -b, m)
  {
    var k :| a == b + Times(k, m);
    Congruence(a, b, k, m);
    assert -a == -b + Times(-k, m);
  }

  /** A multiple is at least as far from zero as the number and as the factor. */
  lemma Multiples(k: int, m: int)
    requires m > 0
    ensures k >= 1 ==> m <= k * m && k <= k * m
    ensures k <= -1 ==> k * m <= -m
  {
    if k >= 1 {
      assert (k - 1) * m == k * m - m;
      assert k * (m - 1) == k * m - k;
    } else if k <= -1 {
      assert (-1 - k) * m == -m - k * m;
    }
  }

  lemma SmallMultiple(k: int, m: int)
    requires m > 0 && -m < k * m < m
    ensures k == 0
  {
    Multiples(k, m);
  }

  /** Quotient and remainder are unique. */
  lemma DivisionIs(a: int, q: int, r: int, p: int)
    requires 0 <= r < p && a == q * p + r
    ensures a / p == q && a % p == r
  {
    assert a == p * (a / p) + a % p;
    assert (q - a / p) * p == q * p - (a / p) * p;
    SmallMultiple(q - a / p, p);
  }

  /** A residue is unique. */
  lemma ResidueUnique(v: Bv, u: Bv, n: int, width: nat)
    requires Residue(v, n, width) && Residue(u, n, width)
    ensures v == u
  {
    var m := Pow2(width);
    CongruentFlip(u.value, n, m);
    CongruentTransitive(v.value, n, u.value, m);
    var k :| v.value == u.value + Times(k, m);
    SmallMultiple(k, m);
  }

  lemma WrapIsResidue(n: int, width: nat)
    ensures Residue(Wrap(n, width), n, width)
  {
    var m := Pow2(width);
    assert n == n % m + (n / m) * m;
    Congruence(n, n % m, n / m, m);
  }

  lemma ProperIsResidue(v: Bv)
    requires Proper(v)
    ensures Residue(v, v.value, v.width)
  {
    Congruence(v.value, v.value, 0, Pow2(v.width));
  }

  /** Dividing the modulus keeps a congruence. */
  lemma CongruentBelow(a: int, b: int, small: nat, large: nat)
    requires small <= large && Congruent(a, b, Pow2(large))
    ensures Congruent(a, b, Pow2(small))
  {
    var k :| a == b + Times(k, Pow2(large));
    Pow2Sum(large - small, small);
    Reassociate(k, Pow2(large - small), Pow2(small));
    Congruence(a, b, k * Pow2(large - small), Pow2(small));
  }

  /** Fitting a vector to a width cuts high bits off or fills up with zeros. */
  lemma FitIsResidue(v: Bv, width: nat)
    requires Proper(v)
    ensures Residue(FitWidth(v, width), v.value, width)
    ensures v.width <= width ==> FitWidth(v, width).value == v.value
  {
    WrapIsResidue(v.value, width);
    if v.width <= width {
      Pow2Grows(v.width, width);
      Congruence(v.value, v.value, 0, Pow2(width));
    }
  }

  lemma NegateIsResidue(v: Bv)
    requires Proper(v)
    ensures Residue(Negate(v), -(v.value as int), v.width)
  {
    if v.value == 0 { ProperIsResidue(v); } else { WrapIsResidue(-(v.value as int), v.width); }
  }

  // ---- signed values ----

  predicate InSignedRange(n: int, width: nat) {
    if width == 0 then n == 0 else var half: int := Pow2(width - 1); -half <= n < half
  }

  /** The integer in the signed range that a vector stands for. */
  lemma SignedMeans(v: Bv)
    requires Proper(v)
    ensures Congruent(Signed(v), v.value, Pow2(v.width)) && InSignedRange(Signed(v), v.width)
  {
    Congruence(v.value, v.value, 0, Pow2(v.width));
    if v.width > 0 && v.value >= Pow2(v.width - 1) { Congruence(v.value, Signed(v), 1, Pow2(v.width)); }
  }

  lemma SignedUnique(v: Bv, u: Bv)
    requires Proper(v) && Proper(u) && v.width == u.width && Signed(v) == Signed(u)
    ensures v == u
  {
    SignedMeans(v);
    SignedMeans(u);
    CongruentFlip(Signed(v), v.value, Pow2(v.width));
    CongruentFlip(Signed(u), u.value, Pow2(v.width));
    ResidueUnique(v, u, Signed(v), v.width);
  }

  /** An integer in the signed range is the signed value of its residue. */
  lemma WrapKeepsSigned(n: int, width: nat)
    requires InSignedRange(n, width)
    ensures Signed(Wrap(n, width)) == n
  {
    var m := Pow2(width);
    if n >= 0 { DivisionIs(n, 0, n, m); } else { DivisionIs(n, -1, n + m, m); }
  }

  // ---- bits ----

  /** Bit `k` of an integer in two's complement. */
  function BitAt(a: int, k: nat): nat
    decreases k
  {
    if k == 0 then a % 2 else BitAt(a / 2, k - 1)
  }

  lemma {:induction false} BitAtIsBit(a: int, k: nat)
    ensures BitAt(a, k) < 2
    decreases k
  {
    if k > 0 { BitAtIsBit(a / 2, k - 1); }
  }

  /** A power of two is one bit. */
  lemma {:induction false} BitOfPower(n: nat, k: nat)
    ensures BitAt(Pow2(n), k) == if k == n then 1 else 0
    decreases n
  {
    if n > 0 && k > 0 {
      assert Pow2(n) / 2 == Pow2(n - 1);
      BitOfPower(n - 1, k - 1);
    } else if k > 0 {
      BitOfZero(k - 1);
    }
  }

  lemma {:induction false} BitOfZero(k: nat)
    ensures BitAt(0, k) == 0
  {
    if k > 0 { BitOfZero(k - 1); }
  }

  /** The bits below the width determine a vector's value. */
  lemma {:induction false} BitsDetermine(a: nat, b: nat, n: nat)
    requires a < Pow2(n) && b < Pow2(n) && forall k :: 0 <= k < n ==> BitAt(a, k) == BitAt(b, k)
    ensures a == b
    decreases n
  {
    if n > 0 {
      assert BitAt(a, 0) == BitAt(b, 0);
      forall k | 0 <= k < n - 1 ensures BitAt(a / 2, k) == BitAt(b / 2, k) {
        assert BitAt(a, k + 1) == BitAt(b, k + 1);
      }
      BitsDetermine(a / 2, b / 2, n - 1);
    }
  }

  ghost predicate Combines(kind: BitKind, a: nat, b: nat, r: nat) {
    match kind
    case BitAnd => r == 1 <==> a == 1 && b == 1
    case BitOrKind => r == 1 <==> a == 1 || b == 1
    case BitXor => r == 1 <==> a != b
  }

  lemma {:induction false} BitwiseBits(kind: BitKind, a: nat, b: nat, n: nat, k: nat)
    requires k < n
    ensures Combines(kind, BitAt(a, k), BitAt(b, k), BitAt(Bitwise(kind, a, b, n), k))
    decreases n
  {
    var low := Bit(kind, a % 2, b % 2);
    assert Bitwise(kind, a, b, n) / 2 == Bitwise(kind, a / 2, b / 2, n - 1);
    assert Bitwise(kind, a, b, n) % 2 == low;
    if k > 0 { BitwiseBits(kind, a / 2, b / 2, n - 1, k - 1); }
  }

  lemma {:induction false} BitwiseFits(kind: BitKind, a: nat, b: nat, n: nat)
    ensures Bitwise(kind, a, b, n) < Pow2(n)
  {
    if n > 0 { BitwiseFits(kind, a / 2, b / 2, n - 1); }
  }

  /** Every bit of `r` combines the bits of `x` and `y` at its place. */
  ghost predicate BitByBit(kind: BitKind, x: Bv, y: Bv, r: Bv) {
    forall k :: 0 <= k < x.width ==> Combines(kind, BitAt(x.value, k), BitAt(y.value, k), BitAt(r.value, k))
  }

  lemma BitwiseMeans(kind: BitKind, x: Bv, y: Bv)
    ensures var r := Bv(x.width, Bitwise(kind, x.value, y.value, x.width)); Proper(r) && BitByBit(kind, x, y, r)
  {
    BitwiseFits(kind, x.value, y.value, x.width);
    forall k | 0 <= k < x.width
      ensures Combines(kind, BitAt(x.value, k), BitAt(y.value, k),
                       BitAt(Bitwise(kind, x.value, y.value, x.width), k))
    {
      BitwiseBits(kind, x.value, y.value, x.width, k);
    }
  }

  lemma BitByBitUnique(kind: BitKind, x: Bv, y: Bv, r: Bv, s: Bv)
    requires r.width == x.width && s.width == x.width && Proper(r) && Proper(s)
    requires BitByBit(kind, x, y, r) && BitByBit(kind, x, y, s)
    ensures r == s
  {
    forall k | 0 <= k < x.width ensures BitAt(r.value, k) == BitAt(s.value, k) {
      BitAtIsBit(r.value, k);
      BitAtIsBit(s.value, k);
    }
    BitsDetermine(r.value, s.value, x.width);
  }

  // ---- shifts ----

  lemma ShiftLMeans(x: Bv, y: Bv)
    ensures Residue(ShiftL(x, y), x.value * Pow2(y.value), x.width)
  {
    WrapIsResidue(x.value * Pow2(y.value), x.width);
    if y.value >= x.width {
      Pow2Sum(y.value - x.width, x.width);
      Reassociate(x.value, Pow2(y.value - x.width), Pow2(x.width));
      Congruence(x.value * Pow2(y.value), 0, x.value * Pow2(y.value - x.width), Pow2(x.width));
    }
  }

  lemma ShiftRMeans(x: Bv, y: Bv)
    requires Proper(x)
    ensures ShiftR(x, y).width == x.width && ShiftR(x, y).value == x.value / Pow2(y.value)
  {
    var q := x.value / Pow2(y.value);
    if y.value >= x.width {
      Pow2Grows(x.width, y.value);
      SmallQuotient(x.value, Pow2(y.value));
    } else {
      QuotientBelow(x.value, Pow2(y.value));
      DivisionIs(q, 0, q, Pow2(x.width));
    }
  }

  lemma SmallQuotient(a: nat, p: nat)
    requires a < p
    ensures a / p == 0
  {
    DivisionIs(a, 0, a, p);
  }

  lemma QuotientBelow(a: nat, p: nat)
    requires p > 0
    ensures 0 <= a / p <= a
  {
    var q := a / p;
    assert a == q * p + a % p;
    Multiples(q, p);
  }

  /** Dividing by a positive number stays between the bounds. */
  lemma QuotientInRange(s: int, p: int, h: int)
    requires p > 0 && h >= 0 && -h <= s < h
    ensures -h <= s / p < h
  {
    if s >= 0 {
      QuotientBelow(s, p);
    } else {
      var t := -(s / p);
      assert s == p * (s / p) + s % p && p * (s / p) == -(t * p);
      assert (t - 1) * p == t * p - p;
      Multiples(t, p);
      Multiples(t - 1, p);
    }
  }

  /** A number below half the modulus in size has quotient zero or minus one for every larger power. */
  lemma SignQuotient(s: int, p: int)
    requires p > 0 && -p <= s < p
    ensures s / p == if s < 0 then -1 else 0
  {
    if s < 0 { DivisionIs(s, -1, s + p, p); } else { DivisionIs(s, 0, s, p); }
  }

  lemma ShiftRSignedMeans(x: Bv, y: Bv)
    requires Proper(x)
    ensures ShiftRSigned(x, y).width == x.width && Proper(ShiftRSigned(x, y))
    ensures Signed(ShiftRSigned(x, y)) == Signed(x) / Pow2(y.value)
  {
    var count := if y.value >= x.width then x.width else y.value;
    var s := Signed(x);
    SignedMeans(x);
    WrapIsResidue(s / Pow2(count), x.width);
    if y.value >= x.width {
      Pow2Grows(x.width, y.value);
      SignQuotient(s, Pow2(x.width));
      SignQuotient(s, Pow2(y.value));
    }
    QuotientInRange(s, Pow2(count), if x.width == 0 then 1 else Pow2(x.width - 1));
    WrapKeepsSigned(s / Pow2(count), x.width);
  }

  // ---- the operations ----

  /** What the mnemonic promises about its two sources and its result. */
  ghost predicate Means(mnemonic: string, x: Bv, y: Bv, r: Bv) {
    var m := Pow2(x.width);
    && r.width == x.width && Proper(r)
    && (mnemonic == "add" ==> Congruent(r.value, x.value + y.value, m))
    && (mnemonic == "sub" ==> Congruent(r.value + y.value, x.value, m))
    && (mnemonic in {"mul", "imul"} ==> Congruent(r.value, x.value * y.value, m))
    && (mnemonic == "and" ==> BitByBit(BitAnd, x, y, r))
    && (mnemonic in {"orr", "or"} ==> BitByBit(BitOrKind, x, y, r))
    && (mnemonic in {"eor", "xor"} ==> BitByBit(BitXor, x, y, r))
    && (mnemonic in {"lsl", "shl"} ==> Congruent(r.value, x.value * Pow2(y.value), m))
    && (mnemonic in {"lsr", "shr"} ==> r.value == x.value / Pow2(y.value))
    && (mnemonic in {"asr", "sar"} ==> Signed(r) == Signed(x) / Pow2(y.value))
  }

  const OPERATIONS := {"add", "sub", "mul", "imul", "and", "orr", "or", "eor", "xor", "lsl", "shl", "lsr", "shr", "asr",
      "sar"}

  lemma BinaryMeans(mnemonic: string, x: Bv, y: Bv)
    requires Proper(x)
    ensures Binary(mnemonic, x, y).Some? <==> mnemonic in OPERATIONS
    ensures mnemonic in OPERATIONS ==> Means(mnemonic, x, y, Binary(mnemonic, x, y).value)
  {
    if mnemonic in {"add", "sub", "mul", "imul"} {
      WrapIsResidue(x.value + y.value, x.width);
      WrapIsResidue(x.value * y.value, x.width);
      SubMeans(x, y);
    } else if mnemonic in {"and", "orr", "or", "eor", "xor"} {
      BitwiseMeans(BitAnd, x, y);
      BitwiseMeans(BitOrKind, x, y);
      BitwiseMeans(BitXor, x, y);
    } else if mnemonic in OPERATIONS {
      ShiftMeans(mnemonic, x, y);
    }
  }

  lemma ShiftMeans(mnemonic: string, x: Bv, y: Bv)
    requires Proper(x) && mnemonic in {"lsl", "shl", "lsr", "shr", "asr", "sar"}
    ensures Shift(mnemonic, x, y).Some? && Means(mnemonic, x, y, Shift(mnemonic, x, y).value)
  {
    ShiftLMeans(x, y);
    ShiftRMeans(x, y);
    QuotientBelow(x.value, Pow2(y.value));
    ShiftRSignedMeans(x, y);
  }

  lemma SubMeans(x: Bv, y: Bv)
    ensures var r := Wrap(x.value - y.value, x.width); Proper(r) && Congruent(r.value + y.value, x.value, Pow2(x.width))
  {
    var r, m := Wrap(x.value - y.value, x.width), Pow2(x.width);
    WrapIsResidue(x.value - y.value, x.width);
    Congruence(y.value, y.value, 0, m);
    CongruentSum(r.value, x.value - y.value, y.value, y.value, m);
  }

  lemma MeansUnique(mnemonic: string, x: Bv, y: Bv, r: Bv, s: Bv)
    requires mnemonic in OPERATIONS && Means(mnemonic, x, y, r) && Means(mnemonic, x, y, s)
    ensures r == s
  {
    var m := Pow2(x.width);
    if mnemonic == "sub" {
      CongruentFlip(s.value + y.value, x.value, m);
      CongruentTransitive(r.value + y.value, x.value, s.value + y.value, m);
      var k :| r.value + y.value == s.value + y.value + Times(k, m);
      SmallMultiple(k, m);
    } else if mnemonic == "add" {
      ResidueUnique(r, s, x.value + y.value, x.width);
    } else if mnemonic in {"mul", "imul"} {
      ResidueUnique(r, s, x.value * y.value, x.width);
    } else if mnemonic in {"lsl", "shl"} {
      ResidueUnique(r, s, x.value * Pow2(y.value), x.width);
    } else if mnemonic == "and" {
      BitByBitUnique(BitAnd, x, y, r, s);
    } else if mnemonic in {"orr", "or"} {
      BitByBitUnique(BitOrKind, x, y, r, s);
    } else if mnemonic in {"eor", "xor"} {
      BitByBitUnique(BitXor, x, y, r, s);
    } else if mnemonic in {"asr", "sar"} {
      SignedUnique(r, s);
    }
  }

  /** The operator table computes exactly what the mnemonics promise. */
  lemma BinaryMeansIff(mnemonic: string, x: Bv, y: Bv, r: Bv)
    requires Proper(x)
    ensures Binary(mnemonic, x, y) == Some(r) <==> mnemonic in OPERATIONS && Means(mnemonic, x, y, r)
  {
    BinaryMeans(mnemonic, x, y);
    if mnemonic in OPERATIONS && Means(mnemonic, x, y, r) {
      MeansUnique(mnemonic, x, y, r, Binary(mnemonic, x, y).value);
    }
  }

  /** Adding back what was subtracted restores the first source. */
  lemma AddUndoesSub(x: Bv, y: Bv)
    requires Proper(x) && x.width == y.width
    ensures Binary("add", Binary("sub", x, y).value, y) == Some(x)
  {
    var d := Binary("sub", x, y).value;
    BinaryMeans("sub", x, y);
    CongruentFlip(d.value + y.value, x.value, Pow2(x.width));
    BinaryMeansIff("add", d, y, x);
  }
}
