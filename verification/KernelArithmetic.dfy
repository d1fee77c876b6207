/** What the instructions of a kernel compute, said with residues, bits, quotients and remainders. */
module KernelArithmetic {
  import opened Wrappers
  import opened KernelSchema
  import opened KernelLowering
  import opened KernelRules
  import Laws = OperatorLaws
  import Bv = Semantics

  function Vector(t: Ty, a: nat): Bv.Bv { Bv.Bv(Bits(t), a) }

  /** The evaluator's mnemonic for the same operation. */
  function Mnemonic(opcode: Opcode): Option<string> {
    match opcode
    case Add => Some("add")
    case Sub => Some("sub")
    case Mul => Some("mul")
    case And => Some("and")
    case Or => Some("or")
    case Xor => Some("xor")
    case Shl => Some("lsl")
    case LShr => Some("lsr")
    case AShr => Some("asr")
    case _ => None
  }

  ghost predicate DividesUnsigned(a: nat, b: nat, q: nat, r: nat) { a == q * b + r && r < b }

  /** The quotient rounds toward zero: the remainder is smaller than the divisor and has the sign of the dividend. */
  ghost predicate DividesSigned(x: int, y: int, q: int, r: int) {
    x == q * y + r && Magnitude(r) < Magnitude(y) && (r > 0 ==> x > 0) && (r < 0 ==> x < 0)
  }

  function Magnitude(x: int): nat { if x < 0 then -x else x }

  lemma ReduceIsResidue(t: Ty, n: int)
    ensures Laws.Residue(Vector(t, Reduce(t, n)), n, Bits(t))
  {
    ModulusIsPower(t);
    Laws.WrapIsResidue(n, Bits(t));
  }

  lemma ReduceKeepsSigned(t: Ty, n: int)
    requires Laws.InSignedRange(n, Bits(t))
    ensures SignedOf(t, Reduce(t, n)) == n
  {
    ModulusIsPower(t);
    ReduceIsResidue(t, n);
    SignedOfMeans(t, Reduce(t, n));
    Laws.WrapKeepsSigned(n, Bits(t));
  }

  lemma SignedInRange(t: Ty, a: nat)
    requires a < Modulus(t)
    ensures Laws.InSignedRange(SignedOf(t, a), Bits(t))
  {
    ModulusIsPower(t);
    SignedOfMeans(t, a);
    Laws.SignedMeans(Vector(t, a));
  }

  /** Ring operations, bitwise operations and shifts, as far as these are defined. */
  lemma ApplyMeans(opcode: Opcode, t: Ty, a: nat, b: nat)
    requires a < Modulus(t) && b < Modulus(t) && Mnemonic(opcode).Some?
    ensures Apply(opcode, t, a, b).Some? <==> (opcode in {Shl, LShr, AShr} ==> b < Bits(t))
    ensures Apply(opcode, t, a, b).Some? ==>
              Laws.Means(Mnemonic(opcode).value, Vector(t, a), Vector(t, b), Vector(t, Apply(opcode, t, a, b).value))
  {
    ModulusIsPower(t);
    if Apply(opcode, t, a, b).Some? {
      if opcode in {And, Or, Xor} { BitwiseReduced(opcode, t, a, b); } else { ArithmeticReduced(opcode, t, a, b); }
      Laws.BinaryMeans(Mnemonic(opcode).value, Vector(t, a), Vector(t, b));
    }
  }

  lemma ArithmeticReduced(opcode: Opcode, t: Ty, a: nat, b: nat)
    requires a < Modulus(t) && opcode in {Add, Sub, Mul, Shl, LShr, AShr} && Apply(opcode, t, a, b).Some?
    ensures Some(Vector(t, Apply(opcode, t, a, b).value))
            == Bv.Binary(Mnemonic(opcode).value, Vector(t, a), Vector(t, b))
  {
    ModulusIsPower(t);
    SignedOfMeans(t, a);
  }

  lemma BitwiseReduced(opcode: Opcode, t: Ty, a: nat, b: nat)
    requires opcode in {And, Or, Xor}
    ensures Some(Vector(t, Apply(opcode, t, a, b).value))
            == Bv.Binary(Mnemonic(opcode).value, Vector(t, a), Vector(t, b))
  {
    var kind := match opcode case And => Bv.BitAnd case Or => Bv.BitOrKind case _ => Bv.BitXor;
    Laws.BitwiseFits(kind, a, b, Bits(t));
    ModulusIsPower(t);
    var r := Bv.Bitwise(kind, a, b, Bits(t));
    Laws.DivisionIs(r, 0, r, Modulus(t));
  }

  /** Unsigned division is defined unless the divisor is zero. */
  lemma UnsignedDivision(t: Ty, a: nat, b: nat)
    requires a < Modulus(t) && b < Modulus(t)
    ensures Apply(UDiv, t, a, b).Some? <==> b != 0
    ensures Apply(URem, t, a, b).Some? <==> b != 0
    ensures b != 0 ==> DividesUnsigned(a, b, Apply(UDiv, t, a, b).value, Apply(URem, t, a, b).value)
  {
    if b != 0 {
      Laws.QuotientBelow(a, b);
      Laws.DivisionIs(a / b, 0, a / b, Modulus(t));
      Laws.DivisionIs(a % b, 0, a % b, Modulus(t));
      assert a == (a / b) * b + a % b;
    }
  }

  /** Quotient and remainder of a magnitude. */
  lemma Euclid(m: nat, y: int) returns (k: int, r: nat)
    requires y != 0
    ensures m == k * y + r && 0 <= k * y && r < Magnitude(y) && k == m / y
  {
    k, r := m / y, m % y;
    MagnitudeOfProduct(k, y);
    Laws.Multiples(Magnitude(k), Magnitude(y));
  }

  lemma Negated(k: int, y: int)
    ensures (-k) * y == -(k * y)
  {}

  lemma TruncDivDivides(x: int, y: int) returns (rem: int)
    requires y != 0
    ensures DividesSigned(x, y, TruncDiv(x, y), rem)
  {
    var k, r := Euclid(Magnitude(x), y);
    Negated(k, y);
    rem := if x >= 0 then r else -(r as int);
  }

  lemma QuotientShrinks(m: nat, y: int, k: int, r: nat)
    requires y != 0 && m == k * y + r && 0 <= k * y
    ensures Magnitude(k) <= m && (y != 1 && y != -1 && m != 0 ==> Magnitude(k) < m)
  {
    MagnitudeOfProduct(k, y);
    assert k * y <= m;
    Laws.Multiples(Magnitude(k), Magnitude(y));
    if Magnitude(y) >= 2 { Doubles(Magnitude(k), Magnitude(y)); }
  }

  lemma TruncDivShrinks(x: int, y: int)
    requires y != 0
    ensures Magnitude(TruncDiv(x, y)) <= Magnitude(x)
    ensures y != 1 && y != -1 && x != 0 ==> Magnitude(TruncDiv(x, y)) < Magnitude(x)
  {
    var k, r := Euclid(Magnitude(x), y);
    QuotientShrinks(Magnitude(x), y, k, r);
  }

  lemma MagnitudeOfProduct(k: int, y: int)
    ensures Magnitude(k) * Magnitude(y) == Magnitude(k * y)
  {
    if k < 0 { assert (-k) * y == -(k * y); }
    if y < 0 { assert k * (-y) == -(k * y); }
    if k < 0 && y < 0 { assert (-k) * (-y) == k * y; }
    SignOfProduct(Magnitude(k), Magnitude(y));
  }

  lemma SignOfProduct(a: nat, b: nat)
    ensures a * b >= 0
  {}

  lemma Doubles(k: nat, n: nat)
    requires n >= 2
    ensures k * n >= 2 * k
  {
    SignOfProduct(k, n - 2);
    assert k * n == k * (n - 2) + 2 * k;
  }

  /** Signed division is defined unless the divisor is zero or the quotient does not fit. */
  lemma SignedDivision(t: Ty, a: nat, b: nat)
    requires a < Modulus(t) && b < Modulus(t)
    ensures var (x, y) := (SignedOf(t, a), SignedOf(t, b));
            var defined := y != 0 && !(y == -1 && 2 * x == -(Modulus(t) as int));
            && (Apply(SDiv, t, a, b).Some? <==> defined) && (Apply(SRem, t, a, b).Some? <==> defined)
            && (defined ==> DividesSigned(x, y, SignedOf(t, Apply(SDiv, t, a, b).value),
                                          SignedOf(t, Apply(SRem, t, a, b).value)))
  {
    var x, y := SignedOf(t, a), SignedOf(t, b);
    if y != 0 && !(y == -1 && 2 * x == -(Modulus(t) as int)) {
      var rem := TruncDivDivides(x, y);
      TruncDivShrinks(x, y);
      SignedInRange(t, a);
      SignedInRange(t, b);
      ModulusIsPower(t);
      ReduceKeepsSigned(t, TruncDiv(x, y));
      ReduceKeepsSigned(t, rem);
    }
  }

  lemma CompareMeans(p: Predicate, t: Ty, a: nat, b: nat)
    requires a < Modulus(t) && b < Modulus(t)
    ensures p in {Eq, Ne} ==> (Compare(p, t, a, b) == 1 <==> if p == Eq then a == b else a != b)
    ensures p in {Ult, Slt} ==> (Compare(p, t, a, b) == 1 <==>
                                   if p == Ult then a < b else Bv.Signed(Vector(t, a)) < Bv.Signed(Vector(t, b)))
    ensures Compare(Ugt, t, a, b) == Compare(Ult, t, b, a) && Compare(Sgt, t, a, b) == Compare(Slt, t, b, a)
    ensures Compare(Ule, t, a, b) == 1 - Compare(Ult, t, b, a) && Compare(Sle, t, a, b) == 1 - Compare(Slt, t, b, a)
    ensures Compare(Uge, t, a, b) == 1 - Compare(Ult, t, a, b) && Compare(Sge, t, a, b) == 1 - Compare(Slt, t, a, b)
  {
    SignedOfMeans(t, a);
    SignedOfMeans(t, b);
  }

  // ---- memory ----

  lemma OtherByte(addr: nat, d: nat)
    requires 0 < d < M64
    ensures (addr + d) % M64 != addr % M64
  {}

  /** Writing does not reach bytes in front of the first one, as long as it does not wrap around to them. */
  lemma {:induction false} WriteKeeps(mem: Memory, addr: nat, n: nat, v: nat, at: nat, d: nat)
    requires addr == at + d && d > 0 && d + n <= M64
    ensures WriteBytes(mem, addr, n, v)(at % M64) == mem(at % M64)
    decreases n
  {
    if n > 0 {
      OtherByte(at, d);
      WriteKeeps((x: nat) => if x == addr % M64 then v % 256 else mem(x), addr + 1, n - 1, v / 256, at, d + 1);
    }
  }

  function Bytes(n: nat): nat { if n == 0 then 1 else 256 * Bytes(n - 1) }

  /** What was written is read back, cut to the bytes written. */
  lemma {:induction false} ReadBack(mem: Memory, addr: nat, n: nat, v: nat)
    requires n <= M64 && v < Bytes(n)
    ensures ReadBytes(WriteBytes(mem, addr, n, v), addr, n) == v
    decreases n
  {
    if n > 0 {
      var first := (x: nat) => if x == addr % M64 then v % 256 else mem(x);
      WriteKeeps(first, addr + 1, n - 1, v / 256, addr, 1);
      ReadBack(first, addr + 1, n - 1, v / 256);
    }
  }
}
