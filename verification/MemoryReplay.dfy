/** Replaying recorded memory accesses, and when their order does not matter. */
module MemoryReplay {
  const M64: nat := 0x1_0000_0000_0000_0000

  datatype Kind = Read | Write

  /** One access of a concrete run. */
  datatype Access = Access(kind: Kind, address: int, width: nat, value: int)

  /** The byte at each address. */
  type Memory = int -> int

  /** Byte `x` is one of those accessed; addresses wrap at 64 bits. */
  predicate Covers(a: Access, x: int) { Offset(a, x) < a.width }

  function Offset(a: Access, x: int): nat { (x - a.address) % M64 }

  /** Byte `k` of a little-endian value. */
  function ByteAt(value: int, k: nat): int
    decreases k
  {
    if k == 0 then value % 256 else ByteAt(value / 256, k - 1)
  }

  function Load(mem: Memory, address: int, width: nat): int
    decreases width
  {
    if width == 0 then 0 else mem(address % M64) + 256 * Load(mem, address + 1, width - 1)
  }

  function Perform(a: Access, mem: Memory): Memory {
    if a.kind == Read then mem else x => if Covers(a, x) then ByteAt(a.value, Offset(a, x)) else mem(x)
  }

  /** The memory a sequence of accesses leaves. */
  function Replay(s: seq<Access>, mem: Memory): Memory {
    if s == [] then mem else Perform(s[|s| - 1], Replay(s[..|s| - 1], mem))
  }

  /** Every read saw what memory held at that moment. */
  ghost predicate ReadsAgree(s: seq<Access>, mem: Memory) {
    forall i :: 0 <= i < |s| && s[i].kind == Read ==> s[i].value == Load(Replay(s[..i], mem), s[i].address, s[i].width)
  }

  /** The two sequences cannot be told apart by any memory they start from. */
  ghost predicate SameBehaviour(a: seq<Access>, b: seq<Access>) {
    forall mem: Memory :: (ReadsAgree(a, mem) <==> ReadsAgree(b, mem))
        && forall x :: Replay(a, mem)(x) == Replay(b, mem)(x)
  }

  predicate OneKind(s: seq<Access>) { forall i, j :: 0 <= i < |s| && 0 <= j < |s| ==> s[i].kind == s[j].kind }

  ghost predicate Disjoint(s: seq<Access>) {
    forall i, j, x :: 0 <= i < |s| && 0 <= j < |s| && i != j ==> !(Covers(s[i], x) && Covers(s[j], x))
  }

  lemma {:induction false} UntouchedByte(s: seq<Access>, mem: Memory, x: int)
    requires forall i :: 0 <= i < |s| ==> s[i].kind == Read || !Covers(s[i], x)
    ensures Replay(s, mem)(x) == mem(x)
  {
    if s != [] { UntouchedByte(s[..|s| - 1], mem, x); }
  }

  lemma {:induction false} WrittenByte(s: seq<Access>, mem: Memory, x: int, i: nat)
    requires i < |s| && s[i].kind == Write && Covers(s[i], x) && Disjoint(s)
    ensures Replay(s, mem)(x) == ByteAt(s[i].value, Offset(s[i], x))
    decreases |s|
  {
    var front := s[..|s| - 1];
    if i < |s| - 1 {
      assert Disjoint(front) by {
        forall j, k, y | 0 <= j < |front| && 0 <= k < |front| && j != k
          ensures !(Covers(front[j], y) && Covers(front[k], y))
        {
          assert !(Covers(s[j], y) && Covers(s[k], y));
        }
      }
      WrittenByte(front, mem, x, i);
      assert !(Covers(s[i], x) && Covers(s[|s| - 1], x));
    }
  }

  lemma {:induction false} ReadsLeaveMemory(s: seq<Access>, mem: Memory)
    requires forall i :: 0 <= i < |s| ==> s[i].kind == Read
    ensures Replay(s, mem) == mem
  {
    if s != [] { ReadsLeaveMemory(s[..|s| - 1], mem); }
  }

  lemma ReadsOnly(s: seq<Access>, mem: Memory)
    requires forall i :: 0 <= i < |s| ==> s[i].kind == Read
    ensures ReadsAgree(s, mem) <==> forall a :: a in s ==> a.value == Load(mem, a.address, a.width)
  {
    forall i | 0 <= i < |s| ensures Replay(s[..i], mem) == mem { ReadsLeaveMemory(s[..i], mem); }
    if ReadsAgree(s, mem) {
      forall a | a in s ensures a.value == Load(mem, a.address, a.width) {
        var i :| 0 <= i < |s| && s[i] == a;
        assert s[i].kind == Read;
      }
    }
  }

  lemma SameFinalByte(a: seq<Access>, b: seq<Access>, mem: Memory, x: int)
    requires (forall e :: e in a <==> e in b) && Disjoint(a) && Disjoint(b)
    ensures Replay(a, mem)(x) == Replay(b, mem)(x)
  {
    if i :| 0 <= i < |a| && a[i].kind == Write && Covers(a[i], x) {
      assert a[i] in b;
      var j :| 0 <= j < |b| && b[j] == a[i];
      WrittenByte(a, mem, x, i);
      WrittenByte(b, mem, x, j);
    } else {
      forall j | 0 <= j < |b| ensures b[j].kind == Read || !Covers(b[j], x) { assert b[j] in a; }
      UntouchedByte(a, mem, x);
      UntouchedByte(b, mem, x);
    }
  }

  /** Accesses of one kind that do not overlap may be made in any order. */
  lemma OrderIrrelevant(a: seq<Access>, b: seq<Access>)
    requires (forall e :: e in a <==> e in b) && OneKind(a) && Disjoint(a) && Disjoint(b)
    ensures SameBehaviour(a, b)
  {
    forall mem: Memory
      ensures (ReadsAgree(a, mem) <==> ReadsAgree(b, mem)) && forall x :: Replay(a, mem)(x) == Replay(b, mem)(x)
    {
      forall x ensures Replay(a, mem)(x) == Replay(b, mem)(x) { SameFinalByte(a, b, mem, x); }
      SameReads(a, b, mem);
    }
  }

  lemma SameReads(a: seq<Access>, b: seq<Access>, mem: Memory)
    requires (forall e :: e in a <==> e in b) && OneKind(a)
    ensures ReadsAgree(a, mem) <==> ReadsAgree(b, mem)
  {
    forall j | 0 <= j < |b| && 0 < |a| ensures b[j].kind == a[0].kind {
      assert b[j] in a;
    }
    if a != [] && a[0].kind == Read {
      assert forall i :: 0 <= i < |a| ==> a[i].kind == a[0].kind;
      ReadsOnly(a, mem);
      ReadsOnly(b, mem);
    } else {
      assert a == [] ==> forall j :: 0 <= j < |b| ==> b[j] in a;
    }
  }

  lemma DifferAt(a: seq<Access>, b: seq<Access>, mem: Memory, x: int)
    requires Replay(a, mem)(x) != Replay(b, mem)(x)
    ensures !SameBehaviour(a, b)
  {}

  /** Reads may be made in any order. */
  lemma ReadsAlike(a: seq<Access>, b: seq<Access>)
    requires (forall i :: 0 <= i < |a| ==> a[i].kind == Read) && (forall i :: 0 <= i < |b| ==> b[i].kind == Read)
    requires forall e :: e in a <==> e in b
    ensures SameBehaviour(a, b)
  {
    forall mem: Memory
      ensures (ReadsAgree(a, mem) <==> ReadsAgree(b, mem)) && forall x :: Replay(a, mem)(x) == Replay(b, mem)(x)
    {
      ReadsOnly(a, mem);
      ReadsOnly(b, mem);
      ReadsLeaveMemory(a, mem);
      ReadsLeaveMemory(b, mem);
    }
  }

  /** Where two stores overlap, the later one decides. */
  lemma LastStoreWins(a: Access, b: Access, x: int)
    requires a.kind == Write && b.kind == Write && Covers(a, x) && Covers(b, x)
    requires ByteAt(a.value, Offset(a, x)) != ByteAt(b.value, Offset(b, x))
    ensures !SameBehaviour([a, b], [b, a])
  {
    var mem: Memory := _ => 0;
    assert [a, b][..1] == [a] && [b, a][..1] == [b];
    assert Replay([a, b], mem) == Perform(b, Replay([a], mem));
    assert Replay([b, a], mem) == Perform(a, Replay([b], mem));
    assert Replay([a, b], mem)(x) == ByteAt(b.value, Offset(b, x));
    assert Replay([b, a], mem)(x) == ByteAt(a.value, Offset(a, x));
  }

  // ---- values that show a byte ----

  /** A value whose lowest bytes are all 255. */
  function AllOnes(n: nat): nat { if n == 0 then 0 else 255 + 256 * AllOnes(n - 1) }

  lemma {:induction false} AllOnesByte(n: nat, k: nat)
    requires k < n
    ensures ByteAt(AllOnes(n), k) == 255
    decreases k
  {
    assert AllOnes(n) % 256 == 255 && AllOnes(n) / 256 == AllOnes(n - 1);
    if k > 0 { AllOnesByte(n - 1, k - 1); }
  }

  lemma {:induction false} ZeroByte(k: nat)
    ensures ByteAt(0, k) == 0
    decreases k
  {
    if k > 0 { ZeroByte(k - 1); }
  }

  // ---- common bytes ----

  /** Two nonempty accesses have a byte in common, modulo 2^64. */
  predicate ShareByte(a: Access, b: Access) {
    (b.address - a.address) % M64 < a.width || (a.address - b.address) % M64 < b.width
  }

  lemma ModuloDifference(x: int, a: int, b: int)
    ensures var p, q := (x - a) % M64, (x - b) % M64; (b - a) % M64 == if p >= q then p - q else p - q + M64
  {
    var p, q, m, n := (x - a) % M64, (x - b) % M64, (x - a) / M64, (x - b) / M64;
    assert x - a == m * M64 + p && x - b == n * M64 + q;
    assert b - a == (m - n) * M64 + (p - q);
    RemainderIs(b - a, m - n, p - q);
    if p < q { RemainderIs(b - a, m - n - 1, p - q + M64); }
  }

  lemma RemainderIs(v: int, k: int, r: int)
    requires v == k * M64 + r
    ensures 0 <= r < M64 ==> v % M64 == r
  {}

  /** The comparison of addresses finds a common byte exactly when there is one. */
  lemma ShareByteIff(a: Access, b: Access)
    requires a.width >= 1 && b.width >= 1
    ensures ShareByte(a, b) <==> exists x :: Covers(a, x) && Covers(b, x)
  {
    if ShareByte(a, b) {
      var x := if (b.address - a.address) % M64 < a.width then b.address else a.address;
      assert Covers(a, x) && Covers(b, x);
    }
    if x :| Covers(a, x) && Covers(b, x) {
      ModuloDifference(x, a.address, b.address);
      ModuloDifference(x, b.address, a.address);
    }
  }

  /** The last store to a byte decides what it holds. */
  lemma {:induction false} LastStoreTo(s: seq<Access>, mem: Memory, x: int, i: nat)
    requires i < |s| && s[i].kind == Write && Covers(s[i], x)
    requires forall j :: i < j < |s| ==> s[j].kind == Read || !Covers(s[j], x)
    ensures Replay(s, mem)(x) == ByteAt(s[i].value, Offset(s[i], x))
    decreases |s|
  {
    if i < |s| - 1 { LastStoreTo(s[..|s| - 1], mem, x, i); }
  }

  /** Ranges that follow one another within one turn of the address space share no byte. */
  lemma ApartRanges(a: Access, b: Access, x: int)
    requires a.address + a.width <= b.address && b.address + b.width - a.address <= M64
    ensures !(Covers(a, x) && Covers(b, x))
  {
    var p, q := Offset(a, x), Offset(b, x);
    var m, n := (x - a.address) / M64, (x - b.address) / M64;
    assert x == a.address + m * M64 + p && x == b.address + n * M64 + q;
    assert (m - n) * M64 == b.address + q - a.address - p;
    NoMultipleBetween(m - n);
  }

  lemma NoMultipleBetween(k: int)
    ensures k * M64 <= 0 || k * M64 >= M64
  {}
}
