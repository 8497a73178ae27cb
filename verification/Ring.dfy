/** The point-cloud ring queue: 32-bit indices that run free and are masked into a power-of-two buffer. */
module Ring {
  import opened Bytes

  type uint32 = n: int | 0 <= n < TWO_32

  // ------------------------------------------------------ powers of two

  function Pow2(k: nat): (r: nat)
    ensures r > 0
  {
    if k == 0 then 1 else 2 * Pow2(k - 1)
  }

  /** Bitwise and of unsigned numbers. */
  function BitAnd(x: nat, y: nat): (r: nat)
    ensures r <= x && r <= y
  {
    if x == 0 || y == 0 then 0
    else (if x % 2 == 1 && y % 2 == 1 then 1 else 0) + 2 * BitAnd(x / 2, y / 2)
  }

  lemma Double(x: nat, m: nat)
    requires m > 0
    ensures x % (2 * m) == x % 2 + 2 * (x / 2 % m)
  {
    var h, q := x / 2, x / 2 / m;
    assert h == q * m + h % m;
    assert x == 2 * (q * m) + (2 * (h % m) + x % 2);
    assert 2 * (q * m) == q * (2 * m);
    Remainder(x, 2 * m, q, 2 * (h % m) + x % 2);
  }

  lemma Remainder(x: int, m: int, q: int, r: int)
    requires m > 0 && x == q * m + r && 0 <= r < m
    ensures x % m == r && x / m == q
  {
    var d := x / m - q;
    assert x == (x / m) * m + x % m;
    assert r - x % m == d * m;
    assert d >= 1 ==> d * m >= m;
    assert d <= -1 ==> d * m <= -m;
  }

  /** Masking with one less than a power of two takes the remainder. */
  lemma {:induction false} MaskIsRemainder(x: nat, k: nat)
    ensures BitAnd(x, Pow2(k) - 1) == x % Pow2(k)
  {
    if k > 0 {
      var m := Pow2(k - 1);
      Double(x, m);
      assert (2 * m - 1) / 2 == m - 1;
      MaskIsRemainder(x / 2, k - 1);
    }
  }

  predicate IsPowerOf2(size: nat) {
    size != 0 && BitAnd(size, size - 1) == 0
  }

  /** The bit trick recognises exactly the powers of two. */
  lemma {:induction false} PowerOf2Meaning(size: nat)
    ensures IsPowerOf2(size) <==> exists k: nat :: size == Pow2(k)
  {
    if k: nat :| size == Pow2(k) {
      MaskIsRemainder(size, k);
      Remainder(size, size, 1, 0);
    }
    if IsPowerOf2(size) {
      var k := Exponent(size);
    }
  }

  lemma {:induction false} Exponent(size: nat) returns (k: nat)
    requires IsPowerOf2(size)
    ensures size == Pow2(k)
    decreases size
  {
    if size == 1 {
      k := 0;
    } else {
      OddIsOne(size);
      assert (size - 1) / 2 == size / 2 - 1;
      k := Exponent(size / 2);
      k := k + 1;
    }
  }

  /** An odd number above one shares its highest bit with its predecessor. */
  lemma OddIsOne(size: nat)
    requires size > 1 && BitAnd(size, size - 1) == 0
    ensures size % 2 == 0
  {
    if size % 2 == 1 {
      assert (size - 1) / 2 == size / 2;
      SelfAnd(size / 2);
    }
  }

  lemma {:induction false} SelfAnd(x: nat)
    ensures BitAnd(x, x) == x
  {
    if x > 0 {
      SelfAnd(x / 2);
    }
  }

  lemma {:induction false} Pow2Sum(a: nat, b: nat)
    ensures Pow2(a + b) == Pow2(a) * Pow2(b)
  {
    if a > 0 {
      Pow2Sum(a - 1, b);
      assert 2 * Pow2(a - 1) * Pow2(b) == 2 * (Pow2(a - 1) * Pow2(b));
    }
  }

  lemma {:induction false} Pow2Grows(a: nat, b: nat)
    requires a < b
    ensures 2 * Pow2(a) <= Pow2(b)
  {
    if a + 1 < b {
      Pow2Grows(a, b - 1);
    }
  }

  lemma Pow2Of32()
    ensures Pow2(31) == 0x8000_0000 && Pow2(32) == TWO_32
  {
    assert Pow2(8) == 256;
    Pow2Sum(8, 8);
    Pow2Sum(16, 16);
    Pow2Sum(16, 15);
    Pow2Sum(8, 7);
  }

  /** The smallest power of two that is enough, or the largest that fits 32 bits. */
  method RoundupPowerOf2(size: uint32) returns (r: uint32)
    ensures exists k: nat :: k < 32 && r == Pow2(k)
    ensures size <= 0x8000_0000 ==> size <= r && forall k: nat :: size <= Pow2(k) ==> r <= Pow2(k)
    ensures size > 0x8000_0000 ==> r == 0x8000_0000
  {
    Pow2Of32();
    r := 0;
    for i := 0 to 32
      invariant i > 0 ==> r == Pow2(i - 1)
      invariant forall k: nat :: k < i ==> size > Pow2(k)
    {
      if i > 0 && i < 31 {
        Pow2Grows(i, 31);
      }
      r := if i == 0 then 1 else 2 * r;
      assert r == Pow2(i);
      if size <= r {
        forall k: nat | size <= Pow2(k) ensures r <= Pow2(k) {
          if i < k {
            Pow2Grows(i, k);
          }
        }
        return;
      }
    }
  }

  // ----------------------------------------------------- running indices

  /** Subtraction and increment on 32 bits. */
  function Used(rd: uint32, wr: uint32): uint32 {
    (wr - rd) % TWO_32
  }

  function Next(idx: uint32): uint32 {
    (idx + 1) % TWO_32
  }

  predicate IsFull(rd: uint32, wr: uint32, mask: uint32) {
    Used(rd, wr) > mask
  }

  function Slot(idx: uint32, mask: uint32): nat {
    BitAnd(idx, mask)
  }

  /** A buffer size the queue can have. */
  predicate IsSize(size: nat) {
    IsPowerOf2(size) && size <= 0x8000_0000
  }

  lemma ModAgain(a: nat, m: nat, c: nat)
    requires m > 0 && c > 0
    ensures a % (m * c) % m == a % m
  {
    var q, r := a / (m * c), a % (m * c);
    assert a == q * (m * c) + r;
    assert q * (m * c) == (q * c) * m;
    assert r == (r / m) * m + r % m;
    var h := q * c + r / m;
    assert h * m == (q * c) * m + (r / m) * m;
    Remainder(a, m, h, r % m);
  }

  /** Where the n-th packet ever is kept. */
  function Place(n: nat, size: nat): (r: nat)
    requires size > 0
    ensures r < size
  {
    n % size
  }

  /** The slot of the n-th packet ever is its number modulo the size, across any number of wraparounds of the index. */
  lemma SlotOfNumber(n: nat, size: nat)
    requires IsSize(size)
    ensures Slot(n % TWO_32, size - 1) == Place(n, size)
  {
    var k := Exponent(size);
    Pow2Of32();
    if k >= 32 {
      Pow2Grows(31, k);
    }
    Pow2Sum(k, 32 - k);
    ModAgain(n, size, Pow2(32 - k));
    MaskIsRemainder(n % TWO_32, k);
  }

  /** Different packets in the queue have different slots. */
  lemma SlotsDistinct(a: nat, b: nat, size: nat)
    requires 0 < size && a < b < a + size
    ensures Place(a, size) != Place(b, size)
  {
    var d := b / size - a / size;
    assert b - a == d * size + (b % size - a % size);
    assert d >= 1 ==> d * size >= size;
    assert d <= 0 ==> d * size <= 0;
  }

  /** The distance of the running indices is the number of packets in the queue. */
  lemma UsedIsCount(popped: nat, pushed: nat)
    requires popped <= pushed < popped + TWO_32
    ensures Used(popped % TWO_32, pushed % TWO_32) == pushed - popped
  {
    var d := (pushed / TWO_32 - popped / TWO_32) * TWO_32;
    assert pushed % TWO_32 - popped % TWO_32 == pushed - popped - d;
    if pushed / TWO_32 == popped / TWO_32 {
    } else {
      assert pushed / TWO_32 == popped / TWO_32 + 1;
    }
  }

  lemma NextIsSuccessor(n: nat)
    ensures Next(n % TWO_32) == (n + 1) % TWO_32
  {
  }

  // ------------------------------------------------------- the queue

  datatype StoragePacket<P> = StoragePacket(baseTime: nat, points: seq<P>)

  /** The queue when it has one user at a time. */
  class LidarDataQueue<P(0)> {
    var storage: array<StoragePacket<P>>
    var rdIdx: uint32
    var wrIdx: uint32
    var size: uint32
    var mask: uint32

    /** How often the queue has been popped since its initialisation. */
    ghost var taken: nat

    /** The packets in the queue, oldest first. */
    ghost var contents: seq<StoragePacket<P>>

    ghost predicate Valid()
      reads this, storage
    {
      && IsSize(size) && mask == size - 1 && storage.Length == size && |contents| <= size
      && rdIdx == taken % TWO_32 && wrIdx == (taken + |contents|) % TWO_32
      && forall n | taken <= n < taken + |contents| :: storage[Place(n, size)] == contents[n - taken]
    }

    constructor InitQueue(queueSize: uint32)
      ensures Valid() && contents == [] && fresh(storage)
      ensures IsPowerOf2(queueSize) && queueSize <= 0x8000_0000 ==> size == queueSize
      ensures queueSize <= 0x8000_0000 ==> queueSize <= size && forall k: nat :: queueSize <= Pow2(k) ==> size <= Pow2(k)
      ensures queueSize > 0x8000_0000 ==> size == 0x8000_0000
    {
      var realSize := queueSize;
      if !IsPowerOf2(queueSize) {
        realSize := RoundupPowerOf2(queueSize);
        PowerOf2Meaning(realSize);
        Pow2Bounded(realSize);
      } else {
        FitsIn31(queueSize);
      }
      storage := new StoragePacket<P>[realSize](_ => StoragePacket(0, []));
      rdIdx, wrIdx, size, mask := 0, 0, realSize, realSize - 1;
      taken, contents := 0, [];
    }

    method ResetQueue()
      requires Valid()
      modifies this
      ensures Valid() && contents == [] && storage == old(storage) && size == old(size)
    {
      rdIdx, wrIdx := 0, 0;
      taken, contents := 0, [];
    }

    method QueueIsEmpty() returns (empty: bool)
      requires Valid()
      ensures empty == (contents == [])
    {
      UsedIsCount(taken, taken + |contents|);
      empty := rdIdx == wrIdx;
    }

    method QueueIsFull() returns (full: bool)
      requires Valid()
      ensures full == (|contents| == size)
    {
      UsedIsCount(taken, taken + |contents|);
      full := Used(rdIdx, wrIdx) > mask;
    }

    method QueueUsedSize() returns (used: uint32)
      requires Valid()
      ensures used == |contents|
    {
      UsedIsCount(taken, taken + |contents|);
      used := Used(rdIdx, wrIdx);
    }

    method QueueUnusedSize() returns (unused: uint32)
      requires Valid()
      ensures unused == size - |contents|
    {
      var used := QueueUsedSize();
      unused := (size - used) % TWO_32;
    }

    /** A copy of the oldest packet, if there is one. */
    method QueuePrePop() returns (ok: bool, packet: StoragePacket<P>)
      requires Valid()
      ensures ok == (contents != []) && (ok ==> packet == contents[0])
    {
      packet := StoragePacket(0, []);
      var empty := QueueIsEmpty();
      if empty {
        return false, packet;
      }
      SlotOfNumber(taken, size);
      packet := storage[Slot(rdIdx, mask)];
      ok := true;
    }

    method QueuePopUpdate()
      requires Valid() && contents != []
      modifies this
      ensures Valid() && contents == old(contents)[1..] && storage == old(storage) && size == old(size)
    {
      hide Place, IsSize;
      NextIsSuccessor(taken);
      rdIdx := Next(rdIdx);
      taken, contents := taken + 1, contents[1..];
    }

    method QueuePop() returns (ok: bool, packet: StoragePacket<P>)
      requires Valid()
      modifies this
      ensures Valid() && storage == old(storage) && size == old(size)
      ensures ok == (old(contents) != [])
      ensures if ok then old(contents) == [packet] + contents else contents == old(contents)
    {
      ok, packet := QueuePrePop();
      if ok {
        QueuePopUpdate();
      }
    }

    /** The caller has checked that the queue is not full. */
    method QueuePushAny(packet: StoragePacket<P>)
      requires Valid() && |contents| < size
      modifies this, storage
      ensures Valid() && contents == old(contents) + [packet] && storage == old(storage) && size == old(size)
    {
      SlotOfNumber(taken + |contents|, size);
      hide Place, IsSize, Slot, Next;
      forall n | taken <= n < taken + |contents| ensures Place(n, size) != Place(taken + |contents|, size) {
        SlotsDistinct(n, taken + |contents|, size);
      }
      NextIsSuccessor(taken + |contents|);
      storage[Slot(wrIdx, mask)] := packet;
      wrIdx := Next(wrIdx);
      contents := contents + [packet];
    }
  }

  lemma FitsIn31(size: uint32)
    requires IsPowerOf2(size)
    ensures size <= 0x8000_0000
  {
    var k := Exponent(size);
    Pow2Of32();
    if k < 31 {
      Pow2Grows(k, 31);
    } else if k > 31 {
      Pow2Grows(31, k);
    }
  }

  lemma Pow2Bounded(r: uint32)
    requires exists k: nat :: k < 32 && r == Pow2(k)
    ensures r <= 0x8000_0000
  {
    Pow2Of32();
    var k: nat :| k < 32 && r == Pow2(k);
    if k < 31 {
      Pow2Grows(k, 31);
    }
  }
}
