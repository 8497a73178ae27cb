/** The pool allocator: blocks are cut from the head of a list of chunks and never returned one by one. */
module MemoryPool {
  import opened Bytes
  import opened Ring

  type HeaderSize = n: int | 0 < n < TWO_32 && n % 8 == 0 witness 8

  /** Size of a chunk header: any multiple of the alignment. */
  const HEADER: HeaderSize

  /** Rounding up to a multiple of 8. */
  function Align(n: nat): (r: nat)
    ensures n <= r < n + 8 && r % 8 == 0
  {
    (n + 7) / 8 * 8
  }

  /** The bit mask of the source does the same as long as the sum fits 64 bits. */
  lemma AlignIsMask(n: nat)
    requires n + 7 < TWO_64
    ensures BitAnd(n + 7, TWO_64 - 8) == Align(n)
  {
    hide BitAnd, Pow2;
    var x, m := n + 7, Pow2(61) - 1;
    Pow2Of61();
    ClearLowest(x, 4 * m);
    ClearLowest(x / 2, 2 * m);
    ClearLowest(x / 2 / 2, m);
    assert x / 2 / 2 / 2 == x / 8 < Pow2(61);
    MaskIsRemainder(x / 8, 61);
  }

  lemma Pow2Of61()
    ensures 8 * Pow2(61) == TWO_64
  {
    Pow2Of32();
    Pow2Sum(32, 32);
    assert Pow2(64) == 2 * Pow2(63) && Pow2(63) == 2 * Pow2(62) && Pow2(62) == 2 * Pow2(61);
  }

  lemma ClearLowest(x: nat, y: nat)
    ensures BitAnd(x, 2 * y) == 2 * BitAnd(x / 2, y)
  {
    assert 2 * y % 2 == 0 && 2 * y / 2 == y;
  }

  /** A chunk at an address: its header, then capacity bytes of which the first size are in use. */
  datatype Chunk = Chunk(addr: nat, capacity: nat, size: nat)
  {
    function Payload(): nat {
      addr + HEADER
    }

    function Top(): nat {
      addr + HEADER + size
    }

    function End(): nat {
      addr + HEADER + capacity
    }
  }

  predicate Apart(a: Chunk, b: Chunk) {
    a.End() <= b.addr || b.End() <= a.addr
  }

  /** Chunks lie apart from each other and are not used beyond their capacity. */
  predicate WellPlaced(chunks: seq<Chunk>) {
    && (forall i | 0 <= i < |chunks| :: 0 < chunks[i].addr && chunks[i].size % 8 == 0 && chunks[i].size <= chunks[i].capacity)
    && (forall i, j | 0 <= i < j < |chunks| :: Apart(chunks[i], chunks[j]))
  }

  /** A block lies in the used part of a chunk, at a multiple of 8 from its start. */
  predicate Within(c: Chunk, ptr: nat, size: nat) {
    c.Payload() <= ptr && ptr + Align(size) <= c.Top() && (ptr - c.addr) % 8 == 0
  }

  predicate Placed(chunks: seq<Chunk>, ptr: nat, size: nat) {
    exists i | 0 <= i < |chunks| :: Within(chunks[i], ptr, size)
  }

  predicate Disjoint(p: nat, m: nat, q: nat, n: nat) {
    p + Align(m) <= q || q + Align(n) <= p
  }

  /** Live blocks, by address with the size last requested, are not empty, lie in chunks and do not overlap. */
  predicate WellCut(chunks: seq<Chunk>, blocks: map<nat, nat>) {
    && (forall p | p in blocks :: blocks[p] > 0 && Placed(chunks, p, blocks[p]))
    && (forall p, q | p in blocks && q in blocks && p != q :: Disjoint(p, blocks[p], q, blocks[q]))
  }

  /** Chunks are aligned, since the base allocator is, but for one the user supplied, which is the last. */
  predicate WellAligned(chunks: seq<Chunk>, userBuffer: nat) {
    forall i | 0 <= i < |chunks| :: chunks[i].addr % 8 == 0 || (i == |chunks| - 1 && chunks[i].addr == userBuffer)
  }

  /** The user's buffer is not aligned, and the block lies in it. */
  predicate InMisalignedBuffer(chunks: seq<Chunk>, userBuffer: nat, ptr: nat, size: nat) {
    && userBuffer % 8 != 0 && |chunks| > 0 && chunks[|chunks| - 1].addr == userBuffer
    && Within(chunks[|chunks| - 1], ptr, size)
  }

  /**
   * A live block lies inside the payload of one chunk, and it is aligned unless it lies in a misaligned user buffer.
   */
  lemma LiveBlock(chunks: seq<Chunk>, blocks: map<nat, nat>, userBuffer: nat, p: nat) returns (i: nat)
    requires WellPlaced(chunks) && WellCut(chunks, blocks) && WellAligned(chunks, userBuffer) && p in blocks
    ensures i < |chunks| && chunks[i].Payload() <= p && p + blocks[p] <= chunks[i].End()
    ensures p % 8 == 0 <==> !InMisalignedBuffer(chunks, userBuffer, p, blocks[p])
  {
    i :| 0 <= i < |chunks| && Within(chunks[i], p, blocks[p]);
    PlacedAligned(chunks, userBuffer, p, blocks[p]);
  }

  lemma PlacedAligned(chunks: seq<Chunk>, userBuffer: nat, ptr: nat, size: nat)
    requires WellAligned(chunks, userBuffer) && Placed(chunks, ptr, size)
    ensures ptr % 8 == 0 <==> !InMisalignedBuffer(chunks, userBuffer, ptr, size)
  {
    hide Align;
    var i :| 0 <= i < |chunks| && Within(chunks[i], ptr, size);
    AlignedTogether(chunks[i].addr, ptr);
    if InMisalignedBuffer(chunks, userBuffer, ptr, size) {
      AlignedTogether(userBuffer, ptr);
    }
  }

  lemma BlockAligned(chunks: seq<Chunk>, blocks: map<nat, nat>, userBuffer: nat, p: nat)
    requires WellCut(chunks, blocks) && WellAligned(chunks, userBuffer) && p in blocks
    ensures p % 8 == 0 <==> !InMisalignedBuffer(chunks, userBuffer, p, blocks[p])
  {
    PlacedAligned(chunks, userBuffer, p, blocks[p]);
  }

  /** With no user buffer, or an aligned one, all live blocks are aligned. */
  lemma AllAligned(chunks: seq<Chunk>, blocks: map<nat, nat>, userBuffer: nat)
    requires WellPlaced(chunks) && WellCut(chunks, blocks) && WellAligned(chunks, userBuffer) && userBuffer % 8 == 0
    ensures forall p | p in blocks :: p % 8 == 0
  {
    forall p | p in blocks ensures p % 8 == 0 {
      var i := LiveBlock(chunks, blocks, userBuffer, p);
    }
  }

  lemma AlignedTogether(a: nat, p: nat)
    requires (p - a) % 8 == 0
    ensures p % 8 == 0 <==> a % 8 == 0
  {
    assert p == a + 8 * ((p - a) / 8);
  }

  /** A block that ends where the head chunk is used to is in the head chunk, wherever the other chunks lie. */
  lemma EndsAtTopIsLast(chunks: seq<Chunk>, ptr: nat, size: nat)
    requires WellPlaced(chunks) && |chunks| > 0 && size > 0 && Placed(chunks, ptr, size)
    requires ptr + Align(size) == chunks[0].Top()
    ensures Within(chunks[0], ptr, size)
  {
    var i :| 0 <= i < |chunks| && Within(chunks[i], ptr, size);
    assert i > 0 ==> Apart(chunks[0], chunks[i]);
  }

  /** No block but possibly one at ptr itself meets that area. */
  predicate FreeFor(blocks: map<nat, nat>, ptr: nat, size: nat) {
    forall p | p in blocks && p != ptr :: Disjoint(p, blocks[p], ptr, size)
  }

  lemma PutKeepsCut(chunks: seq<Chunk>, blocks: map<nat, nat>, ptr: nat, size: nat)
    requires WellCut(chunks, blocks) && size > 0 && Placed(chunks, ptr, size) && FreeFor(blocks, ptr, size)
    ensures WellCut(chunks, blocks[ptr := size])
  {
    hide Placed, Align;
  }

  lemma DropKeepsCut(chunks: seq<Chunk>, blocks: map<nat, nat>, ptr: nat)
    requires WellCut(chunks, blocks)
    ensures WellCut(chunks, blocks - {ptr})
  {
    hide Placed, Disjoint;
  }

  /** Room at the top of the head chunk belongs to no block. */
  lemma AboveTopIsFree(chunks: seq<Chunk>, blocks: map<nat, nat>, p: nat, n: nat)
    requires WellPlaced(chunks) && WellCut(chunks, blocks) && |chunks| > 0 && p in blocks
    requires chunks[0].Top() + n <= chunks[0].End()
    ensures p + Align(blocks[p]) <= chunks[0].Top() || chunks[0].Top() + n <= p
  {
    var i :| 0 <= i < |chunks| && Within(chunks[i], p, blocks[p]);
    if i > 0 {
      assert Apart(chunks[0], chunks[i]);
    }
  }

  lemma TopIsFree(chunks: seq<Chunk>, blocks: map<nat, nat>, size: nat)
    requires WellPlaced(chunks) && WellCut(chunks, blocks) && |chunks| > 0 && size > 0
    requires chunks[0].Top() + Align(size) <= chunks[0].End()
    ensures chunks[0].Top() !in blocks && FreeFor(blocks, chunks[0].Top(), size)
  {
    forall p | p in blocks ensures p != chunks[0].Top() && Disjoint(p, blocks[p], chunks[0].Top(), size) {
      AboveTopIsFree(chunks, blocks, p, Align(size));
    }
  }

  /** A last block may grow over the free room above it. */
  lemma LastMayGrow(chunks: seq<Chunk>, blocks: map<nat, nat>, ptr: nat, size: nat)
    requires WellPlaced(chunks) && WellCut(chunks, blocks) && |chunks| > 0 && ptr in blocks
    requires ptr + Align(blocks[ptr]) == chunks[0].Top() && ptr + Align(size) <= chunks[0].End()
    requires Align(size) > Align(blocks[ptr])
    ensures FreeFor(blocks, ptr, size)
  {
    forall p | p in blocks && p != ptr ensures Disjoint(p, blocks[p], ptr, size) {
      AboveTopIsFree(chunks, blocks, p, Align(size) - Align(blocks[ptr]));
      assert Disjoint(p, blocks[p], ptr, blocks[ptr]);
    }
  }

  lemma ShrunkFits(chunks: seq<Chunk>, blocks: map<nat, nat>, ptr: nat, size: nat)
    requires WellCut(chunks, blocks) && ptr in blocks && Align(size) <= Align(blocks[ptr])
    ensures Placed(chunks, ptr, size) && FreeFor(blocks, ptr, size)
  {
    hide Align;
    var i :| 0 <= i < |chunks| && Within(chunks[i], ptr, blocks[ptr]);
    assert Within(chunks[i], ptr, size);
  }

  lemma GrowKeepsCut(chunks: seq<Chunk>, head: Chunk, blocks: map<nat, nat>)
    requires |chunks| > 0 && head == chunks[0].(size := head.size) && chunks[0].size <= head.size
    requires WellCut(chunks, blocks)
    ensures WellCut([head] + chunks[1..], blocks)
  {
    forall p | p in blocks ensures Placed([head] + chunks[1..], p, blocks[p]) {
      GrowKeepsPlaces(chunks, head, p, blocks[p]);
    }
  }

  lemma TopIsAligned(chunks: seq<Chunk>)
    requires WellPlaced(chunks) && |chunks| > 0
    ensures (chunks[0].Top() - chunks[0].addr) % 8 == 0 && chunks[0].addr > 0
  {
  }

  // ------------------------------------------------------------- memory

  /** The bytes from an address on have become those once found elsewhere. */
  ghost predicate Copied(before: nat -> byte, from: nat, after: nat -> byte, to: nat, n: nat) {
    forall a: nat | to <= a < to + n :: after(a) == before(from + (a - to))
  }

  function Overlay(memory: nat -> byte, from: nat, to: nat, n: nat): nat -> byte {
    (a: nat) => if to <= a < to + n then memory(from + (a - to)) else memory(a)
  }

  ghost predicate Untouched(before: nat -> byte, after: nat -> byte, p: nat, n: nat) {
    forall a: nat | p <= a < p + n :: after(a) == before(a)
  }

  /** Blocks stay in their chunks while the head chunk grows. */
  lemma GrowKeepsPlaces(chunks: seq<Chunk>, head: Chunk, ptr: nat, size: nat)
    requires |chunks| > 0 && head == chunks[0].(size := head.size) && chunks[0].size <= head.size
    requires Placed(chunks, ptr, size)
    ensures Placed([head] + chunks[1..], ptr, size)
  {
    var i :| 0 <= i < |chunks| && Within(chunks[i], ptr, size);
    var grown := [head] + chunks[1..];
    assert grown[i] == if i == 0 then head else chunks[i];
  }

  lemma AddKeepsPlaces(chunks: seq<Chunk>, head: Chunk, ptr: nat, size: nat)
    requires Placed(chunks, ptr, size)
    ensures Placed([head] + chunks, ptr, size)
  {
    var i :| 0 <= i < |chunks| && Within(chunks[i], ptr, size);
    assert ([head] + chunks)[i + 1] == chunks[i];
  }

  /** The chunks after n more bytes of the head chunk are in use. */
  function Cut(chunks: seq<Chunk>, n: nat): (r: seq<Chunk>)
    requires |chunks| > 0
    ensures |r| == |chunks|
  {
    [chunks[0].(size := chunks[0].size + n)] + chunks[1..]
  }

  /** The top of the head chunk is aligned unless that is a misaligned user buffer. */
  lemma TopAligned(chunks: seq<Chunk>, userBuffer: nat)
    requires WellPlaced(chunks) && WellAligned(chunks, userBuffer)
    requires userBuffer != 0 ==> |chunks| > 0 && chunks[|chunks| - 1].addr == userBuffer
    ensures |chunks| > 0 ==> (chunks[0].Top() % 8 == 0 <==> userBuffer % 8 == 0 || |chunks| > 1)
  {
    if |chunks| > 0 {
      TopIsAligned(chunks);
      AlignedTogether(chunks[0].addr, chunks[0].Top());
    }
  }

  class MemoryPoolAllocator {
    /** The chunk list, head first. */
    var chunks: seq<Chunk>
    const chunkCapacity: nat
    /** Address of the buffer the user supplied as first chunk, or 0. */
    const userBuffer: nat
    /** Contents of memory by address. */
    var memory: nat -> byte
    ghost var blocks: map<nat, nat>

    ghost predicate Valid()
      reads this
    {
      && WellPlaced(chunks) && WellCut(chunks, blocks) && WellAligned(chunks, userBuffer)
      && (userBuffer != 0 ==> |chunks| > 0 && chunks[|chunks| - 1].addr == userBuffer)
    }

    constructor (chunkCapacity: nat, memory: nat -> byte)
      ensures Valid() && chunks == [] && blocks == map[] && userBuffer == 0
      ensures this.chunkCapacity == chunkCapacity && this.memory == memory
    {
      this.chunkCapacity, this.memory := chunkCapacity, memory;
      userBuffer, chunks, blocks := 0, [], map[];
    }

    constructor WithBuffer(buffer: nat, size: nat, chunkCapacity: nat, memory: nat -> byte)
      requires buffer > 0 && size > HEADER
      ensures Valid() && chunks == [Chunk(buffer, size - HEADER, 0)] && blocks == map[] && userBuffer == buffer
      ensures this.chunkCapacity == chunkCapacity && this.memory == memory
    {
      this.chunkCapacity, this.memory := chunkCapacity, memory;
      userBuffer, chunks, blocks := buffer, [Chunk(buffer, size - HEADER, 0)], map[];
    }

    /** The capacity of the chunk a request would add: that of all chunks, or more if the request needs more. */
    function Wanted(size: nat): (r: nat)
      ensures chunkCapacity <= r && Align(size) <= r && (r == chunkCapacity || r == Align(size))
    {
      if chunkCapacity > Align(size) then chunkCapacity else Align(size)
    }

    predicate NeedsChunk(size: nat)
      reads this
    {
      |chunks| == 0 || chunks[0].size + Align(size) > chunks[0].capacity
    }

    /** The chunks a block of some size is cut from: with a new one in front if there is no room. */
    function Roomy(size: nat, base: nat): (r: seq<Chunk>)
      reads this
      ensures |r| > 0
    {
      if NeedsChunk(size) then [Chunk(base, Wanted(size), 0)] + chunks else chunks
    }

    /** A request that is met gives an aligned block: it needs a new chunk, or does not come from a misaligned buffer. */
    predicate GivesAligned(size: nat)
      reads this
    {
      NeedsChunk(size) || userBuffer % 8 == 0 || |chunks| > 1
    }

    /** What the base allocator returns: nothing, or aligned room away from all chunks. */
    predicate CanPlace(addr: nat, capacity: nat)
      reads this
    {
      addr == 0 || (addr % 8 == 0 && forall i | 0 <= i < |chunks| :: Apart(Chunk(addr, capacity, 0), chunks[i]))
    }

    /** No sum in the computation leaves 64 bits. */
    predicate NoOverflow(size: nat)
      reads this
    {
      HEADER + Wanted(size) < TWO_64 && (|chunks| > 0 ==> chunks[0].size + Align(size) < TWO_64)
    }

    method AddChunk(capacity: nat, base: nat) returns (ok: bool)
      requires Valid() && CanPlace(base, capacity)
      modifies this`chunks
      ensures Valid() && ok == (base != 0)
      ensures chunks == if ok then [Chunk(base, capacity, 0)] + old(chunks) else old(chunks)
    {
      if base == 0 {
        return false;
      }
      forall p | p in blocks ensures Placed([Chunk(base, capacity, 0)] + chunks, p, blocks[p]) {
        AddKeepsPlaces(chunks, Chunk(base, capacity, 0), p, blocks[p]);
      }
      chunks := [Chunk(base, capacity, 0)] + chunks;
      return true;
    }

    /** Takes a block off the head chunk; base is what the base allocator returns if it is asked for a chunk. */
    method Malloc(size: nat, base: nat) returns (ptr: nat)
      requires Valid() && CanPlace(base, Wanted(size)) && NoOverflow(size)
      modifies this`chunks, this`blocks
      ensures Valid()
      ensures ptr == 0 <==> size == 0 || (old(NeedsChunk(size)) && base == 0)
      ensures ptr == 0 ==> blocks == old(blocks) && chunks == old(chunks)
      ensures ptr != 0 ==> ptr !in old(blocks) && blocks == old(blocks)[ptr := size]
      ensures ptr != 0 ==> ptr == old(Roomy(size, base))[0].Top() && chunks == Cut(old(Roomy(size, base)), Align(size))
      ensures ptr != 0 ==> Within(chunks[0], ptr, size) && FreeFor(old(blocks), ptr, size)
      ensures ptr != 0 ==>
                |chunks| == |old(chunks)| + if old(|chunks| > 0 && chunks[0].Top() + Align(size) <= chunks[0].End()) then 0 else 1
      ensures ptr % 8 == 0 <==> size == 0 || old(GivesAligned(size))
      ensures ptr % 8 == 0 <==> ptr == 0 || !InMisalignedBuffer(chunks, userBuffer, ptr, size)
    {
      hide WellPlaced, WellCut, WellAligned, InMisalignedBuffer, Align, Within, FreeFor;
      TopAligned(chunks, userBuffer);
      if size == 0 {
        return 0;
      }
      if |chunks| == 0 || chunks[0].size + Align(size) > chunks[0].capacity {
        var ok := AddChunk(if chunkCapacity > Align(size) then chunkCapacity else Align(size), base);
        if !ok {
          return 0;
        }
      }
      ptr := Take(size);
    }

    /** Cuts a block off the head chunk, which has room for it. */
    method Take(size: nat) returns (ptr: nat)
      requires Valid() && size > 0 && |chunks| > 0 && chunks[0].size + Align(size) <= chunks[0].capacity
      modifies this`chunks, this`blocks
      ensures Valid() && ptr > 0 && ptr !in old(blocks) && blocks == old(blocks)[ptr := size]
      ensures ptr == old(chunks)[0].Top() && chunks == Cut(old(chunks), Align(size))
      ensures Within(chunks[0], ptr, size) && FreeFor(old(blocks), ptr, size)
      ensures ptr % 8 == 0 <==> !InMisalignedBuffer(chunks, userBuffer, ptr, size)
    {
      hide WellPlaced, WellCut, WellAligned, InMisalignedBuffer, Align;
      ptr := chunks[0].addr + HEADER + chunks[0].size;
      TopIsFree(chunks, blocks, size);
      TopIsAligned(chunks);
      Grow(Align(size));
      assert Within(chunks[0], ptr, size);
      PutKeepsCut(chunks, blocks, ptr, size);
      PlacedAligned(chunks, userBuffer, ptr, size);
      blocks := blocks[ptr := size];
    }

    /** Moves the top of the head chunk up. */
    method Grow(n: nat)
      requires Valid() && |chunks| > 0 && chunks[0].size + n <= chunks[0].capacity && n % 8 == 0
      modifies this`chunks
      ensures Valid() && chunks == Cut(old(chunks), n)
    {
      ghost var before := chunks;
      var head := chunks[0].(size := chunks[0].size + n);
      chunks := [head] + chunks[1..];
      assert forall i | 0 < i < |chunks| :: chunks[i] == before[i];
      GrowKeepsCut(before, head, blocks);
    }

    /** Notes a smaller size for a block that stays where it is. */
    ghost method Shrink(ptr: nat, newSize: nat)
      requires Valid() && ptr in blocks && 0 < newSize && Align(newSize) <= Align(blocks[ptr])
      modifies this`blocks
      ensures Valid() && blocks == old(blocks)[ptr := newSize]
    {
      hide WellPlaced, WellCut;
      ShrunkFits(chunks, blocks, ptr, newSize);
      PutKeepsCut(chunks, blocks, ptr, newSize);
      blocks := blocks[ptr := newSize];
    }

    /** Extends the last block of the head chunk. */
    method ExtendLast(ptr: nat, originalSize: nat, newSize: nat)
      requires Valid() && ptr in blocks && blocks[ptr] == originalSize && |chunks| > 0
      requires Within(chunks[0], ptr, originalSize)
      requires Align(newSize) > Align(originalSize) && CanGrow(ptr, originalSize, newSize)
      modifies this`chunks, this`blocks
      ensures Valid() && blocks == old(blocks)[ptr := newSize]
      ensures chunks == Cut(old(chunks), Align(newSize) - Align(originalSize))
    {
      hide WellPlaced, WellCut, Align;
      LastMayGrow(chunks, blocks, ptr, newSize);
      Grow(Align(newSize) - Align(originalSize));
      assert Within(chunks[0], ptr, newSize);
      PutKeepsCut(chunks, blocks, ptr, newSize);
      blocks := blocks[ptr := newSize];
    }

    /** Copies bytes between areas that do not overlap. */
    method Copy(from: nat, to: nat, n: nat)
      modifies this`memory
      ensures Copied(old(memory), from, memory, to, n)
      ensures forall a: nat | a < to || to + n <= a :: memory(a) == old(memory)(a)
    {
      memory := Overlay(memory, from, to, n);
    }

    /** Copies a block into a new, larger one. */
    method Move(ptr: nat, originalSize: nat, newSize: nat, base: nat) returns (r: nat)
      requires Valid() && ptr in blocks && blocks[ptr] == originalSize && Align(originalSize) < Align(newSize)
      requires CanPlace(base, Wanted(newSize)) && NoOverflow(newSize)
      modifies this
      ensures Valid() && r != ptr
      ensures blocks == if r == 0 then old(blocks) else (old(blocks) - {ptr})[r := newSize]
      ensures r != 0 ==> Copied(old(memory), ptr, memory, r, Align(originalSize))
      ensures forall p | p in old(blocks) :: Untouched(old(memory), memory, p, Align(old(blocks)[p]))
      ensures r == 0 <==> old(NeedsChunk(newSize)) && base == 0
      ensures chunks == if r == 0 then old(chunks) else Cut(old(Roomy(newSize, base)), Align(newSize))
      ensures r % 8 == 0 <==> old(GivesAligned(newSize))
      ensures r % 8 == 0 <==> r == 0 || !InMisalignedBuffer(chunks, userBuffer, r, newSize)
    {
      hide WellPlaced, WellCut, WellAligned, InMisalignedBuffer, Align, Within, NeedsChunk, CanPlace, NoOverflow,
           Wanted, FreeFor, Copied, Untouched, Roomy, Cut, GivesAligned;
      BlocksHaveAddress(chunks, blocks, ptr);
      r := Malloc(newSize, base);
      if r == 0 {
        InPlace(memory, ptr, 0, blocks);
      } else {
        Copy(ptr, r, Align(originalSize));
        CopyLeavesBlocks(old(memory), memory, r, Align(originalSize), old(blocks), newSize);
        DropKeepsCut(chunks, blocks, ptr);
        blocks := blocks - {ptr};
      }
    }

    /** The block ends where the head chunk is used to, and the head chunk has room for the larger size. */
    predicate CanGrow(ptr: nat, originalSize: nat, newSize: nat): (r: bool)
      reads this
      ensures r <==> |chunks| > 0 && ptr + Align(originalSize) == chunks[0].Top()
                     && ptr + Align(newSize) <= chunks[0].End()
    {
      && |chunks| > 0 && ptr + Align(originalSize) == chunks[0].Top()
      && chunks[0].size + (Align(newSize) - Align(originalSize)) <= chunks[0].capacity
    }

    /** A block is large enough already or can be extended where it is. */
    predicate Stays(ptr: nat, originalSize: nat, newSize: nat): (r: bool)
      reads this
      ensures newSize <= originalSize ==> r
    {
      Align(newSize) <= Align(originalSize) || CanGrow(ptr, originalSize, newSize)
    }

    /** Keeps a block, extends it in place, or moves it. */
    method Resize(ptr: nat, originalSize: nat, newSize: nat, base: nat) returns (r: nat)
      requires Valid() && ptr in blocks && blocks[ptr] == originalSize && newSize > 0
      requires CanPlace(base, Wanted(newSize)) && NoOverflow(newSize)
      modifies this
      ensures Valid()
      ensures r == ptr <==> old(Stays(ptr, originalSize, newSize))
      ensures r == 0 <==> !old(Stays(ptr, originalSize, newSize)) && old(NeedsChunk(newSize)) && base == 0
      ensures r == ptr && Align(newSize) > Align(originalSize) ==> Within(old(chunks)[0], ptr, originalSize)
      ensures chunks == if r == 0 || (r == ptr && Align(newSize) <= Align(originalSize)) then old(chunks)
                        else if r == ptr then Cut(old(chunks), Align(newSize) - Align(originalSize))
                        else Cut(old(Roomy(newSize, base)), Align(newSize))
      ensures r == ptr ==> memory == old(memory) && blocks == old(blocks)[ptr := newSize]
      ensures r == 0 ==> blocks == old(blocks)
      ensures r != 0 && r != ptr ==> blocks == (old(blocks) - {ptr})[r := newSize]
      ensures r != 0 ==> Copied(old(memory), ptr, memory, r, Align(originalSize))
      ensures forall p | p in old(blocks) && p != ptr :: Untouched(old(memory), memory, p, Align(old(blocks)[p]))
      ensures r % 8 == 0 <==>
                if old(Stays(ptr, originalSize, newSize)) then ptr % 8 == 0 else old(GivesAligned(newSize))
      ensures r % 8 == 0 <==> r == 0 || !InMisalignedBuffer(chunks, userBuffer, r, newSize)
    {
      hide WellPlaced, WellCut, WellAligned, InMisalignedBuffer, Align, Within, CanPlace, NoOverflow, Wanted,
           NeedsChunk, Copied, Untouched, Roomy, Cut, GivesAligned;
      BlocksHaveAddress(chunks, blocks, ptr);
      InPlace(memory, ptr, Align(originalSize), blocks);
      var from, to := Align(originalSize), Align(newSize);
      if from >= to {
        Shrink(ptr, newSize);
        BlockAligned(chunks, blocks, userBuffer, ptr);
        return ptr;
      }
      if ptr + from == chunks[0].addr + HEADER + chunks[0].size {
        if chunks[0].size + (to - from) <= chunks[0].capacity {
          EndsAtTopIsLast(chunks, ptr, originalSize);
          ExtendLast(ptr, originalSize, newSize);
          BlockAligned(chunks, blocks, userBuffer, ptr);
          return ptr;
        }
      }
      r := Move(ptr, originalSize, newSize, base);
    }

    /**
     * Keeps the block if it is large enough, extends it in place if it is the last of the head chunk and fits,
     * or copies it into a new block. Its caller passes the size it last requested for the block.
     */
    method Realloc(ptr: nat, originalSize: nat, newSize: nat, base: nat) returns (r: nat)
      requires Valid() && (ptr != 0 ==> ptr in blocks && blocks[ptr] == originalSize)
      requires CanPlace(base, Wanted(newSize)) && NoOverflow(newSize)
      modifies this
      ensures Valid()
      ensures ptr != 0 && newSize > 0 ==> (r == ptr <==> old(Stays(ptr, originalSize, newSize)))
      ensures r == 0 <==> newSize == 0 || ((ptr == 0 || !old(Stays(ptr, originalSize, newSize)))
                                           && old(NeedsChunk(newSize)) && base == 0)
      ensures ptr != 0 && newSize > 0 && r == ptr && Align(newSize) > Align(originalSize) ==>
                Within(old(chunks)[0], ptr, originalSize)
      ensures r == 0 ==> blocks == if newSize == 0 && ptr != 0 then old(blocks) - {ptr} else old(blocks)
      ensures r != 0 && r == ptr ==> blocks == old(blocks)[ptr := newSize]
      ensures r != 0 && r != ptr ==> blocks == (old(blocks) - {ptr})[r := newSize]
      ensures ptr == 0 || newSize == 0 || r == ptr ==> memory == old(memory)
      ensures ptr != 0 && r != 0 ==> Copied(old(memory), ptr, memory, r, Align(originalSize))
      ensures forall p | p in old(blocks) && p != ptr :: Untouched(old(memory), memory, p, Align(old(blocks)[p]))
      ensures chunks == if r == 0 || (r == ptr && Align(newSize) <= Align(originalSize)) then old(chunks)
                        else if r == ptr then Cut(old(chunks), Align(newSize) - Align(originalSize))
                        else Cut(old(Roomy(newSize, base)), Align(newSize))
      ensures r % 8 == 0 <==>
                newSize == 0 || if ptr != 0 && old(Stays(ptr, originalSize, newSize)) then ptr % 8 == 0
                                else old(GivesAligned(newSize))
      ensures r % 8 == 0 <==> r == 0 || !InMisalignedBuffer(chunks, userBuffer, r, newSize)
    {
      hide WellPlaced, WellCut, WellAligned, InMisalignedBuffer, Align, Within, CanPlace, NoOverflow, Wanted,
           NeedsChunk, Copied, Untouched, CanGrow, Roomy, Cut, GivesAligned;
      InPlace(memory, ptr, 0, blocks);
      if ptr == 0 {
        NoBlockAtZero(chunks, blocks);
        r := Malloc(newSize, base);
      } else if newSize == 0 {
        DropKeepsCut(chunks, blocks, ptr);
        blocks := blocks - {ptr};
        r := 0;
      } else {
        r := Resize(ptr, originalSize, newSize, base);
      }
    }

    /** Gives all chunks back to the base allocator but the user's buffer, which is emptied. */
    method Clear() returns (freed: seq<nat>)
      requires Valid()
      modifies this`chunks, this`blocks
      ensures Valid() && blocks == map[]
      ensures freed == Addresses(Owned(old(chunks), userBuffer))
      ensures chunks == if userBuffer == 0 then [] else [Chunk(userBuffer, old(Top(chunks)).capacity, 0)]
    {
      hide WellPlaced, WellCut, Addresses, Owned;
      ghost var was := chunks;
      freed := FreeChunks();
      if |chunks| > 0 {
        FirstHasAddress(chunks);
        UserIsLast(chunks, userBuffer);
        chunks := chunks[0 := chunks[0].(size := 0)];
        OnePlaced(chunks[0]);
        assert chunks == [chunks[0]];
      }
      NothingCut(chunks);
    }

    /** The loop over the chunks, up to the user's buffer. */
    method FreeChunks() returns (freed: seq<nat>)
      requires Valid()
      modifies this`chunks, this`blocks
      ensures Valid() && blocks == map[] && freed == Addresses(Owned(old(chunks), userBuffer))
      ensures |chunks| <= |old(chunks)| && (|chunks| == 0 || chunks[0].addr == userBuffer)
      ensures |chunks| > 0 ==> Top(chunks) == Top(old(chunks))
    {
      hide WellPlaced, WellCut, Addresses, Owned;
      blocks := map[];
      freed := [];
      ghost var was := chunks;
      NothingCut(chunks);
      while |chunks| > 0 && chunks[0].addr != userBuffer
        invariant |chunks| <= |was| && (|chunks| > 0 ==> Top(chunks) == Top(was))
        invariant freed + Addresses(Owned(chunks, userBuffer)) == Addresses(Owned(was, userBuffer))
        invariant Valid() && blocks == map[]
        decreases |chunks|
      {
        TailPlaced(chunks);
        NothingCut(chunks[1..]);
        OwnedStep(chunks, userBuffer);
        Regroup(freed, chunks[0].addr, Addresses(Owned(chunks[1..], userBuffer)));
        freed := freed + [chunks[0].addr];
        chunks := chunks[1..];
      }
      if |chunks| > 0 {
        FirstHasAddress(chunks);
        UserIsLast(chunks, userBuffer);
      }
      NothingOwned(chunks, userBuffer);
    }
  }

  /** A user buffer at address 12: the first block of it is aligned to 4 bytes only. */
  method MisalignedBlock(memory: nat -> byte) returns (ptr: nat)
    ensures ptr == 12 + HEADER && ptr % 8 == 4
  {
    var pool := new MemoryPoolAllocator.WithBuffer(12, HEADER + 64, 64, memory);
    ptr := pool.Malloc(8, 0);
  }

  lemma OwnedStep(chunks: seq<Chunk>, userBuffer: nat)
    requires |chunks| > 0 && chunks[0].addr != userBuffer
    ensures Addresses(Owned(chunks, userBuffer)) == [chunks[0].addr] + Addresses(Owned(chunks[1..], userBuffer))
  {
    assert Owned(chunks, userBuffer)[1..] == Owned(chunks[1..], userBuffer);
  }

  lemma NothingOwned(chunks: seq<Chunk>, userBuffer: nat)
    requires |chunks| == 0 || (|chunks| == 1 && chunks[0].addr == userBuffer)
    ensures Addresses(Owned(chunks, userBuffer)) == []
  {
  }

  lemma Regroup(a: seq<nat>, b: nat, c: seq<nat>)
    ensures a + [b] + c == a + ([b] + c)
  {
  }

  function Top(chunks: seq<Chunk>): Chunk {
    if |chunks| == 0 then Chunk(0, 0, 0) else chunks[|chunks| - 1]
  }

  /** The chunks that came from the base allocator: all but a last one that is the user's buffer. */
  function Owned(chunks: seq<Chunk>, userBuffer: nat): seq<Chunk> {
    if |chunks| > 0 && Top(chunks).addr == userBuffer then chunks[..|chunks| - 1] else chunks
  }

  function Addresses(chunks: seq<Chunk>): seq<nat> {
    if |chunks| == 0 then [] else [chunks[0].addr] + Addresses(chunks[1..])
  }

  lemma BlocksHaveAddress(chunks: seq<Chunk>, blocks: map<nat, nat>, ptr: nat)
    requires WellCut(chunks, blocks) && ptr in blocks
    ensures |chunks| > 0 && ptr > 0 && blocks[ptr] > 0 && Placed(chunks, ptr, blocks[ptr])
  {
  }

  lemma NoBlockAtZero(chunks: seq<Chunk>, blocks: map<nat, nat>)
    requires WellCut(chunks, blocks)
    ensures 0 !in blocks && blocks - {0} == blocks
  {
  }

  lemma InPlace(memory: nat -> byte, ptr: nat, n: nat, blocks: map<nat, nat>)
    ensures Copied(memory, ptr, memory, ptr, n)
    ensures forall p | p in blocks :: Untouched(memory, memory, p, Align(blocks[p]))
  {
  }

  lemma CopyLeavesBlocks(before: nat -> byte, after: nat -> byte, to: nat, n: nat, blocks: map<nat, nat>, size: nat)
    requires FreeFor(blocks, to, size) && to !in blocks && n <= Align(size)
    requires forall a: nat | a < to || to + n <= a :: after(a) == before(a)
    ensures forall p | p in blocks :: Untouched(before, after, p, Align(blocks[p]))
  {
    hide Align;
    forall p | p in blocks ensures Untouched(before, after, p, Align(blocks[p])) {
      assert Disjoint(p, blocks[p], to, size);
    }
  }

  lemma NothingCut(chunks: seq<Chunk>)
    ensures WellCut(chunks, map[])
  {
  }

  lemma FirstHasAddress(chunks: seq<Chunk>)
    requires WellPlaced(chunks) && |chunks| > 0
    ensures chunks[0].addr > 0
  {
  }

  lemma TailPlaced(chunks: seq<Chunk>)
    requires WellPlaced(chunks) && |chunks| > 0
    ensures WellPlaced(chunks[1..])
  {
  }

  lemma OnePlaced(c: Chunk)
    requires c.addr > 0 && c.size == 0
    ensures WellPlaced([c])
  {
  }

  /** Chunks apart from each other have different addresses. */
  lemma UserIsLast(chunks: seq<Chunk>, addr: nat)
    requires WellPlaced(chunks) && |chunks| > 0 && chunks[0].addr == addr && chunks[|chunks| - 1].addr == addr
    ensures |chunks| == 1 && addr > 0
  {
    assert |chunks| > 1 ==> Apart(chunks[0], chunks[|chunks| - 1]);
  }
}
