/** The fixed-block memory pool: `initPool` threads a free list through a
    freshly allocated arena, `alloc` walks that list to hand out blocks.

    Addresses are slot indices: slot k is the block at `addr + k * blockSize`
    (see FreeList.SlotAddress) and NULL is FreeList.NULL. C's `int` and
    `size_t` are bounded explicitly where the code relies on them. */
module MemoryPool {
  import opened FreeList

  /** Largest C `int` (32-bit). */
  const INT_MAX: int := 0x7fff_ffff
  /** Largest C `size_t` (64-bit). */
  const SIZE_MAX: int := 0xffff_ffff_ffff_ffff
  /** `sizeof(struct FreeBlock)` on a 64-bit target: a `size_t` and a pointer. */
  const HEADER_BYTES: int := 16

  /** Why `initPool` stops the program (`exit(EXIT_FAILURE)`). */
  datatype InitError = NotDivisible | OutOfMemory

  datatype Result<T> = Ok(value: T) | Err(error: InitError)

  /** The free list left by an `alloc` call and the block it returned. */
  datatype AllocResult = AllocResult(free: seq<int>, ret: int)

  /** Conversion of a non-negative `size_t` value to a 32-bit `int`, keeping
      the low 32 bits as two's complement (what `int nBlocksNeeded = size /
      blockSize` does on the usual targets). */
  function ToInt32(x: int): (r: int)
    requires 0 <= x
    ensures -INT_MAX - 1 <= r <= INT_MAX
    ensures (x - r) % 0x1_0000_0000 == 0
    ensures x <= INT_MAX ==> r == x
  {
    var low := x % 0x1_0000_0000;
    if low <= INT_MAX then low else low - 0x1_0000_0000
  }

  /** The divisibility check of `initPool` and the number of blocks it
      derives. */
  function NumBlocks(poolSize: int, blockSize: int): (r: Result<int>)
    requires 0 < blockSize && 0 < poolSize
    ensures r.Ok? <==> poolSize % blockSize == 0
    ensures r.Ok? ==> 1 <= r.value <= poolSize && r.value * blockSize == poolSize
    ensures r.Err? ==> r.error == NotDivisible
  {
    if poolSize % blockSize != 0 then Err(NotDivisible)
    else
      DividesBelow(poolSize, blockSize);
      ExactQuotient(poolSize, blockSize);
      Ok(poolSize / blockSize)
  }

  /** A positive multiple of b is at least b. */
  lemma DividesBelow(a: int, b: int)
    requires 0 < b && 0 < a && a % b == 0
    ensures b <= a
  {
  }

  lemma ExactQuotient(a: int, b: int)
    requires 0 < b <= a && a % b == 0
    ensures 1 <= a / b <= a && a / b * b == a
  {
    var q := a / b;
    assert a == q * b;
    if q < 1 {
      MulMonotone(q, 0, b);
    }
    MulMonotone(1, b, q);
  }

  /** `alloc` recovers the block size as `pool->size / pool->nBlocks`; after
      the divisibility check this is the block size `initPool` was given. */
  lemma RecoveredBlockSize(poolSize: int, blockSize: int)
    requires 0 < blockSize && 0 < poolSize && poolSize % blockSize == 0
    ensures poolSize / (poolSize / blockSize) == blockSize
  {
    DividesBelow(poolSize, blockSize);
    var n := poolSize / blockSize;
    assert poolSize == n * blockSize;
    assert 0 < n;
    var q, r := poolSize / n, poolSize % n;
    assert poolSize == q * n + r && 0 <= r < n;
    assert (blockSize - q) * n == r;
    if q < blockSize {
      MulMonotone(1, blockSize - q, n);
    } else if blockSize < q {
      MulMonotone(1, q - blockSize, n);
    }
  }

  /** `alloc` as it is written. The test at :80 assigns 0 to the count instead
      of comparing, so `start` stays NULL and the count is 1 at every check:
      a request for exactly one block (after the 32-bit conversion) unlinks
      the head; every request returns NULL. */
  function WrittenAlloc(free: seq<int>, size: int, blockSize: int): (r: AllocResult)
    requires 0 < blockSize && 0 <= size
    ensures r.ret == NULL
    ensures size % blockSize != 0 ==> r.free == free
    ensures |r.free| <= |free| && r.free == free[|free| - |r.free|..]
    ensures |r.free| < |free| ==> r.free == free[1..]
    ensures |r.free| < |free| <==> size % blockSize == 0 && ToInt32(size / blockSize) == 1 && free != []
  {
    if size % blockSize != 0 then AllocResult(free, NULL)
    else if ToInt32(size / blockSize) == 1 && free != [] then AllocResult(free[1..], NULL)
    else AllocResult(free, NULL)
  }

  /** What `alloc` is meant to do: hand out the first `n` nodes of the list as
      one run, unlink them, and return the run's first block; fail with NULL
      and an unchanged list when the request is misaligned, is for no block
      at all, or the list has fewer than `n` nodes. The block count is kept
      at full width rather than truncated to 32 bits. */
  function IntendedAlloc(free: seq<int>, size: int, blockSize: int): (r: AllocResult)
    requires 0 < blockSize && 0 <= size
    requires forall i :: 0 <= i < |free| ==> 0 <= free[i]
    ensures r.ret != NULL <==> size % blockSize == 0 && 1 <= size / blockSize <= |free|
    ensures r.ret != NULL ==>
      r.ret == free[0] && free == free[..size / blockSize] + r.free
    ensures r.ret == NULL ==> r.free == free
  {
    var n := size / blockSize;
    if size % blockSize == 0 && 1 <= n <= |free| then AllocResult(free[n..], free[0])
    else AllocResult(free, NULL)
  }

  /** The written `alloc` only ever removes the head node, so the list stays
      ascending inside the arena; a one-block request loses the old head,
      which is neither on the list nor returned to the caller. */
  lemma WrittenAllocKeepsList(free: seq<int>, blocks: seq<FreeBlock>, size: int, blockSize: int)
    requires Linked(free, blocks, blockSize) && 0 < blockSize && 0 <= size
    ensures Linked(WrittenAlloc(free, size, blockSize).free, blocks, blockSize)
    ensures |WrittenAlloc(free, size, blockSize).free| < |free| ==>
      free[0] !in WrittenAlloc(free, size, blockSize).free
      && WrittenAlloc(free, size, blockSize).ret == NULL
  {
    var r := WrittenAlloc(free, size, blockSize);
    DropLinked(free, blocks, blockSize, |free| - |r.free|);
    DroppedNotFree(free, |free| - |r.free|);
  }

  /** The intended `alloc` keeps the list ascending inside the arena, and
      no block of the run it hands out stays on the free list. */
  lemma IntendedAllocExclusive(free: seq<int>, blocks: seq<FreeBlock>, size: int, blockSize: int)
    requires Linked(free, blocks, blockSize) && 0 < blockSize && 0 <= size
    ensures Linked(IntendedAlloc(free, size, blockSize).free, blocks, blockSize)
    ensures IntendedAlloc(free, size, blockSize).ret != NULL ==>
      forall i :: 0 <= i < size / blockSize ==> free[i] !in IntendedAlloc(free, size, blockSize).free
  {
    var r := IntendedAlloc(free, size, blockSize);
    var k := |free| - |r.free|;
    assert r.free == free[k..];
    DropLinked(free, blocks, blockSize, k);
    DroppedNotFree(free, k);
  }

  /** On a free list of consecutive slots, as `initPool` builds it, a run
      handed out by the intended `alloc` is contiguous in memory (slots lo,
      lo+1, ..., lo+n-1), and what is left is again consecutive. */
  lemma IntendedRunContiguous(lo: int, hi: int, size: int, blockSize: int)
    requires 0 <= lo <= hi && 0 < blockSize && 0 <= size
    ensures var r := IntendedAlloc(Range(lo, hi), size, blockSize);
      r.ret != NULL ==> r.ret == lo && r.free == Range(lo + size / blockSize, hi)
  {
  }

  /** The written `alloc` also keeps a free list of consecutive slots
      consecutive: what is left is the trailing slots of the old range. */
  lemma WrittenAllocKeepsRange(lo: int, hi: int, size: int, blockSize: int)
    requires lo <= hi && 0 < blockSize && 0 <= size
    ensures var r := WrittenAlloc(Range(lo, hi), size, blockSize);
      |r.free| <= hi - lo && r.free == Range(hi - |r.free|, hi)
  {
    var r := WrittenAlloc(Range(lo, hi), size, blockSize);
    RangeSuffix(lo, hi, hi - lo - |r.free|);
  }

  /** Dropping the first k slots of a range leaves a range. */
  lemma RangeSuffix(lo: int, hi: int, k: int)
    requires lo <= hi && 0 <= k <= hi - lo
    ensures Range(lo, hi)[k..] == Range(lo + k, hi)
  {
    assert forall i :: 0 <= i < hi - lo - k ==> Range(lo, hi)[k..][i] == Range(lo + k, hi)[i];
  }

  lemma SuffixOfSuffix(free: seq<int>, next: seq<int>, r: seq<int>)
    requires |next| <= |free| && next == free[|free| - |next|..]
    requires |r| <= |next| && r == next[|next| - |r|..]
    ensures r == free[|free| - |r|..]
  {
    assert forall i :: 0 <= i < |r| ==> r[i] == next[|next| - |r| + i] == free[|free| - |r| + i];
  }

  /** The free list after a sequence of calls to the written `alloc`, one per
      request size, starting from `free`. */
  function AfterWrittenAllocs(free: seq<int>, sizes: seq<int>, blockSize: int): (r: seq<int>)
    requires 0 < blockSize && forall i :: 0 <= i < |sizes| ==> 0 <= sizes[i]
    ensures |r| <= |free| && r == free[|free| - |r|..]
  {
    if sizes == [] then free
    else
      var next := WrittenAlloc(free, sizes[0], blockSize).free;
      var r := AfterWrittenAllocs(next, sizes[1..], blockSize);
      SuffixOfSuffix(free, next, r);
      r
  }

  /** The free list after a sequence of calls to the intended `alloc`. */
  function AfterIntendedAllocs(free: seq<int>, sizes: seq<int>, blockSize: int): (r: seq<int>)
    requires 0 < blockSize && forall i :: 0 <= i < |sizes| ==> 0 <= sizes[i]
    requires forall i :: 0 <= i < |free| ==> 0 <= free[i]
    ensures |r| <= |free| && r == free[|free| - |r|..]
  {
    if sizes == [] then free
    else
      var next := IntendedAlloc(free, sizes[0], blockSize).free;
      assert next == free[|free| - |next|..];
      assert forall i :: 0 <= i < |next| ==> next[i] == free[|free| - |next| + i];
      var r := AfterIntendedAllocs(next, sizes[1..], blockSize);
      SuffixOfSuffix(free, next, r);
      r
  }

  /** However many requests the written `alloc` serves, a free list of
      consecutive slots stays a list of consecutive slots ending where it did
      (for the list of `initPool`, a range of trailing slots). */
  lemma WrittenAllocsKeepRange(free: seq<int>, lo: int, sizes: seq<int>, blockSize: int)
    requires 0 < blockSize && forall i :: 0 <= i < |sizes| ==> 0 <= sizes[i]
    requires forall i :: 0 <= i < |free| ==> free[i] == lo + i
    ensures var r := AfterWrittenAllocs(free, sizes, blockSize);
      forall i :: 0 <= i < |r| ==> r[i] == lo + |free| - |r| + i
  {
    var r := AfterWrittenAllocs(free, sizes, blockSize);
    SuffixConsecutive(free, lo, r);
  }

  /** However many requests the intended `alloc` serves, a free list of
      consecutive slots stays a list of consecutive slots ending where it did,
      so every run it hands out is contiguous (`IntendedRunContiguous`). */
  lemma IntendedAllocsKeepRange(free: seq<int>, lo: int, sizes: seq<int>, blockSize: int)
    requires 0 < blockSize && forall i :: 0 <= i < |sizes| ==> 0 <= sizes[i]
    requires 0 <= lo && forall i :: 0 <= i < |free| ==> free[i] == lo + i
    ensures var r := AfterIntendedAllocs(free, sizes, blockSize);
      forall i :: 0 <= i < |r| ==> r[i] == lo + |free| - |r| + i
  {
    var r := AfterIntendedAllocs(free, sizes, blockSize);
    SuffixConsecutive(free, lo, r);
  }

  /** A suffix of a list of consecutive slots is consecutive up to the same
      last slot. */
  lemma SuffixConsecutive(free: seq<int>, lo: int, r: seq<int>)
    requires forall i :: 0 <= i < |free| ==> free[i] == lo + i
    requires |r| <= |free| && r == free[|free| - |r|..]
    ensures forall i :: 0 <= i < |r| ==> r[i] == lo + |free| - |r| + i
  {
    forall i | 0 <= i < |r| ensures r[i] == lo + |free| - |r| + i {
      assert r[i] == free[|free| - |r| + i];
    }
  }

  /** `initPool(100, 128)` and `initPool(100, 8)` take the divisibility exit. The pool of
      `initPool(1024, 128)` has eight slots. As written, a
      one-block `alloc` unlinks slot 0 and returns NULL, a two-block one
      returns NULL and changes nothing, and a request for 2^32 + 1 blocks,
      far more than the pool holds, still unlinks slot 0 because its block
      count becomes 1 in the conversion to `int`. */
  lemma WrittenScenario()
    ensures NumBlocks(1024, 128) == Ok(8)
    ensures NumBlocks(100, 128) == Err(NotDivisible)
    ensures NumBlocks(100, 8) == Err(NotDivisible)
    ensures WrittenAlloc(Range(0, 8), 128, 128) == AllocResult(Range(1, 8), NULL)
    ensures WrittenAlloc(Range(0, 8), 256, 128) == AllocResult(Range(0, 8), NULL)
    ensures WrittenAlloc(Range(0, 8), 128 * 0x1_0000_0001, 128) == AllocResult(Range(1, 8), NULL)
  {
  }

  /** The same pool under the intended `alloc`: one-block requests return
      slot 0 and then slot 1 (the address 128 bytes above the base), a
      two-block request returns slots 0 and 1 as a run, and a request for
      2^32 + 1 blocks fails and leaves the list alone. */
  lemma IntendedScenario()
    ensures IntendedAlloc(Range(0, 8), 128, 128) == AllocResult(Range(1, 8), 0)
    ensures IntendedAlloc(Range(1, 8), 128, 128) == AllocResult(Range(2, 8), 1)
    ensures IntendedAlloc(Range(0, 8), 256, 128) == AllocResult(Range(2, 8), 0)
    ensures IntendedAlloc(Range(0, 8), 128 * 0x1_0000_0001, 128) == AllocResult(Range(0, 8), NULL)
  {
  }

  /** `struct Pool` together with the arena it owns. The arena holds one
      FreeBlock header per slot; `freeList` is the traversal order of the
      links starting at `list`. */
  class Pool {
    var size: int                 // pool->size, bytes
    var nBlocks: int              // pool->nBlocks
    var addr: int                 // pool->addr, base address of the arena
    var list: int                 // pool->list, first free slot or NULL
    var arena: array<FreeBlock>   // the header at the start of each slot
    ghost var freeList: seq<int>

    /** The pool invariant: the block size divides the arena exactly and a
        header fits in a block, and the links from `list` visit `freeList`
        in strictly ascending slot order. */
    ghost predicate Valid()
      reads this, arena
    {
      0 < nBlocks == arena.Length && size <= INT_MAX && 0 < addr
      && size % nBlocks == 0 && HEADER_BYTES <= size / nBlocks
      && list == Head(freeList) && Linked(freeList, arena[..], size / nBlocks)
    }

    /** The block size `alloc` recovers at :64; when the blocks divide the
        pool exactly, `nBlocks` of them make up the whole pool. */
    function BlockSize(): (bs: int)
      reads this
      requires 0 < nBlocks
      ensures size % nBlocks == 0 ==> bs * nBlocks == size
    {
      size / nBlocks
    }

    /** In a valid pool, in addresses: the free list
        has at most `nBlocks` nodes, each free block starts at least one
        block above the one before it, and every free block lies inside the
        arena `addr .. addr + size`. */
    lemma FreeListBounds()
      requires Valid()
      ensures |freeList| <= nBlocks
      ensures forall i, j :: 0 <= i < j < |freeList| ==>
        SlotAddress(addr, BlockSize(), freeList[i]) + BlockSize() <= SlotAddress(addr, BlockSize(), freeList[j])
      ensures forall i :: 0 <= i < |freeList| ==>
        addr <= SlotAddress(addr, BlockSize(), freeList[i])
        && SlotAddress(addr, BlockSize(), freeList[i]) + BlockSize() <= addr + size
    {
      LinkedLength(freeList, nBlocks);
      AddressOrder(freeList, addr, BlockSize(), nBlocks);
    }

    constructor (poolSize: int, numBlocks: int, base: int, blocks: array<FreeBlock>)
      ensures size == poolSize && nBlocks == numBlocks && addr == base && arena == blocks
      ensures list == NULL && freeList == []
    {
      size, nBlocks, addr, arena := poolSize, numBlocks, base, blocks;
      list, freeList := NULL, [];
    }

    /** `alloc` as written (memory_pool.c:61-100). */
    method Alloc(size: int) returns (ret: int)
      requires Valid() && 0 <= size <= SIZE_MAX
      modifies this`list, this`freeList
      ensures Valid()
      ensures AllocResult(freeList, ret) == WrittenAlloc(old(freeList), size, BlockSize())
    {
      var blockSize := this.size / nBlocks;
      if size % blockSize != 0 {
        return NULL;
      }
      var nBlocksNeeded := ToInt32(size / blockSize);
      var current := list;
      var prev := NULL;
      var start := NULL;
      var contiguousCount := 0;
      ghost var pos := 0;
      while current != NULL
        invariant 0 <= pos <= |freeList| && freeList == old(freeList) && list == old(list)
        invariant current == if pos < |freeList| then freeList[pos] else NULL
        invariant prev == if pos == 0 then NULL else freeList[pos - 1]
        invariant start == NULL
        invariant 0 < pos ==> nBlocksNeeded != 1
        decreases |freeList| - pos
      {
        contiguousCount := 0;  // `if (contiguousCount = 0)` assigns, then tests the 0
        if contiguousCount != 0 {
          start := current;
        }
        contiguousCount := contiguousCount + 1;
        if contiguousCount == nBlocksNeeded {
          if prev == NULL {
            list := arena[current].next;
          } else {
            // `prev->next = current->next` (:89) never runs: the count is 1
            // here, so only a one-block request gets here, and that one
            // matches at the head, where prev is still NULL.
            assert false;
          }
          DropLinked(freeList, arena[..], blockSize, 1);
          freeList := freeList[1..];
          return start;
        }
        prev := current;
        current := arena[current].next;
        pos := pos + 1;
      }
      return NULL;
    }

    /** `alloc` with the evident intent: `==` at :80, the run
        `start .. current` unlinked from the node before `start` rather than
        from `prev`, the node before `current`, and the block count kept as
        a `size_t`. */
    method AllocIntended(size: int) returns (ret: int)
      requires Valid() && 0 <= size <= SIZE_MAX
      modifies this`list, this`freeList
      ensures Valid()
      ensures AllocResult(freeList, ret) == IntendedAlloc(old(freeList), size, BlockSize())
    {
      var blockSize := this.size / nBlocks;
      if size % blockSize != 0 {
        return NULL;
      }
      var nBlocksNeeded := size / blockSize;
      var current := list;
      var prev := NULL;
      var start := NULL;
      var beforeStart := NULL;
      var contiguousCount := 0;
      while current != NULL
        invariant 0 <= contiguousCount <= |freeList| && freeList == old(freeList) && list == old(list)
        invariant current == if contiguousCount < |freeList| then freeList[contiguousCount] else NULL
        invariant prev == if contiguousCount == 0 then NULL else freeList[contiguousCount - 1]
        invariant start == if contiguousCount == 0 then NULL else freeList[0]
        invariant beforeStart == NULL
        invariant nBlocksNeeded < 1 || contiguousCount < nBlocksNeeded
        decreases |freeList| - contiguousCount
      {
        if contiguousCount == 0 {
          start := current;
          beforeStart := prev;
        }
        contiguousCount := contiguousCount + 1;
        if contiguousCount == nBlocksNeeded {
          if beforeStart == NULL {
            list := arena[current].next;
          } else {
            // The count never restarts, so the run always begins at the head.
            assert false;
          }
          DropLinked(freeList, arena[..], blockSize, contiguousCount);
          freeList := freeList[contiguousCount..];
          return start;
        }
        prev := current;
        current := arena[current].next;
      }
      return NULL;
    }
  }

  /** `initPool` (memory_pool.c:17-59). `arenaBase` is what `malloc(poolSize)`
      returns, 0 for failure. The C code never checks that `blockSize` is
      positive (it divides by it), that `poolSize` is positive (0 passes the
      divisibility check and `num_blocks - 1` may then wrap around) or, when
      the sizes divide and headers get written, that a header fits in a
      block: those are the preconditions here. */
  method InitPool(poolSize: int, blockSize: int, arenaBase: int) returns (r: Result<Pool>)
    requires 0 < poolSize <= INT_MAX && 0 < blockSize <= INT_MAX
    requires poolSize % blockSize == 0 ==> HEADER_BYTES <= blockSize
    requires 0 <= arenaBase
    ensures r.Err? <==> poolSize % blockSize != 0 || arenaBase == 0
    ensures poolSize % blockSize != 0 ==> r == Err(NotDivisible)
    ensures poolSize % blockSize == 0 && arenaBase == 0 ==> r == Err(OutOfMemory)
    ensures r.Ok? ==> var p := r.value;
      fresh(p) && fresh(p.arena) && p.Valid()
      && p.size == poolSize && p.nBlocks == poolSize / blockSize && p.addr == arenaBase
      && p.BlockSize() == blockSize
      && p.list == 0 && p.freeList == Range(0, p.nBlocks)
      && forall k :: 0 <= k < p.nBlocks ==>
           p.arena[k] == FreeBlock(blockSize, if k < p.nBlocks - 1 then k + 1 else NULL)
  {
    var checked := NumBlocks(poolSize, blockSize);
    if checked.Err? {
      return Err(checked.error);
    }
    var numBlocks := checked.value;
    if arenaBase == 0 {
      return Err(OutOfMemory);
    }
    var blocks := new FreeBlock[numBlocks];
    var pool := new Pool(poolSize, numBlocks, arenaBase, blocks);
    pool.list := 0;
    var current := pool.list;
    var i := 0;
    while i < numBlocks - 1
      invariant 0 <= i <= numBlocks - 1 && current == i
      invariant forall k :: 0 <= k < i ==> blocks[k] == FreeBlock(blockSize, k + 1)
      modifies blocks
    {
      blocks[current] := blocks[current].(size := blockSize);
      blocks[current] := blocks[current].(next := current + 1);
      current := blocks[current].next;
      i := i + 1;
    }
    blocks[current] := blocks[current].(size := blockSize);
    blocks[current] := blocks[current].(next := NULL);
    pool.freeList := Range(0, numBlocks);
    RecoveredBlockSize(poolSize, blockSize);
    return Ok(pool);
  }
}
