/** The intrusive free list of the memory pool, on values.

    The arena is divided into slots 0 .. nBlocks-1; slot k stands for the
    address `addr + k * blockSize`. Every free block starts with a header
    (`struct FreeBlock`): the block's `size` and a link `next` to the next
    free block, written here as a slot index or NULL. The traversal order of
    the list is a `seq<int>` of slot indices; `Linked` ties it to the headers
    stored in the arena. */
module FreeList {

  /** The C null pointer, as a slot index. */
  const NULL: int := -1

  /** The header the pool writes at the start of each free block. */
  datatype FreeBlock = FreeBlock(size: int, next: int)

  /** Slots 0 .. n-1 of an arena. */
  ghost predicate InArena(free: seq<int>, n: int) {
    forall i :: 0 <= i < |free| ==> 0 <= free[i] < n
  }

  /** Following a link always leads to a higher slot. */
  ghost predicate Ascending(free: seq<int>) {
    forall i :: 0 <= i < |free| - 1 ==> free[i] < free[i + 1]
  }

  /** The value of the list head for a traversal order. */
  function Head(free: seq<int>): (h: int) {
    if free == [] then NULL else free[0]
  }

  /** `free` is the order in which the links stored in `blocks` are followed:
      every listed slot lies in the arena and carries the header size
      `blockSize`, each links to the next listed one, the last one to NULL,
      and the order is strictly ascending. */
  ghost predicate Linked(free: seq<int>, blocks: seq<FreeBlock>, blockSize: int) {
    InArena(free, |blocks|) && Ascending(free)
    && (forall i :: 0 <= i < |free| ==> blocks[free[i]].size == blockSize)
    && (forall i :: 0 <= i < |free| - 1 ==> blocks[free[i]].next == free[i + 1])
    && (free != [] ==> blocks[free[|free| - 1]].next == NULL)
  }

  /** The slots lo, lo+1, ..., hi-1 in that order. */
  function Range(lo: int, hi: int): (r: seq<int>)
    ensures |r| == if lo <= hi then hi - lo else 0
    ensures forall i :: 0 <= i < |r| ==> r[i] == lo + i
    decreases hi - lo
  {
    if lo >= hi then [] else [lo] + Range(lo + 1, hi)
  }

  /** Adjacent ascent gives ascent between any two positions, so no slot
      is visited twice. */
  lemma {:induction false} AscendingSorted(free: seq<int>)
    requires Ascending(free)
    ensures forall i, j :: 0 <= i < j < |free| ==> free[i] < free[j]
  {
    if |free| > 1 {
      var tail := free[1..];
      assert Ascending(tail) by {
        forall i | 0 <= i < |tail| - 1 ensures tail[i] < tail[i + 1] {
          assert tail[i] == free[i + 1] && tail[i + 1] == free[i + 2];
        }
      }
      AscendingSorted(tail);
      forall i, j | 0 <= i < j < |free| ensures free[i] < free[j] {
        if 0 < i {
          assert free[i] == tail[i - 1] && free[j] == tail[j - 1];
        } else if 1 < j {
          assert free[1] == tail[0] && free[j] == tail[j - 1];
        }
      }
    }
  }

  /** The free list is the only traversal the stored links allow: two orders
      that both start at the same head and both follow the same headers are
      equal. */
  lemma {:induction false} TraversalDetermined(f: seq<int>, g: seq<int>, blocks: seq<FreeBlock>, blockSize: int)
    requires Linked(f, blocks, blockSize) && Linked(g, blocks, blockSize)
    requires Head(f) == Head(g)
    ensures f == g
  {
    var m := if |f| <= |g| then |f| else |g|;
    var k := 0;
    while k < m
      invariant 0 <= k <= m
      invariant forall i :: 0 <= i < k ==> f[i] == g[i]
    {
      if k > 0 {
        assert f[k] == blocks[f[k - 1]].next == blocks[g[k - 1]].next == g[k];
      }
      k := k + 1;
    }
    // The shorter order ends with a NULL link at a node where the longer
    // order continues to a slot, so neither can be shorter.
    if 0 < m {
      LastLinkIsNull(f, blocks, blockSize, m - 1);
      LastLinkIsNull(g, blocks, blockSize, m - 1);
    }
  }

  /** Only the last node of the list links to NULL. */
  lemma LastLinkIsNull(free: seq<int>, blocks: seq<FreeBlock>, blockSize: int, i: int)
    requires Linked(free, blocks, blockSize) && 0 <= i < |free|
    ensures blocks[free[i]].next == NULL <==> i == |free| - 1
  {
    if i < |free| - 1 {
      assert blocks[free[i]].next == free[i + 1];
    }
  }

  /** Unlinking the first k nodes, by pointing the head at the k-th node,
      leaves a well-formed list ascending within the arena. */
  lemma DropLinked(free: seq<int>, blocks: seq<FreeBlock>, blockSize: int, k: int)
    requires Linked(free, blocks, blockSize) && 0 <= k <= |free|
    ensures Linked(free[k..], blocks, blockSize)
    ensures Head(free[k..]) == if k == |free| then NULL else free[k]
  {
  }

  /** Nodes unlinked from the front are no longer on the list. */
  lemma DroppedNotFree(free: seq<int>, k: int)
    requires Ascending(free) && 0 <= k <= |free|
    ensures forall i :: 0 <= i < k ==> free[i] !in free[k..]
  {
    AscendingSorted(free);
    forall i | 0 <= i < k ensures free[i] !in free[k..] {
      assert forall j :: 0 <= j < |free| - k ==> free[k..][j] == free[k + j];
    }
  }

  /** The free list in terms of addresses: with slot k at
      `base + k * blockSize`, traversal addresses strictly increase, each
      by at least a whole block, and each block lies wholly inside the
      arena's `n * blockSize` bytes. */
  lemma AddressOrder(free: seq<int>, base: int, blockSize: int, n: int)
    requires InArena(free, n) && Ascending(free) && 0 < blockSize
    ensures forall i, j :: 0 <= i < j < |free| ==>
      SlotAddress(base, blockSize, free[i]) + blockSize <= SlotAddress(base, blockSize, free[j])
    ensures forall i :: 0 <= i < |free| ==>
      base <= SlotAddress(base, blockSize, free[i])
      && SlotAddress(base, blockSize, free[i]) + blockSize <= base + n * blockSize
  {
    AscendingSorted(free);
    forall i, j | 0 <= i < j < |free|
      ensures SlotAddress(base, blockSize, free[i]) + blockSize <= SlotAddress(base, blockSize, free[j])
    {
      SlotBefore(base, blockSize, free[i], free[j]);
    }
    forall i | 0 <= i < |free|
      ensures base <= SlotAddress(base, blockSize, free[i])
      ensures SlotAddress(base, blockSize, free[i]) + blockSize <= base + n * blockSize
    {
      SlotInside(base, blockSize, free[i], n);
    }
  }

  /** A lower slot ends at or before a higher one starts. */
  lemma SlotBefore(base: int, blockSize: int, a: int, b: int)
    requires a < b && 0 < blockSize
    ensures SlotAddress(base, blockSize, a) + blockSize <= SlotAddress(base, blockSize, b)
  {
    MulMonotone(a + 1, b, blockSize);
  }

  /** Slot k of an n-slot arena lies inside the arena's bytes. */
  lemma SlotInside(base: int, blockSize: int, k: int, n: int)
    requires 0 <= k < n && 0 < blockSize
    ensures base <= SlotAddress(base, blockSize, k)
    ensures SlotAddress(base, blockSize, k) + blockSize <= base + n * blockSize
  {
    MulMonotone(k + 1, n, blockSize);
  }

  /** The address of slot k: `(char *)base + k * blockSize`. Slots at or
      above 0 lie at or above the base, on a block boundary. */
  function SlotAddress(base: int, blockSize: int, k: int): (a: int)
    ensures 0 < blockSize && 0 <= k ==> base <= a && (a - base) % blockSize == 0
  {
    SlotAligned(blockSize, k);
    base + k * blockSize
  }

  lemma SlotAligned(blockSize: int, k: int)
    ensures 0 < blockSize && 0 <= k ==> 0 <= k * blockSize && (k * blockSize) % blockSize == 0
  {
    if 0 < blockSize && 0 <= k {
      MulMonotone(0, k, blockSize);
      var q, r := (k * blockSize) / blockSize, (k * blockSize) % blockSize;
      assert k * blockSize == q * blockSize + r && 0 <= r < blockSize;
      assert (k - q) * blockSize == r;
      if k < q {
        MulMonotone(1, q - k, blockSize);
      } else if q < k {
        MulMonotone(1, k - q, blockSize);
      }
    }
  }

  /** An ascending list inside an arena of n slots has at most n nodes:
      the i-th node is at least i slots above the head. */
  lemma LinkedLength(free: seq<int>, n: int)
    requires InArena(free, n) && Ascending(free)
    ensures |free| <= if n < 0 then 0 else n
  {
    var k := 0;
    while k < |free|
      invariant 0 <= k <= |free|
      invariant forall i :: 0 <= i < k ==> free[0] + i <= free[i]
    {
      if 0 < k {
        assert free[k - 1] < free[k];
      }
      k := k + 1;
    }
    if 0 < |free| {
      assert free[0] + |free| - 1 <= free[|free| - 1];
    }
  }

  lemma MulMonotone(a: int, b: int, c: int)
    requires a <= b && 0 < c
    ensures a * c <= b * c
  {
  }
}
