# Fixed-block memory pool

A Dafny model of the memory pool in `memory_pool.c`. `initPool` checks that
the pool size is a multiple of the block size and allocates one arena. It
then threads an intrusive singly linked free list through the arena: every
block starts with a `struct FreeBlock` header holding the block size and a
pointer to the next block. `alloc` recovers the block size from the pool,
rejects requests that are not a whole number of blocks, and walks the free
list, unlinking nodes as it goes.

The arena is modelled by slots. Slot k stands for the address
`addr + k * blockSize` (`FreeList.SlotAddress`). The arena is an
`array<FreeBlock>` holding the header of each slot. A link is a slot index,
and NULL is -1. The class `MemoryPool.Pool` has the fields of `struct Pool`.
It also has a ghost `freeList`, the order in which the links are followed
from `list`. `FreeList.Linked` ties that order to the stored headers. Every
listed slot lies in the arena and carries the header size. Each slot links
to the next listed one and the last links to NULL. The order is strictly
ascending, because the list is kept in address order.
`FreeList.TraversalDetermined` shows that the ghost order is the only one
the links allow.

`alloc` is modelled as it is written (`Pool.Alloc`, specified by
`WrittenAlloc`). Line 80 reads `if (contiguousCount = 0)`, an assignment.
So `start` is never set and the count is 1 whenever it is compared. As a
result, a request that comes to exactly one block unlinks the head and
returns NULL. Every other request walks the whole list and returns NULL,
leaving it unchanged. `Pool.AllocIntended` and `IntendedAlloc` model the
evident intent. They are the corrected half of the findings below.

Target assumptions: `int` is 32 bits, `size_t` is 64 bits, and a header is
16 bytes. `int nBlocksNeeded = size / blockSize` keeps the low 32 bits of
the quotient as two's complement (`ToInt32`).

The C code relies on three conditions on its inputs that it never checks.
They are preconditions of `InitPool`:
- `blockSize > 0`. Line 20 divides by it, so 0 is undefined behaviour. A
  negative `blockSize` that does not divide `poolSize` would take the exit
  at line 20 (C's truncating `%` and the model's `%` agree on whether the
  remainder is zero), but one that divides it gives a negative quotient that
  becomes a huge `size_t` at line 25, a block count the slot array cannot
  express.
- `poolSize > 0`. `poolSize == 0` passes the check at line 20 and asks
  `malloc` for 0 bytes at line 39. When that returns NULL the code exits at
  line 43; when it returns a pointer, `num_blocks - 1` at line 50 wraps
  around. A negative `poolSize` either exits at line 20 or, as a multiple of
  `blockSize`, becomes a huge `size_t` at lines 25 and 39. A positive
  `poolSize` below `blockSize` is not excluded: it takes the divisibility
  exit.
- `blockSize >= 16` when the sizes divide, so that the headers written at
  lines 50-56 fit in a block. A block size below 16 that does not divide
  the pool is not excluded: it takes the divisibility exit, as in
  `initPool(100, 8)`.

The `exit(EXIT_FAILURE)` calls become the error results `NotDivisible` and
`OutOfMemory`. The arena's `malloc` is a parameter, `arenaBase`, where 0
stands for failure.

Behaviour of the code worth knowing:
- `alloc` never returns a block; it returns NULL every time.
- A request for zero blocks is not rejected: it walks the list and returns
  NULL.
- `blockSize > 0` is never checked.
- Errors in `initPool` call `exit`; the model turns them into error
  results.

## Model

| member | source | states |
|---|---|---|
| `MemoryPool.NumBlocks` | memory_pool.c:19-25 | For any positive sizes, the check succeeds exactly when `poolSize % blockSize == 0` and otherwise fails with `NotDivisible`. On success the block count n is at least 1 and `n * blockSize == poolSize`. |
| `MemoryPool.InitPool` | memory_pool.c:17-59 | Fails exactly when the sizes do not divide (`NotDivisible`) or the arena `malloc` fails (`OutOfMemory`). Otherwise it returns a fresh valid pool with `size == poolSize`, `nBlocks == poolSize / blockSize`, `addr` the arena base and `list` slot 0. The recovered block size is `blockSize` and the free list visits slots 0..nBlocks-1 in order. Slot k's header is `(blockSize, k+1)` and the last slot's header is `(blockSize, NULL)`. |
| `MemoryPool.Pool.constructor` | memory_pool.c:28-47 | The new pool records the pool size, the block count, the arena's base address and the arena, and its list starts empty until `initPool` threads it. |
| `MemoryPool.Pool.Valid` | memory_pool.c:4-14 | The pool invariant: `nBlocks` is positive and is the arena's slot count, the block size divides the pool exactly and holds a header, `list` is the head of `freeList`, and `freeList` is `Linked` in the arena with the recovered block size. |
| `MemoryPool.Pool.BlockSize` | memory_pool.c:64 | The recovered block size `size / nBlocks`; when the blocks divide the pool, `nBlocks` of them make up exactly `size` bytes. |
| `MemoryPool.Pool.FreeListBounds` | memory_pool.c:47-56 | In a valid pool the free list has at most `nBlocks` nodes; in addresses each free block starts at least one block above the previous one, and every free block lies inside `addr .. addr + size`. |
| `MemoryPool.RecoveredBlockSize` | memory_pool.c:64 | `pool->size / pool->nBlocks` equals the `blockSize` given to `initPool`, thanks to the divisibility check at :20 and the count at :25. |
| `MemoryPool.ToInt32` | memory_pool.c:72 | Converting the `size_t` block count to `int` yields a 32-bit value congruent to it modulo 2^32, and equal to it when it fits. |
| `MemoryPool.WrittenAlloc` | memory_pool.c:61-100 | The written `alloc` returns NULL for every request. A misaligned request leaves the list unchanged. The new list is always a suffix of the old one; when it is shorter, it is exactly the old list without its head. It is shorter exactly when the request is aligned, its 32-bit block count is 1 and the list is non-empty. |
| `MemoryPool.Pool.Alloc` | memory_pool.c:61-100 | The C walk and relink as written (`prev`, `current`, `start`, the assigning test). It keeps the pool invariant and changes only `list`. The new free list and the returned value are exactly `WrittenAlloc` of the old list. The `prev->next` branch at :89 is proved unreachable. |
| `MemoryPool.WrittenAllocKeepsList` | memory_pool.c:85-91 | After the written `alloc` the free list is still linked, ascending and inside the arena. When a node was unlinked, that old head is no longer on the list and was not returned, so the block is lost. |
| `MemoryPool.WrittenScenario` | memory_pool.c:104-107 | `initPool(100, 128)` and `initPool(100, 8)` fail with `NotDivisible`. On the pool of `initPool(1024, 128)` (8 slots), `alloc(128)` unlinks slot 0 and returns NULL. `alloc(256)` changes nothing and returns NULL. `alloc(128 * (2^32 + 1))` unlinks slot 0 as well. |
| `MemoryPool.IntendedAlloc` | memory_pool.c:71-99 | The intended `alloc` succeeds exactly when the request is aligned and has between 1 and `|free|` blocks. It then returns the head, and the old list is the n-block run followed by the new list. Otherwise it returns NULL and the list is unchanged. |
| `MemoryPool.Pool.AllocIntended` | memory_pool.c:74-92 | The walk with `==` at :80 and the relink from the node before `start`. It keeps the pool invariant, changes only `list`, and its outcome is exactly `IntendedAlloc` of the old list. |
| `MemoryPool.IntendedAllocExclusive` | memory_pool.c:85-91 | After the intended `alloc` the list is still linked, ascending and in the arena, and no block of the handed-out run is still on the free list. |
| `MemoryPool.IntendedRunContiguous` | memory_pool.c:47-54 | On a free list of consecutive slots lo..hi-1, as `initPool` builds it, a run of n blocks handed out by the intended `alloc` is the slots lo..lo+n-1. The list left behind is lo+n..hi-1. |
| `MemoryPool.WrittenAllocKeepsRange` | memory_pool.c:85-91 | One call of the written `alloc` on the range lo..hi-1 leaves a range of trailing slots ending at hi-1. |
| `MemoryPool.AfterWrittenAllocs` | memory_pool.c:61-100 | The free list after a sequence of written `alloc` calls, one per request size, is a suffix of the list it started from. |
| `MemoryPool.AfterIntendedAllocs` | memory_pool.c:71-99 | The free list after a sequence of intended `alloc` calls is a suffix of the list it started from. |
| `MemoryPool.WrittenAllocsKeepRange` | memory_pool.c:47-56 | After any sequence of written `alloc` calls, a free list of consecutive slots, such as the one `initPool` builds, is still consecutive and ends at the same slot. |
| `MemoryPool.IntendedAllocsKeepRange` | memory_pool.c:47-56 | After any sequence of intended `alloc` calls, a free list of consecutive slots is still consecutive and ends at the same slot, so every later run is contiguous as well (`IntendedRunContiguous`). |
| `MemoryPool.IntendedScenario` | memory_pool.c:104-107 | On the 8-slot pool, intended one-block requests return slot 0 and then slot 1 (base + 128). A two-block request returns slot 0 and unlinks slots 0 and 1. A request for 2^32 + 1 blocks fails and leaves the list unchanged. |
| `FreeList.Linked` | memory_pool.c:11-14 | The traversal order agrees with the stored headers: every node is a slot of the arena whose header size is the block size, each node's `next` is the following node, the last node's `next` is NULL, and the order is strictly ascending. |
| `FreeList.SlotAddress` | memory_pool.c:52 | The address of slot k, `base + k * blockSize`: for k >= 0 it lies at or above the base and on a block boundary. |
| `FreeList.LinkedLength` | memory_pool.c:50-56 | An ascending list of slots of an n-slot arena has at most n nodes. |
| `FreeList.Range` | memory_pool.c:49-56 | The traversal order `initPool` builds: `hi - lo` slots, the i-th being `lo + i`. |
| `FreeList.AscendingSorted` | memory_pool.c:52 | Since each link goes to a higher address, any earlier node lies below any later one, so no block is listed twice. |
| `FreeList.TraversalDetermined` | memory_pool.c:8-13 | Two traversal orders that start at the same head and follow the same stored `next` links are equal. |
| `FreeList.LastLinkIsNull` | memory_pool.c:56 | A listed node's `next` is NULL exactly when it is the last node, which is where the walk in `alloc` (:79) stops. |
| `FreeList.DropLinked` | memory_pool.c:87 | Pointing the head at the k-th node leaves a linked, ascending list in the arena whose head is that node, or NULL when k is the length. |
| `FreeList.DroppedNotFree` | memory_pool.c:87 | Nodes unlinked from the front of an ascending list no longer occur in it. |
| `FreeList.AddressOrder` | memory_pool.c:47-52 | In address terms, with slot k at `base + k * blockSize`, each free block starts at least one block above the previous one. Every free block lies within the arena's `n * blockSize` bytes. |

## Left out

- `main` (memory_pool.c:102-113) and the `printf` diagnostics (:21, :31, :41, :67, :98) are demo and console output. `WrittenScenario` states what `main`'s pool sizes lead to.
- The `malloc` of `struct Pool` (:28-33) cannot fail in the model, since Dafny's `new` always succeeds. The arena's `malloc` (:39-44) is the parameter `arenaBase`. `free(poolPtr)` before the exit becomes dropping the object.
- There is no release and no destroy: the source has neither.
- The model uses a slot-indexed header array, so it does not capture that headers share their bytes with user data, or byte-level aliasing between blocks.
- `blockSize <= 0`, `poolSize <= 0` and, when the sizes divide, `blockSize` values below 16 are excluded by `InitPool`'s preconditions. A block size below 16 that does not divide `poolSize` reaches the divisibility exit at :20-22 in the model as in the code. A negative `blockSize` that does not divide `poolSize` would also exit at :20; the model excludes every negative `blockSize` because one that divides `poolSize` makes the block count at :25 a wrapped `size_t`, which the slot array cannot express. `poolSize == 0` passes the check at :20; unless `malloc(0)` at :39 returns NULL and the code exits at :43, `num_blocks - 1` underflows at :50. A negative `poolSize` either exits at :20 or, when it is a multiple of `blockSize`, turns into a huge `size_t` block count at :25 and a huge `malloc` request at :39, a wrapped arena that `arenaBase` and the slot array cannot express. `poolSize` and `blockSize` are C `int`s, so they are bounded by `INT_MAX`.
- `matmuls/matmul.c`, `matmuls/tiling1d.c` and `shell.c` are not part of this model. They are floating-point kernels, timing, OpenMP, and a process-spawning shell.

## Findings

| source | as written | input that shows it | evidently intended | confidence | as-written member | corrected member |
|---|---|---|---|---|---|---|
| memory_pool.c:80 | `if (contiguousCount = 0)` assigns 0 and tests false. So `start` stays NULL and the count is 1 at every test. A one-block request unlinks the head yet returns NULL, and the block is lost. Every other request returns NULL. | `initPool(1024, 128)` then `alloc(pool, 128)` | Compare with `==`. Then the first n free nodes are handed out as one run and unlinked from the node before `start` (:86-90 uses `prev`, the node before `current`), and the run's first block is returned. | not executed | `MemoryPool.WrittenScenario` | `MemoryPool.IntendedAlloc` |
| memory_pool.c:72 | `int nBlocksNeeded = size / blockSize` truncates a 64-bit block count to 32 bits. A request for 2^32 + 1 blocks counts as one block and unlinks the head. | `initPool(1024, 128)` then `alloc(pool, 128 * (2^32 + 1))` | Keep the count as a `size_t`, so a request larger than the list fails with the list unchanged. | not executed | `MemoryPool.WrittenScenario` | `MemoryPool.IntendedAlloc` |
