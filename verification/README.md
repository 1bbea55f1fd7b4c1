# A first-fit heap allocator, modelled in Dafny

This project models a small sequential heap allocator written in C
(`main.c`). Memory comes from `sbrk`. Every chunk starts with a 16-byte header
`mem_chunk { size_t size; mem_chunk *next; }`. The allocator keeps two lists:

- the **free list**, ordered by address. It starts at a static zero-size
  sentinel `sink`, and a chunk that runs into its successor absorbs it;
- the **allocated list**, to which `memalloc` pushes chunks at the front.

The model keeps the program's structure, one module per layer:

- `Machine`: the width of `size_t` (64 bits, with every `size_t` operation
  taken modulo 2^64), the header size, `ALIGN`, the exit codes, and `align`.
- `Chunks`: a header as an `(addr, size)` record. `End` is the true end of a
  chunk. `PointerEnd` is the end as the merge test computes it with pointer
  arithmetic (`ptr + size/ALIGN + 1` in header units). `Merge` is the
  absorbing header, and `Total` is the number of bytes a list covers.
- `FreeList`: `insert_on_free_list` written as the C walk (`SlotFrom`, the
  loop test of lines 45-53) followed by merge-or-splice. An independent
  structural reference `InsertInOrder` comes with a proof that the two agree.
  `get_free_list` is a loop that counts from `(size_t)-1`.
- `Allocator`: the global state `Heap(sink, free, inUse, brk)`, `incr_brk`,
  first fit, `memalloc` with its exact-fit and split branches, and `free_mem`.
  Lists are sequences, so the `next` fields and the unlinking are sequence
  operations. `sbrk` is an oracle, the boolean `grant`. It also fails when the
  break would leave the 64-bit address space.
- `Invariants`: the allocator invariant `Valid(h, base)`, where `base` is the
  break before the first call. The invariant has these parts:
  - the free list is ordered and has no overlaps;
  - every chunk lies between `base` and the break, with a size that is a
    multiple of 16;
  - free and allocated chunks do not overlap;
  - allocated chunks are distinct;
  - the two lists together cover exactly `brk - base` bytes.

  The module proves that every operation keeps `Valid`. It also states what
  each branch of each operation does to the lists.
- `AsWritten`: behaviours that follow from the code as written, which a
  reader expecting malloc/free semantics would not assume (see below).

### Behaviour as written

The requirements comment at the top of `main.c` (lines 9-13) asks for
consecutive free chunks to be merged, and for every allocation, including a
zero-size one, to be releasable through the free function. The usual
malloc/free contract adds that a pointer is not handed out twice while it is
in use. The code falls short of these promises in several places. The model
follows the code:

- **No backward merge.** Only the successor is ever absorbed
  (`AsWritten.NoBackwardMerge`). A chunk freed right after a free neighbour
  stays a separate node.
- **The grow path leaves its chunk free.** On a miss, `memalloc` returns the
  chunk that `incr_brk` put on the free list, and never moves it to the
  allocated list. The next request of the same size returns the same address
  again (`AsWritten.GrowHandsOutTwice`). `free_mem` cannot find the chunk and
  reports failure (`AsWritten.GrownChunkNotReleasable`).
- **Freeing the head of the allocated list** writes through a NULL `prev`
  (main.c:153-154). `FreeMem` therefore has a precondition that excludes this
  case. The head is always the most recent allocation served from the free
  list (`AsWritten.NewestIsHead`). An allocation served by the grow path
  never enters the allocated list, so releasing it reports failure instead.
- **Adjacent free nodes can coexist.** Because no backward merge happens, and
  a grown chunk is appended after a free node that may end at the old break,
  "no two adjacent free nodes" is not part of `Valid`.
- **Release-then-reallocate.** The usual round trip, where the most recent
  allocation is released and the same size is allocated again, cannot be run
  on the code when that allocation was served from the free list. Such an
  allocation is the head of the allocated list, which free_mem cannot
  release.
- **Inverted result.** `free_mem` returns `EXIT_SUCCESS` (0) converted to
  `bool` on success, which is `false`. On failure it returns `EXIT_FAILURE`,
  which is `true`.
- **size_t wrap-around.**
  - `align` rounds the top fifteen values of `size_t` to 0.
  - For `align(b) = 2^64 - 16`, the `sbrk` increment `align(b) + 16` wraps to
    0. `sbrk(0)` succeeds, and the chunk written at the unchanged break claims
    2^64 - 16 bytes that lie beyond it (`AsWritten.RequestWrapBreaksHeap`).
  - `MemallocPreservesValid` therefore requires that a miss does not wrap.
- **The merge test uses pointer arithmetic.** It finds the true end of the
  chunk only when the size is a multiple of 16 (`Chunks.PointerEndMatchesEnd`).
  The invariant keeps every size a multiple of 16.

## Model

| member | source | states |
|---|---|---|
| Machine.Align | main.c:32-34 | the result is a multiple of 16; when the rounding does not wrap it is at least the request and less than the request plus 16 (so `align(0) == 0`); for the top fifteen size_t values it wraps to 0 |
| Machine.AlignIsLeast | main.c:32-34 | align gives the least multiple of 16 that is not below the request |
| Machine.AlignIdempotent | main.c:32-34 | aligning an aligned size changes nothing, so incr_brk's second align of memalloc's already-aligned size is harmless |
| Chunks.PointerEndMatchesEnd | main.c:43-56 | the pointer arithmetic `ptr + size/ALIGN + 1` never lies past the chunk's true end, and equals it exactly when the size is a multiple of 16 |
| Chunks.MergeSpansBoth | main.c:56-58 | a merged header starts where the chunk starts, ends where the successor ends, and covers the bytes of both |
| FreeList.SlotFrom | main.c:40-53 | the walk stops at the first node that passes the loop test: `ptr` is above `t`, and `t->next` is NULL or above `ptr`, and finds nothing when no node passes |
| FreeList.InsertOnFreeList | main.c:38-65 | the list grows by one node (splice) or keeps its length (merge, or no slot found), and every node of the result is an old node, the chunk, or the chunk merged with an old node; its exact behaviour is stated by InsertMatchesReference, InsertForwardMerge and InsertSplice |
| FreeList.InsertMatchesReference | main.c:38-65 | for a chunk above the sentinel whose address is not on the list, the C walk plus merge-or-splice equals ordered insertion by structural recursion |
| FreeList.InsertInOrderSeparated | main.c:40-63 | inserting a chunk that overlaps no free node keeps the free nodes ordered and non-overlapping |
| FreeList.InsertKeepsAscending | main.c:40-63 | for a chunk above the sentinel whose address is not on the list, the nodes stay strictly ascending and above the sentinel, the chunk's address is now present, and no other address appears |
| FreeList.InsertForwardMerge | main.c:55-63 | when the chunk ends where a node starts, that node is unlinked and absorbed into a header of size `size + succ.size + 16`, every other node is kept, and the bytes the list covers grow by exactly the chunk's `size + 16` |
| FreeList.InsertSplice | main.c:59-63 | without adjacency, the chunk is placed right after the leading run of nodes whose addresses lie below it (in an ascending list, after the last node below it); the nodes before and after keep their order and sizes, and the covered bytes grow by the chunk's extent |
| FreeList.InsertAboveAll | main.c:45-63 | a chunk above every node is appended at the end of the list |
| FreeList.InsertIgnoresPresent | main.c:45-55 | in an ascending list, a chunk whose address is already a node finds no slot, and the list is returned unchanged |
| FreeList.InsertIgnoresBelowSentinel | main.c:45-55 | a chunk at or below the sentinel finds no slot, and the list is returned unchanged |
| FreeList.GetFreeList | main.c:70-79 | counting from `(size_t)-1` over the sentinel and all free nodes gives the number of free nodes, modulo 2^64 |
| Allocator.Init | main.c:26-29 | the initial state, with only the sentinel free and nothing allocated, satisfies the allocator invariant |
| Allocator.IncrBrk | main.c:82-97 | the result is NULL exactly when sbrk refuses or the new break `brk + (align(b) + 16) mod 2^64` would leave the address space, and then nothing changes; otherwise it returns the old break, advances the break by that increment and leaves the allocated list alone (the appended chunk is stated by Invariants.IncrBrkPreservesValid) |
| Allocator.FirstFit | main.c:103-111 | the position found is the first in list order whose size is at least the request, and none is found only when no node is large enough |
| Allocator.Memalloc | main.c:99-141 | a fit never returns NULL and never moves the break; on a miss the result is NULL exactly when sbrk refuses or the increment `align(n) + 16` would leave the address space; NULL leaves the state unchanged; any other result lies at least one header above address 0 |
| Allocator.TakeWhole | main.c:112-128 | the exact-fit branch removes exactly one copy of the fitting chunk from the free list, puts that chunk at the head of the allocated list in front of the old list, and moves neither the break nor the sentinel (its effect on the invariant is Invariants.TakeWholeKeepsValid) |
| Allocator.Carve | main.c:115-128 | the split branch leaves every other free node in place; the allocated head starts at the old chunk's address with the requested size, in front of the old allocated list; the remainder starts where the carved part ends and, for aligned sizes with `old > size`, ends where the old chunk ended (the invariant is Invariants.CarveKeepsValid) |
| Allocator.FindAllocated | main.c:147-160 | the lookup finds the first allocated chunk whose header is at the given address, and finds none only when there is no such chunk |
| Allocator.FreeMem | main.c:143-162 | the result is `true` (EXIT_FAILURE) exactly when no allocated chunk has its header at `ptr - 16`, and then nothing changes; the sentinel and the break never change |
| Invariants.IncrBrkPreservesValid | main.c:82-96 | when the request does not wrap, growing the heap keeps the invariant; on success it appends a chunk of `align(b)` bytes at the old break, and the break advances by `align(b) + 16` |
| Invariants.AppendKeepsValid | main.c:88-95 | a chunk laid at the break, with the break moved past it, keeps the invariant |
| Invariants.FirstFitIsLowest | main.c:103-111 | in an ordered free list, the first fit in list order is the fitting chunk with the lowest address |
| Invariants.TakeWholeKeepsValid | main.c:112-128 | unlinking a free chunk whole and pushing it onto the allocated list keeps the invariant |
| Invariants.SplitRemainder | main.c:115-118 | with aligned sizes and `old > size`, the remainder size `old - size - 16` does not underflow, and the remainder ends where the old chunk ended |
| Invariants.CarveSeparates | main.c:115-126 | after a split, the carved part and the remainder overlap neither each other nor any other chunk |
| Invariants.CarvePlaces | main.c:115-126 | after a split, the free list is still ordered and non-overlapping, every chunk is still in the heap, and the carved part is new to the allocated list |
| Invariants.CarveAccounts | main.c:115-126 | after a split, the two lists still cover exactly the bytes of the heap |
| Invariants.CarveKeepsValid | main.c:115-126 | the split branch keeps the invariant |
| Invariants.CarveShape | main.c:115-123 | a split replaces the carved node by its remainder in the same list position and changes no other free node |
| Invariants.MemallocPreservesValid | main.c:99-141 | memalloc keeps the invariant, except when a miss would wrap the sbrk increment |
| Invariants.MemallocExactFit | main.c:112-128 | when the lowest free chunk that fits has exactly the aligned size, it leaves the free list and goes to the front of the allocated list; the caller gets its address plus 16; the break does not move |
| Invariants.MemallocSplit | main.c:115-128 | when the lowest free chunk that fits is larger than the aligned size, it gives its front to the caller; a remainder of `old - size - 16` bytes takes its list position; all other free nodes stay in place |
| Invariants.MemallocGrows | main.c:135-140 | on a miss, a granted sbrk appends a chunk of the aligned size at the old break and leaves it on the free list; the allocated list is untouched, and the caller gets the old break plus 16 |
| Invariants.ReleasedChunkFits | main.c:146-155 | a chunk being released lies above the sentinel and overlaps no free chunk, so the insertion behaves like ordered insertion |
| Invariants.UnlinkRemoves | main.c:153-154 | unlinking from the allocated list removes exactly that one chunk |
| Invariants.InUseByAddress | main.c:149-150 | in a valid heap, an allocated chunk is identified by its header address, so free_mem's address comparison picks the right chunk |
| Invariants.InsertedNodesFit | main.c:155 | after a release, every free node, merged or not, lies in the heap and overlaps no remaining allocated chunk |
| Invariants.FreeMemPreservesValid | main.c:143-162 | free_mem keeps the invariant |
| Invariants.FreeMemReleases | main.c:146-156 | releasing a non-head allocated chunk returns `false` (EXIT_SUCCESS); it removes exactly that chunk from the allocated list and keeps the other chunks in order; the free list becomes the chunk inserted in address order, and it covers the chunk's `size + 16` bytes in addition |
| Invariants.FreeTwiceFails | main.c:146-161 | releasing the same pointer a second time returns `true` (EXIT_FAILURE) and changes nothing |
| AsWritten.NoBackwardMerge | main.c:55-63 | a chunk inserted right after a free node that ends where it starts stays a separate node next to it |
| AsWritten.GrowHandsOutTwice | main.c:135-140 | after the grow path returns a pointer, the next request of the same size returns the same pointer again |
| AsWritten.GrownChunkNotReleasable | main.c:135-140 | free_mem on a pointer returned by the grow path reports failure and changes nothing |
| AsWritten.NewestIsHead | main.c:124-126 | an allocation served from the free list becomes the head of the allocated list, the case free_mem cannot release |
| AsWritten.RequestWrapBreaksHeap | main.c:82-95 | a request of 2^64 - 16 bytes wraps the sbrk increment to 0; the break stays put, and a chunk reaching past it is put on the free list, which breaks the invariant |

## Left out

- The diagnostics (`printf`, `perror` and the `err` wrapper, main.c:16-18 and the `printf` lines). Their output is not modelled, and neither is any memory the C library may take for them; see the next lines.
- The `main` demo driver (main.c:164-181). It is a usage example, not allocator logic.
- The real `sbrk`. It is the `grant` parameter: the system may refuse any request, and a request that would move the break past 2^64 always fails.
- Allocator.IncrBrk: a granted sbrk returns the allocator's own last break. The model assumes that only incr_brk moves the program break, and that `base` is the break at the first sbrk call. The real sbrk returns whatever the break currently is; another user of the break, such as a C library buffering stdout for the first `printf` (main.c:101), could move it in between. The accounting clause of `Valid` (the two lists cover exactly `brk - base` bytes) rests on this assumption.
- Allocator.IncrBrk: sbrk takes an `intptr_t`, so an increment of 2^63 bytes or more reaches it as a negative number. The model treats it as a growth that the oracle grants or refuses, not as a shrink.
- Raw memory and the `next` fields. Headers are `(addr, size)` records, and list order is sequence order. The write `t->next = NULL` on a carved chunk (main.c:122) is subsumed by pushing it onto the allocated list.
- Allocator.FreeMem: `ptr - 16` is computed on unbounded integers. For `ptr < 16`, C wraps the subtraction to an address near 2^64. The model instead gets a negative address that matches no chunk.
- Allocator.FreeMem: releasing the head of the allocated list is excluded by the precondition, because the code dereferences a NULL `prev` there and its behaviour is undefined.
- Backward coalescing, and any fix for the grow path or the head release. The code does none of these, so the model does not either.
- Invariants.MemallocPreservesValid: excludes a miss whose `align(n) + 16` wraps, because on that input the code itself breaks the heap (`AsWritten.RequestWrapBreaksHeap`).
- Invariants.IncrBrkPreservesValid: excludes a wrapping increment for the same reason.
