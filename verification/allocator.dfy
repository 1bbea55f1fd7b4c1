/** The allocator proper (main.c:26-29, 81-162): the global state, the heap
    grower `incr_brk`, `memalloc` and `free_mem`, as pure functions that
    thread an immutable state.
 */
module Allocator {
  import opened Machine
  import opened Chunks
  import opened FreeList

  /** The allocator's globals: the address of the static sentinel `sink`, the
      free list after the sentinel, the allocated list from its head, and the
      program break that sbrk moves. */
  datatype Heap = Heap(sink: nat, free: seq<Chunk>, inUse: seq<Chunk>, brk: nat)

  /** A C pointer result: NULL or an address. */
  datatype Ptr = Null | Addr(at: nat)

  /** Pointers are 64 bits wide: the break can never pass 2^64. */
  const AddressLimit: nat := SizeMod

  /** The chunk lies between the first break and the current one, and its
      size is a whole number of headers. */
  predicate Placed(c: Chunk, base: nat, brk: nat) {
    base <= c.addr && End(c) <= brk && c.size % Header == 0
  }

  /** The allocator's invariant, for `base` the break before the first call:
      the free list is ordered and non-overlapping; every chunk of either list
      lies in the heap with an aligned size; no free chunk overlaps an
      allocated one; allocated chunks are distinct and do not overlap; and the
      two lists together cover exactly the bytes sbrk has handed over. */
  ghost predicate Valid(h: Heap, base: nat) {
    && h.sink < base <= h.brk <= AddressLimit
    && Separated(h.free)
    && (forall c :: c in h.free ==> Placed(c, base, h.brk))
    && (forall c :: c in h.inUse ==> Placed(c, base, h.brk))
    && (forall f, a :: f in h.free && a in h.inUse ==> Disjoint(f, a))
    && (forall a, b :: a in h.inUse && b in h.inUse && a != b ==> Disjoint(a, b))
    && (forall a :: multiset(h.inUse)[a] <= 1)
    && Total(h.free) + Total(h.inUse) == h.brk - base
  }

  /** The state before the first call: only the sentinel on the free list,
      an empty allocated list (main.c:26-29). */
  function Init(sink: nat, brk: nat): (h: Heap)
    requires sink < brk <= AddressLimit
    ensures Valid(h, brk)
    ensures |h.free| == 0 && |h.inUse| == 0
  {
    Heap(sink, [], [], brk)
  }

  // ---------------------------------------------------------------------
  // incr_brk (lines 81-97)
  // ---------------------------------------------------------------------

  /** incr_brk(bytes): request `align(bytes) + sizeof(mem_chunk)` from sbrk, a
      size_t sum. `grant` is the operating system's answer; sbrk also fails
      when the new break would leave the address space. On success the chunk
      at the old break, sized `bytes - sizeof(mem_chunk)` (again size_t), goes
      onto the free list and its header address is returned. */
  function IncrBrk(h: Heap, bytes: SizeT, grant: bool): (r: (Heap, Ptr))
    ensures r.1.Null? <==> !grant || AddressLimit < h.brk + (Align(bytes) + Header) % SizeMod
    ensures r.1.Null? ==> r.0 == h
    ensures r.1.Addr? ==> r.0.brk == h.brk + (Align(bytes) + Header) % SizeMod
    ensures r.1.Addr? ==> r.1.at == h.brk && r.0.inUse == h.inUse && r.0.sink == h.sink
    ensures r.1.Addr? ==> h.brk <= r.0.brk <= AddressLimit
  {
    var request := (Align(bytes) + Header) % SizeMod;
    if !grant || AddressLimit < h.brk + request then
      (h, Null)
    else
      var chunk := Chunk(h.brk, (request - Header) % SizeMod);
      (h.(free := InsertOnFreeList(h.sink, h.free, chunk), brk := h.brk + request), Addr(h.brk))
  }

  // ---------------------------------------------------------------------
  // memalloc (lines 99-141)
  // ---------------------------------------------------------------------

  /** The first-fit walk of lines 103-133: the position of the first free
      chunk, in list order, whose size is at least `size`. */
  function FirstFit(free: seq<Chunk>, size: nat): (r: Option<nat>)
    ensures r.Some? ==> r.value < |free| && size <= free[r.value].size
    ensures r.Some? ==> forall j :: 0 <= j < r.value ==> free[j].size < size
    ensures r.None? ==> forall j :: 0 <= j < |free| ==> free[j].size < size
    decreases |free|
  {
    if free == [] then None
    else if size <= free[0].size then Some(0)
    else match FirstFit(free[1..], size)
      case None => None
      case Some(j) => Some(j + 1)
  }

  /** memalloc(size): align the request; on a fit either unlink the chunk
      (exact fit) or carve the request off its front and leave the
      remainder, sized with a size_t subtraction, in its list position
      (split); push the chunk onto the allocated list and return the address
      after its header. On a miss, grow the heap and return the grown chunk,
      which stays on the free list. */
  function Memalloc(h: Heap, request: SizeT, grant: bool): (r: (Heap, Ptr))
    ensures FirstFit(h.free, Align(request)).Some? ==> r.1.Addr? && r.0.brk == h.brk
    ensures FirstFit(h.free, Align(request)).None? ==>
              (r.1.Null? <==> !grant || AddressLimit < h.brk + (Align(request) + Header) % SizeMod)
    ensures r.1.Null? ==> r.0 == h
    ensures r.1.Addr? ==> r.1.at >= Header
  {
    var size := Align(request);
    match FirstFit(h.free, size)
    case Some(i) =>
      var t := h.free[i];
      (if t.size == size then TakeWhole(h, i) else Carve(h, i, size), Addr(t.addr + Header))
    case None =>
      AlignIdempotent(request);
      var grown := IncrBrk(h, size, grant);
      (grown.0, if grown.1.Null? then Null else Addr(grown.1.at + Header))
  }

  /** Exact fit (lines 112-113, 124-128): unlink position `i` and push it onto
      the allocated list. */
  function TakeWhole(h: Heap, i: nat): (r: Heap)
    requires i < |h.free|
    ensures multiset(r.free) + multiset{h.free[i]} == multiset(h.free)
    ensures |r.inUse| == |h.inUse| + 1 && r.inUse[0] == h.free[i] && r.inUse[1..] == h.inUse
    ensures r.sink == h.sink && r.brk == h.brk
  {
    RemoveBalance(h.free, i);
    h.(free := h.free[..i] + h.free[i + 1..], inUse := [h.free[i]] + h.inUse)
  }

  /** Split (lines 115-128): the first `size` bytes of position `i` become an
      allocated chunk; a remainder header written right after them, sized with
      a size_t subtraction, takes the old chunk's list position. */
  function Carve(h: Heap, i: nat, size: SizeT): (r: Heap)
    requires i < |h.free|
    ensures |r.free| == |h.free| && forall j :: 0 <= j < |h.free| && j != i ==> r.free[j] == h.free[j]
    ensures |r.inUse| == |h.inUse| + 1 && r.inUse[1..] == h.inUse
    ensures r.inUse[0].addr == h.free[i].addr && r.inUse[0].size == size
    ensures r.free[i].addr == End(r.inUse[0])
    ensures h.free[i].size % Header == 0 && size % Header == 0 && size < h.free[i].size ==>
              End(r.free[i]) == End(h.free[i])
    ensures r.sink == h.sink && r.brk == h.brk
  {
    var t := h.free[i];
    assert t.size % Header == 0 && size % Header == 0 && size < t.size ==> size + Header <= t.size by {
      if t.size % Header == 0 && size % Header == 0 && size < t.size {
        MultiplesApart(t.size, size);
      }
    }
    var rest := Chunk(t.addr + Header + size, (t.size - size - Header) % SizeMod);
    h.(free := h.free[..i] + [rest] + h.free[i + 1..], inUse := [Chunk(t.addr, size)] + h.inUse)
  }

  /** Removing position `i` takes exactly one copy of its element away. */
  lemma RemoveBalance(s: seq<Chunk>, i: nat)
    requires i < |s|
    ensures multiset(s[..i] + s[i + 1..]) + multiset{s[i]} == multiset(s)
  {
    assert s == s[..i] + [s[i]] + s[i + 1..];
    assert multiset(s) == multiset(s[..i]) + multiset{s[i]} + multiset(s[i + 1..]);
    assert multiset(s[..i] + s[i + 1..]) == multiset(s[..i]) + multiset(s[i + 1..]);
  }

  // ---------------------------------------------------------------------
  // free_mem (lines 143-162)
  // ---------------------------------------------------------------------

  /** The walk of lines 147-160: the position of the first allocated chunk
      whose header is at `a`. */
  function FindAllocated(inUse: seq<Chunk>, a: int): (r: Option<nat>)
    ensures r.Some? ==> r.value < |inUse| && inUse[r.value].addr == a
    ensures r.Some? ==> forall j :: 0 <= j < r.value ==> inUse[j].addr != a
    ensures r.None? ==> forall c :: c in inUse ==> c.addr != a
    decreases |inUse|
  {
    if inUse == [] then None
    else if inUse[0].addr == a then Some(0)
    else match FindAllocated(inUse[1..], a)
      case None => None
      case Some(j) => Some(j + 1)
  }

  /** free_mem(ptr): look up the header at `ptr - sizeof(mem_chunk)`; if
      found, unlink it and hand it to insert_on_free_list. The C function
      returns EXIT_SUCCESS converted to bool, which is false, on success and
      EXIT_FAILURE, true, when nothing matched. When the match is the head of
      the allocated list the code dereferences a NULL `prev`, so that case is
      excluded. */
  function FreeMem(h: Heap, ptr: nat): (r: (Heap, bool))
    requires |h.inUse| == 0 || h.inUse[0].addr + Header != ptr
    ensures r.1 <==> forall c :: c in h.inUse ==> c.addr + Header != ptr
    ensures r.1 ==> r.0 == h
    ensures r.0.sink == h.sink && r.0.brk == h.brk
  {
    match FindAllocated(h.inUse, ptr - Header)
    case None => (h, ExitFailure != 0)
    case Some(j) =>
      var c := h.inUse[j];
      var heap := h.(inUse := h.inUse[..j] + h.inUse[j + 1..],
                     free := InsertOnFreeList(h.sink, h.free, c));
      (heap, ExitSuccess != 0)
  }
}
