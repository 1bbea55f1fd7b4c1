/** Behaviours of the allocator that follow from the code as written and that
    a caller relying on the usual malloc/free contract would not expect: the
    free list never merges backward, the grow path leaves the chunk it hands
    out on the free list, the most recent allocation served from the free
    list cannot be released, and a request near the top of size_t wraps the
    sbrk increment to zero.
 */
module AsWritten {
  import opened Machine
  import opened Chunks
  import opened FreeList
  import opened Allocator
  import opened Invariants

  /** Only the successor is ever absorbed (main.c:55-63): a chunk inserted
      right after a free node that ends where it starts stays a node of its
      own, next to that predecessor. */
  lemma NoBackwardMerge(sink: nat, free: seq<Chunk>, p: Chunk, q: Chunk)
    requires sink < p.addr
    requires forall c :: c in free ==> c.addr != p.addr && c.addr != PointerEnd(p)
    requires q in free && End(q) == p.addr
    ensures var r := InsertOnFreeList(sink, free, p);
      q in r && p in r && |r| == |free| + 1
  {
    InsertSplice(sink, free, p);
    var r := InsertOnFreeList(sink, free, p);
    assert multiset(r)[q] >= 1;
    assert multiset(r)[p] >= 1;
    assert |multiset(r)| == |multiset(free)| + 1;
  }

  /** The grow path of memalloc (main.c:135-140) hands out the chunk that
      incr_brk left on the free list: the very next request of the same
      rounded size finds it there as an exact fit and hands out the same
      address a second time. */
  lemma GrowHandsOutTwice(h: Heap, base: nat, n: SizeT, grant: bool, grant': bool)
    requires Valid(h, base)
    requires forall c :: c in h.free ==> c.size < Align(n)
    requires Align(n) + Header < SizeMod
    requires Memalloc(h, n, grant).1.Addr?
    ensures var first := Memalloc(h, n, grant);
      var second := Memalloc(first.0, n, grant');
      && second.1 == first.1
      && second.0.inUse == [Chunk(h.brk, Align(n))] + h.inUse
  {
    var first := Memalloc(h, n, grant);
    MemallocGrows(h, base, n, grant);
    MemallocPreservesValid(h, base, n, grant);
    var c := Chunk(h.brk, Align(n));
    assert c in first.0.free;
    forall d | d in first.0.free && d.addr < c.addr ensures d.size < Align(n) {
      if d != c {
        assert d in h.free;
      }
    }
    MemallocExactFit(first.0, base, n, grant', c);
  }

  /** The chunk the grow path hands out is never put on the allocated list,
      so free_mem does not find it and reports EXIT_FAILURE (true). */
  lemma GrownChunkNotReleasable(h: Heap, base: nat, n: SizeT, grant: bool)
    requires Valid(h, base)
    requires forall c :: c in h.free ==> c.size < Align(n)
    requires Align(n) + Header < SizeMod
    requires Memalloc(h, n, grant).1.Addr?
    ensures var r := Memalloc(h, n, grant);
      && (|r.0.inUse| == 0 || r.0.inUse[0].addr + Header != r.1.at)
      && FreeMem(r.0, r.1.at) == (r.0, true)
  {
    var r := Memalloc(h, n, grant);
    MemallocGrows(h, base, n, grant);
    forall u | u in r.0.inUse ensures u.addr + Header != r.1.at {
      assert Placed(u, base, h.brk);
    }
  }

  /** A fit makes the chunk the head of the allocated list (main.c:124-126),
      which is exactly the case where free_mem dereferences a NULL `prev`
      (main.c:153-154): the most recent allocation served from the free list
      lies outside free_mem's precondition. */
  lemma NewestIsHead(h: Heap, n: SizeT, grant: bool)
    requires FirstFit(h.free, Align(n)).Some?
    ensures var r := Memalloc(h, n, grant);
      && r.1.Addr?
      && |r.0.inUse| == |h.inUse| + 1
      && r.0.inUse[0].addr + Header == r.1.at
  {
    MemallocFits(h, n, grant, FirstFit(h.free, Align(n)).value);
  }

  /** The largest request that align does not wrap still breaks the heap:
      align gives 2^64 - 16, adding the header wraps the sbrk increment to
      zero (main.c:83-84), sbrk(0) succeeds without moving the break, and the
      chunk written at the break claims 2^64 - 16 bytes that lie beyond it
      (main.c:93-95). This is why MemallocPreservesValid excludes the wrap. */
  lemma RequestWrapBreaksHeap(h: Heap, base: nat)
    requires Valid(h, base)
    ensures var r := Memalloc(h, SizeMod - Header, true);
      && r.1 == Addr(h.brk + Header)
      && r.0.brk == h.brk
      && Chunk(h.brk, SizeMod - Header) in r.0.free
      && !Valid(r.0, base)
  {
    var n: SizeT := SizeMod - Header;
    var big := Chunk(h.brk, SizeMod - Header);
    assert Align(n) == SizeMod - Header;
    forall c | c in h.free ensures c.size < Align(n) && c.addr < big.addr {
      assert Placed(c, base, h.brk);
    }
    InsertAboveAll(h.sink, h.free, big);
    WrappedGrowth(h, n);
    var r := Memalloc(h, n, true);
    assert r.0.free == h.free + [big];
    assert big in r.0.free;
    assert !Placed(big, base, r.0.brk);
  }

  /** incr_brk on the wrapping request: the increment is 0, sbrk(0) returns
      the break unmoved, and the chunk laid there claims 2^64 - 16 bytes. */
  lemma WrappedGrowth(h: Heap, n: SizeT)
    requires h.brk <= AddressLimit && Align(n) == SizeMod - Header
    ensures var g := IncrBrk(h, Align(n), true);
      && g.1 == Addr(h.brk)
      && g.0 == h.(free := InsertOnFreeList(h.sink, h.free, Chunk(h.brk, SizeMod - Header)))
  {
    AlignIdempotent(n);
    assert (Align(n) + Header) % SizeMod == 0;
    assert (0 - Header) % SizeMod == SizeMod - Header;
  }
}
