/** The allocator invariant `Valid` is kept by every operation, and what each
    operation does to the two lists, stated against the invariant.
 */
module Invariants {
  import opened Machine
  import opened Chunks
  import opened FreeList
  import opened Allocator

  // ---------------------------------------------------------------------
  // incr_brk
  // ---------------------------------------------------------------------

  /** Growing the heap appends a chunk of `align(bytes)` usable bytes at the
      old break, advances the break by that chunk's extent, and keeps the
      invariant, as long as `align(bytes) + sizeof(mem_chunk)` does not wrap;
      a refused sbrk changes nothing. */
  lemma IncrBrkPreservesValid(h: Heap, base: nat, bytes: SizeT, grant: bool)
    requires Valid(h, base)
    requires Align(bytes) + Header < SizeMod
    ensures Valid(IncrBrk(h, bytes, grant).0, base)
    ensures var r := IncrBrk(h, bytes, grant);
      r.1.Addr? ==>
        && r.0.free == h.free + [Chunk(h.brk, Align(bytes))]
        && r.0.brk == h.brk + Header + Align(bytes)
  {
    var c := Chunk(h.brk, Align(bytes));
    IncrBrkGrant(h, bytes, grant);
    if IncrBrk(h, bytes, grant).1.Addr? {
      forall f | f in h.free ensures End(f) <= c.addr {
        assert Placed(f, base, h.brk);
      }
      InsertAboveAll(h.sink, h.free, c);
      AppendKeepsValid(h, base, c);
    }
  }

  /** With no wrap in the request, a granted sbrk lays a chunk of exactly the
      rounded size at the old break. */
  lemma IncrBrkGrant(h: Heap, bytes: SizeT, grant: bool)
    requires Align(bytes) + Header < SizeMod
    ensures var r := IncrBrk(h, bytes, grant);
      var c := Chunk(h.brk, Align(bytes));
      r.1.Addr? ==> r.0 == h.(free := InsertOnFreeList(h.sink, h.free, c), brk := End(c))
  {
    var a := Align(bytes);
    assert (a + Header) % SizeMod == a + Header;
    assert (a + Header - Header) % SizeMod == a;
  }

  /** A chunk laid at the break and the break moved past it keep the
      invariant. */
  lemma AppendKeepsValid(h: Heap, base: nat, c: Chunk)
    requires Valid(h, base)
    requires c.addr == h.brk && c.size % Header == 0 && End(c) <= AddressLimit
    ensures Valid(h.(free := h.free + [c], brk := End(c)), base)
  {
    var r := h.(free := h.free + [c], brk := End(c));
    forall f | f in h.free ensures End(f) <= c.addr {
      assert Placed(f, base, h.brk);
    }
    SeparatedSnoc(h.free, c);
    TotalConcat(h.free, [c]);
    assert Total([c]) == Extent(c);
    forall f, u | f in r.free && u in r.inUse ensures Disjoint(f, u) {
      assert Placed(u, base, h.brk);
    }
  }

  // ---------------------------------------------------------------------
  // memalloc
  // ---------------------------------------------------------------------

  /** In an ordered list, the first fit in list order is the fitting chunk
      with the lowest address. */
  lemma FirstFitIsLowest(free: seq<Chunk>, size: nat, c: Chunk)
    requires Separated(free)
    requires c in free && size <= c.size
    requires forall d :: d in free && d.addr < c.addr ==> d.size < size
    ensures FirstFit(free, size).Some?
    ensures free[FirstFit(free, size).value] == c
  {
    var m :| 0 <= m < |free| && free[m] == c;
    var r := FirstFit(free, size);
    assert r.Some?;
  }

  /** Taking position `i` off the free list whole and pushing it onto the
      allocated list keeps the invariant. */
  lemma TakeWholeKeepsValid(h: Heap, base: nat, i: nat)
    requires Valid(h, base)
    requires i < |h.free|
    ensures Valid(TakeWhole(h, i), base)
  {
    var t := h.free[i];
    var r := TakeWhole(h, i);
    SeparatedRemove(h.free, i);
    assert t in h.free;
    assert t !in h.inUse;
    forall f, u | f in r.free && u in r.inUse ensures Disjoint(f, u) {
      if u == t {
        assert Disjoint(f, t);
      }
    }
    forall a, b | a in r.inUse && b in r.inUse && a != b ensures Disjoint(a, b) {
      if a == t {
        assert Disjoint(t, b);
      } else if b == t {
        assert Disjoint(t, a);
      }
    }
    assert multiset(r.inUse) == multiset{t} + multiset(h.inUse);
    TotalRemove(h.free, i);
    assert r.inUse[1..] == h.inUse;
  }

  /** The split branch: the remainder size `old - size - sizeof(mem_chunk)`
      never wraps, because both sizes are multiples of the header size and the
      old one is larger; the remainder ends where the old chunk ended. */
  lemma SplitRemainder(t: Chunk, size: nat)
    requires t.size % Header == 0 && size % Header == 0
    requires size < t.size
    ensures size + Header <= t.size
    ensures (t.size - size - Header) % SizeMod == t.size - size - Header
    ensures End(Chunk(t.addr + Header + size, t.size - size - Header)) == End(t)
  {
    MultiplesApart(t.size, size);
  }

  /** After a split, the carved chunk and the remainder both lie inside the
      chunk they came from, so neither overlaps anything else in the heap. */
  lemma CarveSeparates(h: Heap, base: nat, i: nat, size: SizeT)
    requires Valid(h, base)
    requires i < |h.free|
    requires size % Header == 0 && size < h.free[i].size
    ensures var r := Carve(h, i, size);
      && (forall f, u :: f in r.free && u in r.inUse ==> Disjoint(f, u))
      && (forall a, b :: a in r.inUse && b in r.inUse && a != b ==> Disjoint(a, b))
  {
    var t := h.free[i];
    assert t in h.free;
    SplitRemainder(t, size);
    var m := Chunk(t.addr, size);
    var rem := Chunk(t.addr + Header + size, t.size - size - Header);
    var r := Carve(h, i, size);
    assert r.free == h.free[..i] + [rem] + h.free[i + 1..];
    assert r.inUse == [m] + h.inUse;
    assert Inside(m, t) && Inside(rem, t);
    forall u | u in h.inUse ensures Disjoint(m, u) && Disjoint(rem, u) {
      InsideKeepsDisjoint(m, t, u);
      InsideKeepsDisjoint(rem, t, u);
    }
    SeparatedRemove(h.free, i);
    forall f | f in r.free ensures f == rem || (f in h.free && Disjoint(f, t)) {
      if f != rem {
        assert f in h.free[..i] + h.free[i + 1..];
      }
    }
    assert m !in h.inUse;
    forall f, u | f in r.free && u in r.inUse ensures Disjoint(f, u) {
      if u == m && f != rem {
        assert Disjoint(f, t);
        InsideKeepsDisjoint(m, t, f);
      }
    }
    forall a, b | a in r.inUse && b in r.inUse && a != b ensures Disjoint(a, b) {
      if a == m {
        assert Disjoint(m, b);
      } else if b == m {
        assert Disjoint(m, a);
      }
    }
  }

  /** After a split both lists still lie in the heap, the free list is still
      ordered, and the carved chunk is new to the allocated list. */
  lemma CarvePlaces(h: Heap, base: nat, i: nat, size: SizeT)
    requires Valid(h, base)
    requires i < |h.free|
    requires size % Header == 0 && size < h.free[i].size
    ensures var r := Carve(h, i, size);
      && Separated(r.free)
      && (forall c :: c in r.free ==> Placed(c, base, h.brk))
      && (forall c :: c in r.inUse ==> Placed(c, base, h.brk))
      && (forall a :: multiset(r.inUse)[a] <= 1)
  {
    var t := h.free[i];
    assert t in h.free;
    SplitRemainder(t, size);
    var m := Chunk(t.addr, size);
    var rem := Chunk(t.addr + Header + size, t.size - size - Header);
    var r := Carve(h, i, size);
    assert r.free == h.free[..i] + [rem] + h.free[i + 1..];
    assert r.inUse == [m] + h.inUse;
    SeparatedShrink(h.free, i, rem);
    assert m !in h.inUse;
    assert multiset(r.inUse) == multiset{m} + multiset(h.inUse);
  }

  /** After a split the two lists still cover exactly the bytes of the heap:
      the remainder and the carved chunk together cover the old chunk. */
  lemma CarveAccounts(h: Heap, base: nat, i: nat, size: SizeT)
    requires Valid(h, base)
    requires i < |h.free|
    requires size % Header == 0 && size < h.free[i].size
    ensures var r := Carve(h, i, size);
      Total(r.free) + Total(r.inUse) == h.brk - base
  {
    var t := h.free[i];
    assert t in h.free;
    SplitRemainder(t, size);
    var m := Chunk(t.addr, size);
    var rem := Chunk(t.addr + Header + size, t.size - size - Header);
    var r := Carve(h, i, size);
    assert r.free == h.free[..i] + [rem] + h.free[i + 1..];
    assert r.inUse == [m] + h.inUse;
    TotalReplace(h.free, i, rem);
    assert r.inUse[1..] == h.inUse;
  }

  /** Carving `size` bytes off the front of position `i`, leaving the rest in
      its place and pushing the front onto the allocated list, keeps the
      invariant. */
  lemma CarveKeepsValid(h: Heap, base: nat, i: nat, size: SizeT)
    requires Valid(h, base)
    requires i < |h.free|
    requires size % Header == 0 && size < h.free[i].size
    ensures Valid(Carve(h, i, size), base)
  {
    CarveSeparates(h, base, i, size);
    CarvePlaces(h, base, i, size);
    CarveAccounts(h, base, i, size);
  }

  /** The two fit branches of memalloc, by name. */
  lemma MemallocFits(h: Heap, n: SizeT, grant: bool, i: nat)
    requires FirstFit(h.free, Align(n)) == Some(i)
    ensures Memalloc(h, n, grant).1 == Addr(h.free[i].addr + Header)
    ensures h.free[i].size == Align(n) ==> Memalloc(h, n, grant).0 == TakeWhole(h, i)
    ensures h.free[i].size != Align(n) ==> Memalloc(h, n, grant).0 == Carve(h, i, Align(n))
  {
  }

  /** memalloc keeps the invariant. On the grow path this needs the rounded
      request plus a header to fit in size_t (see AsWritten for what happens
      when it does not). */
  lemma MemallocPreservesValid(h: Heap, base: nat, n: SizeT, grant: bool)
    requires Valid(h, base)
    requires FirstFit(h.free, Align(n)).Some? || Align(n) + Header < SizeMod
    ensures Valid(Memalloc(h, n, grant).0, base)
  {
    match FirstFit(h.free, Align(n))
    case Some(i) =>
      MemallocFits(h, n, grant, i);
      if h.free[i].size == Align(n) {
        TakeWholeKeepsValid(h, base, i);
      } else {
        assert h.free[i] in h.free;
        CarveKeepsValid(h, base, i, Align(n));
      }
    case None =>
      AlignIdempotent(n);
      IncrBrkPreservesValid(h, base, Align(n), grant);
  }

  /** Exact fit: the lowest-addressed free chunk of exactly the rounded size
      leaves the free list, goes to the front of the allocated list, and the
      caller gets the address after its header. */
  lemma MemallocExactFit(h: Heap, base: nat, n: SizeT, grant: bool, c: Chunk)
    requires Valid(h, base)
    requires c in h.free && c.size == Align(n)
    requires forall d :: d in h.free && d.addr < c.addr ==> d.size < Align(n)
    ensures var r := Memalloc(h, n, grant);
      && r.1 == Addr(c.addr + Header)
      && r.0.inUse == [c] + h.inUse
      && multiset(r.0.free) + multiset{c} == multiset(h.free)
      && r.0.brk == h.brk
  {
    FirstFitIsLowest(h.free, Align(n), c);
    var i := FirstFit(h.free, Align(n)).value;
    MemallocFits(h, n, grant, i);
    RemoveBalance(h.free, i);
  }

  /** Split: the lowest-addressed free chunk that is larger than the rounded
      size gives its front to the caller and keeps its list position for a
      remainder `old - size - sizeof(mem_chunk)` bytes long that starts right
      after the carved part and ends where the old chunk ended. */
  lemma MemallocSplit(h: Heap, base: nat, n: SizeT, grant: bool, c: Chunk)
    requires Valid(h, base)
    requires c in h.free && Align(n) < c.size
    requires forall d :: d in h.free && d.addr < c.addr ==> d.size < Align(n)
    ensures Align(n) + Header <= c.size
    ensures var r := Memalloc(h, n, grant);
      var rem := Chunk(c.addr + Header + Align(n), c.size - Align(n) - Header);
      && r.1 == Addr(c.addr + Header)
      && r.0.inUse == [Chunk(c.addr, Align(n))] + h.inUse
      && End(rem) == End(c)
      && |r.0.free| == |h.free|
      && (forall j :: 0 <= j < |h.free| ==> r.0.free[j] == if h.free[j] == c then rem else h.free[j])
      && r.0.brk == h.brk
  {
    FirstFitIsLowest(h.free, Align(n), c);
    var i := FirstFit(h.free, Align(n)).value;
    MemallocFits(h, n, grant, i);
    CarveShape(h, base, i, Align(n));
  }

  /** A split replaces the carved node by its remainder, which ends where the
      node ended, and touches no other free node. */
  lemma CarveShape(h: Heap, base: nat, i: nat, size: SizeT)
    requires Valid(h, base)
    requires i < |h.free|
    requires size % Header == 0 && size < h.free[i].size
    ensures size + Header <= h.free[i].size
    ensures var t := h.free[i];
      var rem := Chunk(t.addr + Header + size, t.size - size - Header);
      var r := Carve(h, i, size);
      && r.inUse == [Chunk(t.addr, size)] + h.inUse
      && End(rem) == End(t)
      && |r.free| == |h.free|
      && (forall j :: 0 <= j < |h.free| ==> r.free[j] == if h.free[j] == t then rem else h.free[j])
      && r.brk == h.brk
  {
    var t := h.free[i];
    assert Placed(t, base, h.brk) by {
      assert t in h.free;
    }
    SplitRemainder(t, size);
    var rem := Chunk(t.addr + Header + size, t.size - size - Header);
    assert Carve(h, i, size).free == h.free[..i] + [rem] + h.free[i + 1..];
    SeparatedIsAscending(h.free);
    ReplaceOnly(h.free, i, rem);
  }

  /** Replacing the node at `i` of an ascending list changes that node alone. */
  lemma ReplaceOnly(s: seq<Chunk>, i: nat, x: Chunk)
    requires Ascending(s) && i < |s|
    ensures var r := s[..i] + [x] + s[i + 1..];
      && |r| == |s|
      && forall j :: 0 <= j < |s| ==> r[j] == if s[j] == s[i] then x else s[j]
  {
    var r := s[..i] + [x] + s[i + 1..];
    forall j | 0 <= j < |s| ensures r[j] == if s[j] == s[i] then x else s[j] {
      if j < i {
        assert r[j] == s[j] && s[j].addr < s[i].addr;
      } else if j > i {
        assert r[j] == s[j] && s[i].addr < s[j].addr;
      }
    }
  }

  /** The grow path as written: on a miss the heap grows by one chunk of the
      rounded size, that chunk stays on the free list, the allocated list is
      untouched, and the caller still gets the address after its header. */
  lemma MemallocGrows(h: Heap, base: nat, n: SizeT, grant: bool)
    requires Valid(h, base)
    requires forall c :: c in h.free ==> c.size < Align(n)
    requires Align(n) + Header < SizeMod
    ensures var r := Memalloc(h, n, grant);
      r.1.Addr? ==>
        && r.1.at == h.brk + Header
        && r.0.free == h.free + [Chunk(h.brk, Align(n))]
        && r.0.inUse == h.inUse
        && r.0.brk == h.brk + Header + Align(n)
  {
    AlignIdempotent(n);
    IncrBrkPreservesValid(h, base, Align(n), grant);
  }

  // ---------------------------------------------------------------------
  // free_mem
  // ---------------------------------------------------------------------

  /** The chunk being released lies above the sentinel, overlaps no free
      chunk, and any node it runs into is inside the address space, so the
      insertion behaves like the ordered reference. */
  lemma ReleasedChunkFits(h: Heap, base: nat, c: Chunk)
    requires Valid(h, base)
    requires c in h.inUse
    ensures h.sink < c.addr
    ensures forall f :: f in h.free ==> Disjoint(f, c) && f.addr != c.addr
    ensures forall f :: f in h.free && f.addr == PointerEnd(c) ==> End(f) <= SizeMod && c.size + f.size + Header < SizeMod
    ensures InsertOnFreeList(h.sink, h.free, c) == InsertInOrder(h.free, c)
  {
    assert Placed(c, base, h.brk);
    PointerEndMatchesEnd(c);
    forall f | f in h.free ensures Disjoint(f, c) && f.addr != c.addr {
      assert Disjoint(f, c);
    }
    forall f | f in h.free && f.addr == PointerEnd(c)
      ensures End(f) <= SizeMod && c.size + f.size + Header < SizeMod
    {
      assert Placed(f, base, h.brk);
    }
    InsertMatchesReference(h.sink, h.free, c);
  }

  /** Unlinking position `j` of the allocated list removes exactly one copy
      of that chunk and leaves no other. */
  lemma UnlinkRemoves(s: seq<Chunk>, j: nat)
    requires j < |s|
    requires multiset(s)[s[j]] <= 1
    ensures multiset(s[..j] + s[j + 1..]) + multiset{s[j]} == multiset(s)
    ensures s[j] !in s[..j] + s[j + 1..]
    ensures forall c :: c in s[..j] + s[j + 1..] ==> c in s
  {
    RemoveBalance(s, j);
    forall c | c in s[..j] + s[j + 1..] ensures c in s {
      assert c in multiset(s[..j] + s[j + 1..]);
    }
  }

  /** Allocated chunks are identified by their header address. */
  lemma InUseByAddress(h: Heap, base: nat, a: Chunk, b: Chunk)
    requires Valid(h, base)
    requires a in h.inUse && b in h.inUse && a.addr == b.addr
    ensures a == b
  {
  }

  /** The released chunk merged with the free node it runs into lies in the
      heap with an aligned size and overlaps no other allocated chunk. */
  lemma MergedNodeFits(h: Heap, base: nat, c: Chunk, others: seq<Chunk>, s: Chunk)
    requires Valid(h, base)
    requires c in h.inUse
    requires forall u :: u in others ==> u in h.inUse && u != c
    requires s in h.free && PointerEnd(c) == s.addr
    ensures Placed(Merge(c, s), base, h.brk)
    ensures forall u :: u in others ==> Disjoint(Merge(c, s), u)
  {
    assert Placed(c, base, h.brk);
    PointerEndMatchesEnd(c);
    assert Placed(s, base, h.brk);
    MergeSpansBoth(c, s);
    forall u | u in others ensures Disjoint(Merge(c, s), u) {
      assert Disjoint(c, u) && Disjoint(s, u);
      MergeKeepsDisjoint(c, s, u);
    }
  }

  /** One node of the list after a released chunk `c` is inserted: an old
      free node, `c` itself, or `c` merged with the node it runs into. Each
      lies in the heap with an aligned size and overlaps no other allocated
      chunk. */
  lemma InsertedNodeFits(h: Heap, base: nat, c: Chunk, others: seq<Chunk>, g: Chunk)
    requires Valid(h, base)
    requires c in h.inUse
    requires forall u :: u in others ==> u in h.inUse && u != c
    requires g in h.free || g == c || exists s :: s in h.free && PointerEnd(c) == s.addr && g == Merge(c, s)
    ensures Placed(g, base, h.brk)
    ensures forall u :: u in others ==> Disjoint(g, u)
  {
    if g !in h.free && g != c {
      var s :| s in h.free && PointerEnd(c) == s.addr && g == Merge(c, s);
      MergedNodeFits(h, base, c, others, s);
    }
  }

  /** Placement, alignment and disjointness survive the insertion of a
      released chunk. */
  lemma InsertedNodesFit(h: Heap, base: nat, c: Chunk, others: seq<Chunk>)
    requires Valid(h, base)
    requires c in h.inUse
    requires forall u :: u in others ==> u in h.inUse && u != c
    ensures forall g :: g in InsertInOrder(h.free, c) ==> Placed(g, base, h.brk)
    ensures forall g, u :: g in InsertInOrder(h.free, c) && u in others ==> Disjoint(g, u)
  {
    InsertInOrderElements(h.free, c);
    forall g | g in InsertInOrder(h.free, c)
      ensures Placed(g, base, h.brk) && forall u :: u in others ==> Disjoint(g, u)
    {
      InsertedNodeFits(h, base, c, others, g);
    }
  }

  /** free_mem keeps the invariant. */
  lemma FreeMemPreservesValid(h: Heap, base: nat, ptr: nat)
    requires Valid(h, base)
    requires |h.inUse| == 0 || h.inUse[0].addr + Header != ptr
    ensures Valid(FreeMem(h, ptr).0, base)
  {
    match FindAllocated(h.inUse, ptr - Header)
    case None =>
    case Some(j) =>
      var c := h.inUse[j];
      var r := FreeMem(h, ptr).0;
      var rest := h.inUse[..j] + h.inUse[j + 1..];
      assert r.inUse == rest;
      UnlinkRemoves(h.inUse, j);
      ReleasedChunkFits(h, base, c);
      assert r.free == InsertInOrder(h.free, c);
      InsertInOrderSeparated(h.free, c);
      InsertedNodesFit(h, base, c, rest);
      InsertInOrderTotal(h.free, c);
      TotalRemove(h.inUse, j);
      forall a | true ensures multiset(rest)[a] <= 1 {
        assert multiset(rest)[a] <= multiset(h.inUse)[a];
      }
  }

  /** A successful release: free_mem reports EXIT_SUCCESS (false), the chunk
      leaves the allocated list while the others keep their order, the free
      list becomes the chunk inserted in address order, and the free list
      covers the chunk's bytes in addition to what it covered before. */
  lemma FreeMemReleases(h: Heap, base: nat, ptr: nat, c: Chunk)
    requires Valid(h, base)
    requires |h.inUse| == 0 || h.inUse[0].addr + Header != ptr
    requires c in h.inUse && c.addr + Header == ptr
    ensures var r := FreeMem(h, ptr);
      && !r.1
      && (forall j :: 0 <= j < |h.inUse| && h.inUse[j] == c ==> r.0.inUse == h.inUse[..j] + h.inUse[j + 1..])
      && multiset(r.0.inUse) + multiset{c} == multiset(h.inUse)
      && c !in r.0.inUse
      && r.0.free == InsertInOrder(h.free, c)
      && Total(r.0.free) == Total(h.free) + Extent(c)
  {
    var j := FindAllocated(h.inUse, ptr - Header).value;
    InUseByAddress(h, base, h.inUse[j], c);
    FreeMemFound(h, ptr, j);
    UnlinkRemoves(h.inUse, j);
    ReleasedChunkFits(h, base, c);
    InsertInOrderTotal(h.free, c);
    forall k | 0 <= k < |h.inUse| && h.inUse[k] == c ensures k == j {
      OnlyIndex(h.inUse, j, k);
    }
  }

  /** The found branch of free_mem, by name. */
  lemma FreeMemFound(h: Heap, ptr: nat, j: nat)
    requires |h.inUse| == 0 || h.inUse[0].addr + Header != ptr
    requires FindAllocated(h.inUse, ptr - Header) == Some(j)
    ensures FreeMem(h, ptr) ==
      (h.(inUse := h.inUse[..j] + h.inUse[j + 1..], free := InsertOnFreeList(h.sink, h.free, h.inUse[j])), false)
  {
  }

  /** An element that occurs once sits at one position only. */
  lemma OnlyIndex(s: seq<Chunk>, j: nat, k: nat)
    requires j < |s| && k < |s| && s[j] == s[k]
    requires multiset(s)[s[j]] <= 1
    ensures j == k
  {
    if j < k {
      TwoCopies(s, j, k);
    } else if k < j {
      TwoCopies(s, k, j);
    }
  }

  /** Equal elements at two positions make two copies in the multiset. */
  lemma TwoCopies(s: seq<Chunk>, lo: nat, hi: nat)
    requires lo < hi < |s| && s[lo] == s[hi]
    ensures multiset(s)[s[lo]] >= 2
  {
    assert s == s[..hi] + s[hi..];
    assert s[lo] in s[..hi];
    assert s[hi..][0] == s[hi];
    assert multiset(s) == multiset(s[..hi]) + multiset(s[hi..]);
  }

  /** Releasing the same address twice: the second call reports EXIT_FAILURE
      (true) and changes nothing. */
  lemma FreeTwiceFails(h: Heap, base: nat, ptr: nat)
    requires Valid(h, base)
    requires |h.inUse| == 0 || h.inUse[0].addr + Header != ptr
    requires !FreeMem(h, ptr).1
    ensures var h' := FreeMem(h, ptr).0;
      && (|h'.inUse| == 0 || h'.inUse[0].addr + Header != ptr)
      && FreeMem(h', ptr) == (h', true)
  {
    var j := FindAllocated(h.inUse, ptr - Header).value;
    var c := h.inUse[j];
    var h' := FreeMem(h, ptr).0;
    UnlinkRemoves(h.inUse, j);
    forall u | u in h'.inUse ensures u.addr + Header != ptr {
      if u.addr + Header == ptr {
        InUseByAddress(h, base, u, c);
      }
    }
  }
}
