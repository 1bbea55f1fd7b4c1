/** A mem_chunk header (main.c:21-24), keyed by its address instead of living
    in raw memory. The `next` field is not a field here: list membership and
    order are given by the sequences that hold the chunks.
 */
module Chunks {
  import opened Machine

  /** A header at byte address `addr` followed by `size` usable bytes. */
  datatype Chunk = Chunk(addr: nat, size: SizeT)

  /** Bytes a chunk covers, header included. */
  function Extent(c: Chunk): nat {
    Header + c.size
  }

  /** The first byte past the chunk's usable memory. */
  function End(c: Chunk): nat {
    c.addr + Extent(c)
  }

  /** Where the merge test of insert_on_free_list looks for the successor:
      `ptr + aligned_size + 1` with `aligned_size = size / ALIGN`, counted in
      units of mem_chunk (main.c:43, 56). */
  function PointerEnd(c: Chunk): nat {
    c.addr + Header * (c.size / AlignUnit + 1)
  }

  /** The pointer arithmetic truncates the size to a multiple of ALIGN, so it
      reaches the true end exactly when the size is such a multiple. */
  lemma PointerEndMatchesEnd(c: Chunk)
    ensures PointerEnd(c) <= End(c)
    ensures PointerEnd(c) == End(c) <==> c.size % AlignUnit == 0
  {
    assert c.size == AlignUnit * (c.size / AlignUnit) + c.size % AlignUnit;
  }

  /** The header that absorbs its successor: `ptr->size += t->next->size +
      sizeof(mem_chunk)`, a size_t addition (main.c:57). */
  function Merge(p: Chunk, s: Chunk): Chunk {
    Chunk(p.addr, (p.size + s.size + Header) % SizeMod)
  }

  /** When the successor starts where `p` ends and lies within the 64-bit
      address space, the merged chunk spans both, and no byte is gained or
      lost. */
  lemma MergeSpansBoth(p: Chunk, s: Chunk)
    requires End(p) == s.addr
    requires End(s) <= SizeMod
    ensures Merge(p, s).addr == p.addr
    ensures End(Merge(p, s)) == End(s)
    ensures Extent(Merge(p, s)) == Extent(p) + Extent(s)
  {
  }

  /** Two chunks share no byte, headers included. */
  predicate Disjoint(a: Chunk, b: Chunk) {
    End(a) <= b.addr || End(b) <= a.addr
  }

  /** `c` lies within the bytes of `outer`. */
  predicate Inside(c: Chunk, outer: Chunk) {
    outer.addr <= c.addr && End(c) <= End(outer)
  }

  /** A chunk that shares no byte with either of two adjacent chunks shares
      none with their merge. */
  lemma MergeKeepsDisjoint(p: Chunk, s: Chunk, x: Chunk)
    requires End(p) == s.addr
    requires End(s) <= SizeMod
    requires Disjoint(p, x) && Disjoint(s, x)
    ensures Disjoint(Merge(p, s), x)
  {
    MergeSpansBoth(p, s);
  }

  /** A chunk inside another shares no byte with what the outer one avoids. */
  lemma InsideKeepsDisjoint(c: Chunk, outer: Chunk, x: Chunk)
    requires Inside(c, outer)
    requires Disjoint(outer, x)
    ensures Disjoint(c, x)
  {
  }

  /** Bytes covered by a list of chunks, headers included. */
  function Total(s: seq<Chunk>): nat
    decreases |s|
  {
    if s == [] then 0 else Extent(s[0]) + Total(s[1..])
  }

  lemma {:induction false} TotalConcat(a: seq<Chunk>, b: seq<Chunk>)
    ensures Total(a + b) == Total(a) + Total(b)
    decreases |a|
  {
    if a != [] {
      assert (a + b)[1..] == a[1..] + b;
      TotalConcat(a[1..], b);
    } else {
      assert a + b == b;
    }
  }

  /** A chunk in front adds its extent to the total. */
  lemma TotalCons(c: Chunk, s: seq<Chunk>)
    ensures Total([c] + s) == Extent(c) + Total(s)
  {
    assert ([c] + s)[1..] == s;
  }

  /** Replacing the element at `i` by `c` changes the total by the difference
      of their extents. */
  lemma TotalReplace(s: seq<Chunk>, i: nat, c: Chunk)
    requires i < |s|
    ensures Total(s[..i] + [c] + s[i + 1..]) + Extent(s[i]) == Total(s) + Extent(c)
  {
    var post := s[i + 1..];
    assert s[..i] + [c] + post == s[..i] + ([c] + post);
    TotalConcat(s[..i], [c] + post);
    TotalCons(c, post);
    TotalRemove(s, i);
    TotalConcat(s[..i], post);
  }

  /** Removing the element at `i` takes exactly its extent off the total. */
  lemma TotalRemove(s: seq<Chunk>, i: nat)
    requires i < |s|
    ensures Total(s[..i] + s[i + 1..]) + Extent(s[i]) == Total(s)
  {
    assert s[..i] + s[i..] == s;
    assert s[i..][0] == s[i] && s[i..][1..] == s[i + 1..];
    TotalConcat(s[..i], s[i..]);
    TotalConcat(s[..i], s[i + 1..]);
  }
}
