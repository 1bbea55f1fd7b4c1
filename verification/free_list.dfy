/** The address-ordered free list (main.c:36-79).

    The list is held as the sequence of its non-sentinel nodes; the static
    sentinel `sink` (size zero, never merged, never handed out) is represented
    by its address alone. Position `k` of the sequence is "the node after the
    k-th node of the walk", where the walk's node 0 is the sentinel.
 */
module FreeList {
  import opened Machine
  import opened Chunks

  /** Strictly ascending addresses. */
  ghost predicate Ascending(s: seq<Chunk>) {
    forall i, j :: 0 <= i < j < |s| ==> s[i].addr < s[j].addr
  }

  /** Ascending and non-overlapping: each chunk ends before every later one
      starts. */
  ghost predicate Separated(s: seq<Chunk>) {
    forall i, j :: 0 <= i < j < |s| ==> End(s[i]) <= s[j].addr
  }

  /** Every node lies above the sentinel, as heap memory lies above .bss. */
  ghost predicate AboveSentinel(sink: nat, s: seq<Chunk>) {
    forall c :: c in s ==> sink < c.addr
  }

  ghost function Addrs(s: seq<Chunk>): set<nat> {
    set c | c in s :: c.addr
  }

  // ---------------------------------------------------------------------
  // insert_on_free_list as written: the walk of lines 40-53, then the
  // merge-or-splice of lines 55-64.
  // ---------------------------------------------------------------------

  /** Address of the walk's node before position `k`: the sentinel for k == 0. */
  function NodeBefore(sink: nat, free: seq<Chunk>, k: nat): nat
    requires k <= |free|
  {
    if k == 0 then sink else free[k - 1].addr
  }

  /** The loop test of lines 46-47 for `t` the node before position `k`:
      `ptr > t` and (`t->next` is NULL or `t->next > ptr`). */
  predicate IsSlot(sink: nat, free: seq<Chunk>, a: nat, k: nat)
    requires k <= |free|
  {
    NodeBefore(sink, free, k) < a && (k == |free| || a < free[k].addr)
  }

  /** The walk from position `k` on: the first position whose predecessor
      passes the loop test, or None once `t` has run off the end. */
  function SlotFrom(sink: nat, free: seq<Chunk>, a: nat, k: nat): (r: Option<nat>)
    requires k <= |free| + 1
    ensures r.Some? ==> k <= r.value <= |free| && IsSlot(sink, free, a, r.value)
    ensures r.Some? ==> forall k' :: k <= k' < r.value ==> !IsSlot(sink, free, a, k')
    ensures r.None? ==> forall k' :: k <= k' <= |free| ==> !IsSlot(sink, free, a, k')
    decreases |free| + 1 - k
  {
    if k == |free| + 1 then None
    else if IsSlot(sink, free, a, k) then Some(k)
    else SlotFrom(sink, free, a, k + 1)
  }

  /** insert_on_free_list(ptr): if the walk finds no slot the chunk is
      dropped; otherwise it is merged with the successor when the pointer
      arithmetic says they touch, and spliced in after `t` when not. */
  function InsertOnFreeList(sink: nat, free: seq<Chunk>, p: Chunk): (r: seq<Chunk>)
    ensures |r| == |free| || |r| == |free| + 1
    ensures forall c :: c in r ==> c in free || c == p || exists s :: s in free && c == Merge(p, s)
  {
    match SlotFrom(sink, free, p.addr, 0)
    case None => free
    case Some(k) =>
      if k < |free| && PointerEnd(p) == free[k].addr then
        free[..k] + [Merge(p, free[k])] + free[k + 1..]
      else
        free[..k] + [p] + free[k..]
  }

  // ---------------------------------------------------------------------
  // An independent reference: ordered insertion by structural recursion,
  // with the same forward-only merge.
  // ---------------------------------------------------------------------

  /** Insert `p` before the first node with a higher address, absorbing that
      node when `p` runs into it. */
  function InsertInOrder(free: seq<Chunk>, p: Chunk): seq<Chunk>
    decreases |free|
  {
    if free == [] then [p]
    else if p.addr < free[0].addr then
      if PointerEnd(p) == free[0].addr then [Merge(p, free[0])] + free[1..]
      else [p] + free
    else [free[0]] + InsertInOrder(free[1..], p)
  }

  /** The number of leading nodes whose address is below `a`. */
  function Below(free: seq<Chunk>, a: nat): (k: nat)
    ensures k <= |free|
    ensures forall i :: 0 <= i < k ==> free[i].addr < a
    ensures k < |free| ==> a <= free[k].addr
    decreases |free|
  {
    if free == [] || a <= free[0].addr then 0 else 1 + Below(free[1..], a)
  }

  lemma {:induction false} InsertInOrderSkip(free: seq<Chunk>, p: Chunk, k: nat)
    requires k <= |free|
    requires forall i :: 0 <= i < k ==> free[i].addr < p.addr
    ensures InsertInOrder(free, p) == free[..k] + InsertInOrder(free[k..], p)
    decreases k
  {
    if k == 0 {
      assert free[..0] == [] && free[0..] == free;
    } else {
      InsertInOrderSkip(free[1..], p, k - 1);
      assert free[1..][..k - 1] == free[1..k];
      assert free[1..][k - 1..] == free[k..];
      assert free[..k] == [free[0]] + free[1..k];
    }
  }

  /** In a list where `a` is above the sentinel and not yet present, the walk
      stops at the first node at or above `a`. */
  lemma SlotIsBelow(sink: nat, free: seq<Chunk>, a: nat)
    requires sink < a
    requires forall c :: c in free ==> c.addr != a
    ensures SlotFrom(sink, free, a, 0) == Some(Below(free, a))
  {
    var k := Below(free, a);
    if k < |free| {
      assert free[k] in free;
    }
    assert IsSlot(sink, free, a, k);
  }

  /** The C walk and the structural insertion agree whenever the chunk lies
      above the sentinel and its address is not already on the list; the list
      need not even be sorted. */
  lemma InsertMatchesReference(sink: nat, free: seq<Chunk>, p: Chunk)
    requires sink < p.addr
    requires forall c :: c in free ==> c.addr != p.addr
    ensures InsertOnFreeList(sink, free, p) == InsertInOrder(free, p)
  {
    var k := Below(free, p.addr);
    SlotIsBelow(sink, free, p.addr);
    InsertInOrderSkip(free, p, k);
    if k < |free| {
      var t := free[k..];
      assert t[0] == free[k] && t[1..] == free[k + 1..];
      InsertBeforeHead(t, p);
      if PointerEnd(p) == free[k].addr {
        assert InsertOnFreeList(sink, free, p) == free[..k] + [Merge(p, free[k])] + free[k + 1..];
      } else {
        assert InsertOnFreeList(sink, free, p) == free[..k] + [p] + t;
      }
    } else {
      assert free[..k] == free && free[k..] == [];
    }
  }

  /** Inserting below the head of a list touches only the front. */
  lemma InsertBeforeHead(t: seq<Chunk>, p: Chunk)
    requires t != [] && p.addr < t[0].addr
    ensures PointerEnd(p) == t[0].addr ==> InsertInOrder(t, p) == [Merge(p, t[0])] + t[1..]
    ensures PointerEnd(p) != t[0].addr ==> InsertInOrder(t, p) == [p] + t
  {
  }

  /** Every node of the result is an old node or sits at the inserted address. */
  lemma {:induction false} InsertInOrderAddresses(free: seq<Chunk>, p: Chunk)
    ensures forall c :: c in InsertInOrder(free, p) ==> c in free || c.addr == p.addr
    ensures exists c :: c in InsertInOrder(free, p) && c.addr == p.addr
    decreases |free|
  {
    if free != [] && !(p.addr < free[0].addr) {
      InsertInOrderAddresses(free[1..], p);
      var r := InsertInOrder(free[1..], p);
      assert InsertInOrder(free, p) == [free[0]] + r;
      var w :| w in r && w.addr == p.addr;
      assert w in InsertInOrder(free, p);
    } else if free != [] && PointerEnd(p) == free[0].addr {
      assert InsertInOrder(free, p)[0] == Merge(p, free[0]);
    } else {
      assert InsertInOrder(free, p)[0] == p;
    }
  }

  /** Every node of the result is an old node, the inserted chunk itself, or
      the inserted chunk merged with an old node it runs into. */
  lemma {:induction false} InsertInOrderElements(free: seq<Chunk>, p: Chunk)
    ensures forall c :: c in InsertInOrder(free, p) ==>
              c in free || c == p || exists s :: s in free && PointerEnd(p) == s.addr && c == Merge(p, s)
    decreases |free|
  {
    if free != [] && !(p.addr < free[0].addr) {
      InsertInOrderElements(free[1..], p);
      assert InsertInOrder(free, p) == [free[0]] + InsertInOrder(free[1..], p);
    } else if free != [] && PointerEnd(p) == free[0].addr {
      assert free[0] in free;
    }
  }

  /** A lower bound on every address survives the insertion of a chunk above it. */
  lemma InsertInOrderAbove(free: seq<Chunk>, p: Chunk, lo: nat)
    requires forall c :: c in free ==> lo < c.addr
    requires lo < p.addr
    ensures forall c :: c in InsertInOrder(free, p) ==> lo < c.addr
  {
    InsertInOrderAddresses(free, p);
  }

  /** In an ascending list every node after the first lies above it. */
  lemma AscendingHead(s: seq<Chunk>)
    requires Ascending(s) && s != []
    ensures forall c :: c in s[1..] ==> s[0].addr < c.addr
  {
    forall c | c in s[1..] ensures s[0].addr < c.addr {
      var m :| 0 <= m < |s[1..]| && s[1..][m] == c;
      assert s[m + 1] == c;
    }
  }

  /** A node below everything in an ascending list can be put in front. */
  lemma AscendingCons(x: Chunk, s: seq<Chunk>)
    requires Ascending(s)
    requires forall c :: c in s ==> x.addr < c.addr
    ensures Ascending([x] + s)
  {
    var r := [x] + s;
    forall i, j | 0 <= i < j < |r| ensures r[i].addr < r[j].addr {
      if i == 0 {
        assert r[j] == s[j - 1];
      } else {
        assert r[i] == s[i - 1] && r[j] == s[j - 1];
      }
    }
  }

  lemma {:induction false} InsertInOrderAscending(free: seq<Chunk>, p: Chunk)
    requires Ascending(free)
    requires forall c :: c in free ==> c.addr != p.addr
    ensures Ascending(InsertInOrder(free, p))
    decreases |free|
  {
    if free == [] {
    } else if p.addr < free[0].addr {
      AscendingHead(free);
      AscendingTail(free);
      if PointerEnd(p) == free[0].addr {
        AscendingCons(Merge(p, free[0]), free[1..]);
      } else {
        assert free == [free[0]] + free[1..];
        AscendingCons(p, free);
      }
    } else {
      assert free[0] in free;
      AscendingTail(free);
      InsertInOrderAscending(free[1..], p) by {
        forall c | c in free[1..] ensures c.addr != p.addr {
          assert c in free;
        }
      }
      AscendingHead(free);
      InsertInOrderAbove(free[1..], p, free[0].addr);
      AscendingCons(free[0], InsertInOrder(free[1..], p));
    }
  }

  /** Putting the same node in front of both sides keeps a multiset balance. */
  lemma ConsKeepsBalance(x: Chunk, r: seq<Chunk>, t: seq<Chunk>, out: Chunk, into: Chunk)
    requires multiset(r) + multiset{out} == multiset(t) + multiset{into}
    ensures multiset([x] + r) + multiset{out} == multiset([x] + t) + multiset{into}
  {
    assert multiset([x] + r) == multiset{x} + multiset(r);
    assert multiset([x] + t) == multiset{x} + multiset(t);
    calc {
      multiset([x] + r) + multiset{out};
      multiset{x} + (multiset(r) + multiset{out});
      multiset{x} + (multiset(t) + multiset{into});
      multiset([x] + t) + multiset{into};
    }
  }

  lemma AscendingTail(s: seq<Chunk>)
    requires s != [] && Ascending(s)
    ensures Ascending(s[1..])
  {
    forall i, j | 0 <= i < j < |s| - 1 ensures s[1..][i].addr < s[1..][j].addr {
      assert s[1..][i] == s[i + 1] && s[1..][j] == s[j + 1];
    }
  }

  lemma SeparatedCons(x: Chunk, t: seq<Chunk>)
    requires Separated(t)
    requires forall c :: c in t ==> End(x) <= c.addr
    ensures Separated([x] + t)
  {
    var s := [x] + t;
    forall i, j | 0 <= i < j < |s| ensures End(s[i]) <= s[j].addr {
      assert s[j] == t[j - 1];
      if i > 0 {
        assert s[i] == t[i - 1];
      }
    }
  }

  lemma SeparatedSnoc(t: seq<Chunk>, x: Chunk)
    requires Separated(t)
    requires forall c :: c in t ==> End(c) <= x.addr
    ensures Separated(t + [x])
  {
    var s := t + [x];
    forall i, j | 0 <= i < j < |s| ensures End(s[i]) <= s[j].addr {
      assert s[i] == t[i];
      if j < |t| {
        assert s[j] == t[j];
      }
    }
  }

  /** Unlinking a node keeps the rest separated, and every other node shares
      no byte with the one unlinked. */
  lemma SeparatedRemove(s: seq<Chunk>, i: nat)
    requires Separated(s) && i < |s|
    ensures Separated(s[..i] + s[i + 1..])
    ensures forall c :: c in s[..i] + s[i + 1..] ==> c in s && Disjoint(c, s[i])
  {
    var r := s[..i] + s[i + 1..];
    forall a, b | 0 <= a < b < |r| ensures End(r[a]) <= r[b].addr {
      var a' := if a < i then a else a + 1;
      var b' := if b < i then b else b + 1;
      assert r[a] == s[a'] && r[b] == s[b'];
    }
    RemovedOthersDisjoint(s, i);
  }

  /** The nodes left after removing one are old nodes clear of the removed one. */
  lemma RemovedOthersDisjoint(s: seq<Chunk>, i: nat)
    requires Separated(s) && i < |s|
    ensures forall c :: c in s[..i] + s[i + 1..] ==> c in s && Disjoint(c, s[i])
  {
    var r := s[..i] + s[i + 1..];
    forall c | c in r ensures c in s && Disjoint(c, s[i]) {
      var m :| 0 <= m < |r| && r[m] == c;
      var m' := if m < i then m else m + 1;
      assert r[m] == s[m'];
    }
  }

  /** Replacing a node by a chunk that lies inside it keeps the list
      separated. */
  lemma SeparatedShrink(s: seq<Chunk>, i: nat, c: Chunk)
    requires Separated(s) && i < |s|
    requires Inside(c, s[i])
    ensures Separated(s[..i] + [c] + s[i + 1..])
  {
    var r := s[..i] + [c] + s[i + 1..];
    forall a, b | 0 <= a < b < |r| ensures End(r[a]) <= r[b].addr {
      if a != i && b != i {
        assert r[a] == s[a] && r[b] == s[b];
      } else if a == i {
        assert r[b] == s[b];
      } else {
        assert r[a] == s[a];
      }
    }
  }

  lemma SeparatedIsAscending(s: seq<Chunk>)
    requires Separated(s)
    ensures Ascending(s)
  {
  }

  /** With the chunk disjoint from every node, ordered insertion keeps the
      nodes non-overlapping, provided a merged size stays within size_t. */
  lemma {:induction false} InsertInOrderSeparated(free: seq<Chunk>, p: Chunk)
    requires Separated(free)
    requires forall c :: c in free ==> Disjoint(c, p)
    requires p.size % Header == 0
    requires forall c :: c in free && c.addr == End(p) ==> End(c) <= SizeMod
    ensures Separated(InsertInOrder(free, p))
    decreases |free|
  {
    if free == [] {
    } else if p.addr < free[0].addr {
      assert free[0] in free;
      InsertBelowHeadSeparated(free, p);
    } else {
      assert free[0] in free;
      HeadBelowRest(free);
      var r' := InsertInOrder(free[1..], p);
      InsertInOrderSeparated(free[1..], p) by {
        forall c | c in free[1..] ensures c in free {
        }
      }
      InsertInOrderAddresses(free[1..], p);
      SeparatedCons(free[0], r');
    }
  }

  /** The head of a separated list ends before every later node starts. */
  lemma HeadBelowRest(s: seq<Chunk>)
    requires s != [] && Separated(s)
    ensures Separated(s[1..])
    ensures forall c :: c in s[1..] ==> End(s[0]) <= c.addr
  {
    forall i, j | 0 <= i < j < |s| - 1 ensures End(s[1..][i]) <= s[1..][j].addr {
      assert s[1..][i] == s[i + 1] && s[1..][j] == s[j + 1];
    }
    forall c | c in s[1..] ensures End(s[0]) <= c.addr {
      var m :| 0 <= m < |s[1..]| && s[1..][m] == c;
      assert s[m + 1] == c;
    }
  }

  /** A chunk below the head either absorbs the head or goes in front of it;
      both keep the list separated. */
  lemma InsertBelowHeadSeparated(free: seq<Chunk>, p: Chunk)
    requires free != [] && Separated(free)
    requires p.addr < free[0].addr && Disjoint(free[0], p)
    requires p.size % Header == 0
    requires free[0].addr == End(p) ==> End(free[0]) <= SizeMod
    ensures Separated(InsertInOrder(free, p))
  {
    PointerEndMatchesEnd(p);
    HeadBelowRest(free);
    assert End(p) <= free[0].addr;
    if End(p) == free[0].addr {
      MergeSpansBoth(p, free[0]);
      SeparatedCons(Merge(p, free[0]), free[1..]);
    } else {
      forall c | c in free ensures End(p) <= c.addr {
        var m :| 0 <= m < |free| && free[m] == c;
      }
      SeparatedCons(p, free);
    }
  }

  /** Inserting adds exactly the chunk's header and payload to the bytes the
      list covers, merged or not, when a merged size stays within size_t. */
  lemma {:induction false} InsertInOrderTotal(free: seq<Chunk>, p: Chunk)
    requires forall c :: c in free && c.addr == PointerEnd(p) ==> p.size + c.size + Header < SizeMod
    ensures Total(InsertInOrder(free, p)) == Total(free) + Extent(p)
    decreases |free|
  {
    if free == [] {
      assert Total([p]) == Extent(p) + Total([]);
    } else if p.addr < free[0].addr {
      if PointerEnd(p) == free[0].addr {
        assert free[0] in free;
        var r := [Merge(p, free[0])] + free[1..];
        assert r[1..] == free[1..];
      } else {
        assert ([p] + free)[1..] == free;
      }
    } else {
      InsertInOrderTotal(free[1..], p) by {
        forall c | c in free[1..] ensures c in free {
        }
      }
      assert ([free[0]] + InsertInOrder(free[1..], p))[1..] == InsertInOrder(free[1..], p);
    }
  }

  /** Without a node where the chunk's pointer arithmetic ends, no merge
      happens: the result holds the old nodes plus the chunk, nothing else. */
  lemma {:induction false} InsertInOrderSplices(free: seq<Chunk>, p: Chunk)
    requires forall c :: c in free ==> c.addr != PointerEnd(p)
    ensures multiset(InsertInOrder(free, p)) == multiset(free) + multiset{p}
    decreases |free|
  {
    if free == [] {
    } else if p.addr < free[0].addr {
      assert free[0] in free;
    } else {
      InsertInOrderSplices(free[1..], p) by {
        forall c | c in free[1..] ensures c in free {
        }
      }
      assert free == [free[0]] + free[1..];
    }
  }

  /** With `s` the node where the chunk ends, ordered and disjoint nodes make
      `s` the chunk's successor: the two become one node and every other node
      is kept. */
  lemma {:induction false} InsertInOrderMerges(free: seq<Chunk>, p: Chunk, s: Chunk)
    requires Ascending(free)
    requires forall c :: c in free ==> Disjoint(c, p)
    requires p.size % Header == 0
    requires s in free && s.addr == End(p)
    ensures multiset(InsertInOrder(free, p)) + multiset{s} == multiset(free) + multiset{Merge(p, s)}
    ensures |InsertInOrder(free, p)| == |free|
    decreases |free|
  {
    if free[0] == s {
      MergeAtHead(free, p);
    } else {
      MergeLater(free, p, s);
      InsertInOrderMerges(free[1..], p, s);
      ConsKeepsBalance(free[0], InsertInOrder(free[1..], p), free[1..], s, Merge(p, s));
      assert free == [free[0]] + free[1..];
    }
  }

  /** A chunk that ends exactly where the first node begins absorbs it. */
  lemma MergeAtHead(free: seq<Chunk>, p: Chunk)
    requires free != [] && free[0].addr == End(p) && p.size % Header == 0
    ensures multiset(InsertInOrder(free, p)) + multiset{free[0]} == multiset(free) + multiset{Merge(p, free[0])}
    ensures |InsertInOrder(free, p)| == |free|
  {
    PointerEndMatchesEnd(p);
    assert InsertInOrder(free, p) == [Merge(p, free[0])] + free[1..];
    assert free == [free[0]] + free[1..];
  }

  /** When the successor is not the first node, the first node lies below the
      chunk, so the insertion passes it by and the tail meets the same
      conditions. */
  lemma MergeLater(free: seq<Chunk>, p: Chunk, s: Chunk)
    requires Ascending(free)
    requires forall c :: c in free ==> Disjoint(c, p)
    requires s in free && s.addr == End(p) && free[0] != s
    ensures Ascending(free[1..]) && s in free[1..]
    ensures forall c :: c in free[1..] ==> Disjoint(c, p)
    ensures InsertInOrder(free, p) == [free[0]] + InsertInOrder(free[1..], p)
  {
    var m :| 0 <= m < |free| && free[m] == s;
    assert free[0].addr < s.addr;
    assert free[0] in free;
    assert free[1..][m - 1] == s;
    AscendingTail(free);
    forall c | c in free[1..] ensures Disjoint(c, p) {
      assert c in free;
    }
  }

  // ---------------------------------------------------------------------
  // Properties of insert_on_free_list itself.
  // ---------------------------------------------------------------------

  /** A chunk above the sentinel whose address is not yet on the list leaves
      the nodes in strictly ascending order, still above the sentinel, with
      the chunk's address now present. */
  lemma InsertKeepsAscending(sink: nat, free: seq<Chunk>, p: Chunk)
    requires AboveSentinel(sink, free) && Ascending(free)
    requires sink < p.addr
    requires forall c :: c in free ==> c.addr != p.addr
    ensures Ascending(InsertOnFreeList(sink, free, p))
    ensures AboveSentinel(sink, InsertOnFreeList(sink, free, p))
    ensures Addrs(InsertOnFreeList(sink, free, p)) <= Addrs(free) + {p.addr}
    ensures p.addr in Addrs(InsertOnFreeList(sink, free, p))
  {
    InsertMatchesReference(sink, free, p);
    InsertInOrderAscending(free, p);
    InsertInOrderAddresses(free, p);
    var r := InsertInOrder(free, p);
    forall a | a in Addrs(r) ensures a in Addrs(free) + {p.addr} {
      var c :| c in r && c.addr == a;
      if c in free {
        assert c.addr in Addrs(free);
      }
    }
    var w :| w in r && w.addr == p.addr;
    assert w.addr in Addrs(r);
  }

  /** In an ascending list a node is identified by its address. */
  lemma AscendingByAddress(s: seq<Chunk>, a: Chunk, b: Chunk)
    requires Ascending(s)
    requires a in s && b in s && a.addr == b.addr
    ensures a == b
  {
    var i :| 0 <= i < |s| && s[i] == a;
    var j :| 0 <= j < |s| && s[j] == b;
    assert i == j;
  }

  /** Forward merge: when the chunk ends exactly where a node begins, that
      node is unlinked and absorbed, every other node is kept, and the bytes
      the list covers grow by exactly the chunk's header and payload. */
  lemma InsertForwardMerge(sink: nat, free: seq<Chunk>, p: Chunk, s: Chunk)
    requires Ascending(free)
    requires forall c :: c in free ==> Disjoint(c, p)
    requires sink < p.addr && p.size % Header == 0
    requires s in free && s.addr == End(p) && End(s) <= SizeMod
    ensures Merge(p, s).size == p.size + s.size + Header
    ensures multiset(InsertOnFreeList(sink, free, p)) + multiset{s} == multiset(free) + multiset{Merge(p, s)}
    ensures |InsertOnFreeList(sink, free, p)| == |free|
    ensures Total(InsertOnFreeList(sink, free, p)) == Total(free) + Extent(p)
  {
    MergeSpansBoth(p, s);
    PointerEndMatchesEnd(p);
    InsertMatchesReference(sink, free, p);
    InsertInOrderMerges(free, p, s);
    forall c | c in free && c.addr == PointerEnd(p) ensures p.size + c.size + Header < SizeMod {
      AscendingByAddress(free, c, s);
    }
    InsertInOrderTotal(free, p);
  }

  /** Without adjacency the chunk is spliced in after the last node below it:
      the nodes before and after it keep their sizes and their order. */
  lemma InsertSplice(sink: nat, free: seq<Chunk>, p: Chunk)
    requires sink < p.addr
    requires forall c :: c in free ==> c.addr != p.addr
    requires forall c :: c in free ==> c.addr != PointerEnd(p)
    ensures var k := Below(free, p.addr);
      InsertOnFreeList(sink, free, p) == free[..k] + [p] + free[k..]
    ensures multiset(InsertOnFreeList(sink, free, p)) == multiset(free) + multiset{p}
    ensures Total(InsertOnFreeList(sink, free, p)) == Total(free) + Extent(p)
  {
    var k := Below(free, p.addr);
    InsertMatchesReference(sink, free, p);
    InsertInOrderSkip(free, p, k);
    if k < |free| {
      var t := free[k..];
      assert t[0] == free[k] && free[k] in free;
      assert p.addr < t[0].addr && PointerEnd(p) != t[0].addr;
      assert InsertInOrder(t, p) == [p] + t;
    } else {
      assert free[k..] == [];
      assert InsertInOrder(free[k..], p) == [p];
    }
    InsertInOrderSplices(free, p);
    InsertInOrderTotal(free, p);
  }

  /** A chunk above every node is appended, as the grown chunk of incr_brk is. */
  lemma InsertAboveAll(sink: nat, free: seq<Chunk>, p: Chunk)
    requires sink < p.addr
    requires forall c :: c in free ==> c.addr < p.addr
    ensures InsertOnFreeList(sink, free, p) == free + [p]
  {
    InsertMatchesReference(sink, free, p);
    InsertInOrderSkip(free, p, |free|);
    assert free[..|free|] == free && free[|free|..] == [];
  }

  /** A chunk at or below the sentinel is never placed: the walk finds no
      slot and the list is returned unchanged. */
  lemma InsertIgnoresBelowSentinel(sink: nat, free: seq<Chunk>, p: Chunk)
    requires AboveSentinel(sink, free)
    requires p.addr <= sink
    ensures InsertOnFreeList(sink, free, p) == free
  {
  }

  /** A chunk whose address is already on an ordered list is dropped: the
      walk finds no slot and the list is returned unchanged. */
  lemma InsertIgnoresPresent(sink: nat, free: seq<Chunk>, p: Chunk)
    requires Ascending(free)
    requires exists c :: c in free && c.addr == p.addr
    ensures InsertOnFreeList(sink, free, p) == free
  {
    var c :| c in free && c.addr == p.addr;
    var m :| 0 <= m < |free| && free[m] == c;
  }

  // ---------------------------------------------------------------------
  // get_free_list (lines 70-79): counts the walk's nodes into a size_t
  // that starts at -1, so the sentinel cancels the initial -1.
  // ---------------------------------------------------------------------

  /** The number of free nodes after the sentinel, as a size_t. */
  method GetFreeList(free: seq<Chunk>) returns (count: SizeT)
    ensures count == |free| % SizeMod
  {
    count := SizeMax;
    var visited := 0;
    while visited < |free| + 1
      invariant visited <= |free| + 1
      invariant count == (SizeMax + visited) % SizeMod
    {
      count := (count + 1) % SizeMod;
      visited := visited + 1;
    }
  }
}
