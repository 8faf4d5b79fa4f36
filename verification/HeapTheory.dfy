/**
 What the heap's layout means: the blocks are determined by the live allocations, and the steps of
 alloc and free change exactly the allocation they are about.
 */
module HeapTheory {
  import opened HeapMemory
  import opened HeapLayout
  import opened HeapSteps

  /** A live allocation: its payload size and what its owner has stored there. */
  datatype Allocation = Allocation(size: nat, data: Memory)

  function Live(B: Blocks): map<int, Allocation> {
    map h | h in B && B[h].data.Some? :: Allocation(B[h].size, B[h].data.value)
  }

  /** Every word inside a payload, but for that of h, is in mem' as it was in mem. */
  ghost predicate PayloadsKept(mem: Memory, B: Blocks, mem': Memory, h: int) {
    forall k, q | k in Live(B) && k != h && k + HEADER <= q && q + 8 <= k + HEADER + Live(B)[k].size ::
      (q in mem' <==> q in mem) && (q in mem ==> mem'[q] == mem[q])
  }

  /** Allocations that stay live with the same contents have not been written to. */
  lemma KeepsPayloads(mem: Memory, B: Blocks, mem': Memory, B': Blocks, h: int)
    requires Holds(mem, B) && Holds(mem', B')
    requires forall k | k in Live(B) && k != h :: k in Live(B') && Live(B')[k] == Live(B)[k]
    ensures PayloadsKept(mem, B, mem', h)
  {
    hide Separate;
    forall k, q | k in Live(B) && k != h && k + HEADER <= q && q + 8 <= k + HEADER + Live(B)[k].size
      ensures (q in mem' <==> q in mem) && (q in mem ==> mem'[q] == mem[q])
    {
      SameWord(mem, mem', k, B[k], B'[k], q);
    }
  }

  lemma SameWord(mem: Memory, mem': Memory, k: int, b: Block, b': Block, q: int)
    requires BlockOk(mem, k, b) && BlockOk(mem', k, b') && b.size == b'.size && b.data == b'.data && b.data.Some?
    requires k + HEADER <= q && q + 8 <= k + HEADER + b.size
    ensures (q in mem' <==> q in mem) && (q in mem ==> mem'[q] == mem[q])
  {
    var lo, hi := k + HEADER, End(k, b);
    assert q in mem <==> q in Contents(mem, lo, hi);
    assert q in mem' <==> q in Contents(mem', lo, hi);
  }

  // ----- effect of the steps on the live allocations

  lemma MergeLive(B: Blocks, h: int)
    requires h in B && End(h, B[h]) in B && B[h].data.None? && B[End(h, B[h])].data.None?
    ensures Live(Merged(B, h)) == Live(B)
  {
  }

  lemma SplitLive(B: Blocks, h: int, size: nat)
    requires h in B && B[h].data.None? && size + HEADER <= B[h].size && h + HEADER + size !in B
    ensures Live(SplitAt(B, h, size)) == Live(B)
  {
  }

  lemma TakeLive(B: Blocks, chain: seq<int>, i: nat, data: Memory)
    requires Ascending(chain) && Kinds(B) && i < |chain| && chain[i] in B && B[chain[i]].isFree
    requires i > 0 ==> chain[i - 1] in B && B[chain[i - 1]].isFree
    ensures Live(Taken(B, chain, i, data)) == Live(B)[chain[i] := Allocation(B[chain[i]].size, data)]
  {
    hide Taken;
    TakenBlocks(B, chain, i, data);
    var h, B' := chain[i], Taken(B, chain, i, data);
    forall k | k in B && k != h
      ensures B'[k].data == B[k].data && B'[k].size == B[k].size
    {
    }
    assert h in Live(B') && Live(B')[h] == Allocation(B[h].size, data);
  }

  lemma PutLive(B: Blocks, chain: seq<int>, i: nat, h: int)
    requires BelongsAt(chain, i, h) && Kinds(B) && h in B
    requires i > 0 ==> chain[i - 1] in B && B[chain[i - 1]].isFree
    ensures Live(Put(B, chain, i, h)) == Live(B) - {h}
  {
    hide Put;
    PutBlocks(B, chain, i, h);
    var B' := Put(B, chain, i, h);
    forall k | k in B && k != h
      ensures B'[k].data == B[k].data && B'[k].size == B[k].size
    {
    }
    assert h in B' && h !in Live(B');
  }

  // ----- the layout is a function of the live allocations

  /** Same extent and same kind. */
  predicate SameCell(B: Blocks, B': Blocks, h: int) {
    h in B && h in B' && B[h].size == B'[h].size && B[h].isFree == B'[h].isFree
  }

  /** Where two heaps with the same live allocations both have a block, it is the same block. */
  lemma SameBlock(base: int, end: int, B: Blocks, B': Blocks, h: int)
    requires Tiled(base, end, B) && Kinds(B) && Coalesced(B)
    requires Tiled(base, end, B') && Kinds(B') && Coalesced(B')
    requires Live(B).Keys == Live(B').Keys && (forall k | k in Live(B) :: Live(B)[k].size == Live(B')[k].size)
    requires h in B && h in B'
    ensures SameCell(B, B', h)
  {
    assert h in Live(B) <==> h in Live(B');
    if B[h].isFree {
      assert Followed(end, B, h) && Followed(end, B', h) && Apart(B, h) && Apart(B', h);
      InRegion(base, end, B, h);
      InRegion(base, end, B', h);
      var n, n' := End(h, B[h]), End(h, B'[h]);
      assert n in B ==> n in Live(B) && n in B';
      assert n' in B' ==> n' in Live(B') && n' in B;
    }
  }

  /** Canonicity, one direction: every block of one heap is a block of the other. */
  lemma {:induction false} BlocksIncluded(base: int, end: int, B: Blocks, B': Blocks, h: int)
    requires Tiled(base, end, B) && Kinds(B) && Coalesced(B)
    requires Tiled(base, end, B') && Kinds(B') && Coalesced(B')
    requires Live(B).Keys == Live(B').Keys && (forall k | k in Live(B) :: Live(B)[k].size == Live(B')[k].size)
    requires h in B
    ensures SameCell(B, B', h)
    decreases h - base
  {
    if h != base {
      var p := LeftNeighbour(base, end, B, h, base);
      BlocksIncluded(base, end, B, B', p);
      InRegion(base, end, B, h);
      assert Followed(end, B', p);
    }
    SameBlock(base, end, B, B', h);
  }

  /** Canonicity: addresses, sizes and kinds of all blocks follow from the live allocations alone. */
  lemma LayoutCanonical(base: int, end: int, B: Blocks, B': Blocks)
    requires Tiled(base, end, B) && Kinds(B) && Coalesced(B)
    requires Tiled(base, end, B') && Kinds(B') && Coalesced(B')
    requires Live(B).Keys == Live(B').Keys && (forall k | k in Live(B) :: Live(B)[k].size == Live(B')[k].size)
    ensures forall h | h in B || h in B' :: SameCell(B, B', h)
  {
    forall h | h in B || h in B'
      ensures SameCell(B, B', h)
    {
      if h in B {
        BlocksIncluded(base, end, B, B', h);
      } else {
        BlocksIncluded(base, end, B', B, h);
      }
    }
  }

  /** With nothing live, the region is one free block. */
  lemma AllFreed(base: int, end: int, B: Blocks)
    requires Tiled(base, end, B) && Kinds(B) && Coalesced(B) && Live(B) == map[]
    ensures B.Keys == {base} && B[base].isFree && End(base, B[base]) == end
  {
    assert base !in Live(B);
    assert Followed(end, B, base) && Apart(B, base);
    var n := End(base, B[base]);
    assert n in B ==> n in Live(B);
    forall h | h in B
      ensures h == base
    {
      InRegion(base, end, B, h);
    }
  }

  // ----- no two neighbours are free after a release

  /** All blocks but the ones that end where h begins, and h itself if `alsoH`, are apart from the next one. */
  ghost predicate ApartBut(B: Blocks, h: int, alsoH: bool) {
    forall k {:trigger Apart(B, k)} | k in B :: End(k, B[k]) == h || (alsoH && k == h) || Apart(B, k)
  }

  lemma PutApart(B: Blocks, chain: seq<int>, i: nat, h: int)
    requires BelongsAt(chain, i, h) && h in B && (i > 0 ==> chain[i - 1] in B && B[chain[i - 1]].isFree)
    requires Kinds(B) && Coalesced(B)
    ensures ApartBut(Put(B, chain, i, h), h, true)
  {
    hide Put, Kinds;
    PutBlocks(B, chain, i, h);
    var B' := Put(B, chain, i, h);
    forall k | k in B'
      ensures End(k, B'[k]) == h || k == h || Apart(B', k)
    {
      assert Apart(B, k);
    }
  }

  lemma MergeBackApart(base: int, end: int, B: Blocks, h: int)
    requires Tiled(base, end, B) && h in B && ApartBut(B, h, true)
    ensures End(h, B[h]) in B && B[End(h, B[h])].isFree ==> ApartBut(Merged(B, h), h, false)
    ensures !(End(h, B[h]) in B && B[End(h, B[h])].isFree) ==> ApartBut(B, h, false)
  {
    var f := End(h, B[h]);
    if f in B && B[f].isFree {
      MergeSeparate(base, B, h);
      var B' := Merged(B, h);
      forall k | k in B'
        ensures End(k, B'[k]) == h || Apart(B', k)
      {
        if k == h { assert Apart(B, f); } else { assert Apart(B, k) || End(k, B[k]) == h; EndsDiffer(base, B, h, k); }
      }
    }
  }

  lemma MergeFrontApart(base: int, end: int, B: Blocks, h: int, p: int)
    requires Tiled(base, end, B) && h in B && p in B && End(p, B[p]) == h && B[h].isFree && ApartBut(B, h, false)
    ensures Coalesced(Merged(B, p))
  {
    var B' := Merged(B, p);
    forall k | k in B'
      ensures Apart(B', k)
    {
      if k == p { assert Apart(B, h); } else { EndsDiffer(base, B, p, k); assert Apart(B, k); }
    }
  }

  lemma NoFrontApart(base: int, end: int, B: Blocks, h: int)
    requires Flagged(base, B) && h in B && !B[h].prevFree && ApartBut(B, h, false)
    ensures Coalesced(B)
  {
    forall k | k in B
      ensures Apart(B, k)
    {
      assert FlagOk(B, k);
    }
  }

  // ----- no two neighbours are free after an allocation

  ghost predicate ApartExcept(B: Blocks, h: int) {
    forall k {:trigger Apart(B, k)} | k in B :: k == h || Apart(B, k)
  }

  lemma SplitApart(base: int, end: int, B: Blocks, h: int, size: nat)
    requires Tiled(base, end, B) && Coalesced(B) && h in B && B[h].isFree
    requires size >= 16 && size + HEADER + 16 <= B[h].size
    ensures ApartExcept(SplitAt(B, h, size), h)
  {
    SplitSeparate(base, B, h, size);
    var n := h + HEADER + size;
    var B' := SplitAt(B, h, size);
    forall k | k in B'
      ensures k == h || Apart(B', k)
    {
      if k == n {
        assert Apart(B, h) && End(n, B'[n]) == End(h, B[h]);
      } else {
        assert Apart(B, k) && (k != h ==> End(k, B[k]) != n);
      }
    }
  }

  lemma TakeApart(B: Blocks, chain: seq<int>, i: nat, data: Memory)
    requires Ascending(chain) && Kinds(B) && i < |chain| && chain[i] in B && B[chain[i]].isFree
    requires i > 0 ==> chain[i - 1] in B && B[chain[i - 1]].isFree
    requires ApartExcept(B, chain[i])
    ensures Coalesced(Taken(B, chain, i, data))
  {
    hide Taken, Kinds;
    TakenBlocks(B, chain, i, data);
    var B' := Taken(B, chain, i, data);
    forall k | k in B'
      ensures Apart(B', k)
    {
      assert Apart(B, k) || k == chain[i];
    }
  }

  // ----- what the invariant says about addresses

  /** Tiling: every address of the region lies in a block, and in one only. */
  lemma {:induction false} Covered(base: int, end: int, B: Blocks, x: int, from: int) returns (h: int)
    requires Tiled(base, end, B) && from in B && from <= x < end
    ensures h in B && h <= x < End(h, B[h])
    ensures forall k | k in B && k <= x < End(k, B[k]) :: k == h
    decreases end - from
  {
    assert Followed(end, B, from);
    if x < End(from, B[from]) {
      h := from;
    } else {
      h := Covered(base, end, B, x, End(from, B[from]));
    }
  }

  /** Live allocations are aligned, lie inside the region and do not overlap. */
  lemma LiveApart(base: int, end: int, B: Blocks, chain: seq<int>, list: int, h: int, k: int)
    requires Consistent(base, end, B, chain, list) && h in Live(B) && k in Live(B) && h < k
    ensures h % 16 == 0 && base <= h && h + HEADER + Live(B)[h].size <= k
    ensures k % 16 == 0 && k + HEADER + Live(B)[k].size <= end
  {
    hide Flagged, Kinds, Chained;
    InRegion(base, end, B, k);
  }

  lemma {:induction false} AscendingUnique(c: seq<int>, d: seq<int>)
    requires Ascending(c) && Ascending(d) && forall k :: k in c <==> k in d
    ensures c == d
  {
    Inhabited(c);
    Inhabited(d);
    if c != [] {
      var m, n := |c| - 1, |d| - 1;
      assert c[m] in c && d[n] in d;
      assert c[m] == d[n];
      forall k
        ensures k in c[..m] <==> k in d[..n]
      {
        LastOut(c, k);
        LastOut(d, k);
      }
      AscendingUnique(c[..m], d[..n]);
      assert c == c[..m] + [c[m]] && d == d[..n] + [d[n]];
    }
  }

  lemma Inhabited(c: seq<int>)
    ensures c != [] <==> exists k :: k in c
  {
    if c != [] {
      var k := c[0];
      assert k in c;
    }
  }

  lemma LastOut(c: seq<int>, k: int)
    requires Ascending(c) && c != []
    ensures k in c[..|c| - 1] <==> k in c && k != c[|c| - 1]
  {
  }

  /** The whole state of the heap, free list included, follows from the live allocations. */
  lemma StateCanonical(base: int, end: int, B: Blocks, chain: seq<int>, list: int,
                       B': Blocks, chain': seq<int>, list': int)
    requires Consistent(base, end, B, chain, list) && Coalesced(B)
    requires Consistent(base, end, B', chain', list') && Coalesced(B')
    requires Live(B) == Live(B')
    ensures chain == chain' && list == list' && B == B'
  {
    LayoutCanonical(base, end, B, B');
    forall k
      ensures (k in B <==> k in B') && (k in chain <==> k in chain')
    {
      assert k in B || k in B' ==> SameCell(B, B', k);
    }
    assert B.Keys == B'.Keys;
    AscendingUnique(chain, chain');
    forall k | k in B
      ensures B[k] == B'[k]
    {
      SameState(base, end, B, chain, list, B', list', k);
    }
  }

  lemma SameState(base: int, end: int, B: Blocks, chain: seq<int>, list: int, B': Blocks, list': int, k: int)
    requires Consistent(base, end, B, chain, list) && Consistent(base, end, B', chain, list')
    requires Live(B) == Live(B') && B.Keys == B'.Keys && (forall h | h in B :: SameCell(B, B', h)) && k in B
    ensures B[k] == B'[k]
  {
    assert SameCell(B, B', k);
    assert B[k].prevFree == B'[k].prevFree by {
      if k != base {
        var p := LeftNeighbour(base, end, B, k, base);
        assert SameCell(B, B', p) && FlagOk(B, p) && FlagOk(B', p);
      }
    }
    if B[k].isFree {
      var i :| 0 <= i < |chain| && chain[i] == k;
      assert LinkOk(B, chain, i) && LinkOk(B', chain, i);
    } else {
      assert k in Live(B) && k in Live(B') && Live(B)[k] == Live(B')[k];
    }
  }
}
