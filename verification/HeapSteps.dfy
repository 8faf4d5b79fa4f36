/**
 The steps alloc and free are made of, on the blocks of a heap: taking a free block, putting one
 back, splitting a free block and merging two. Each keeps the heap consistent.
 */
module HeapSteps {
  import opened Seqs
  import opened HeapMemory
  import opened HeapLayout
  import opened Wrappers

  /** Position i of the list holds h, and the block behind h is free too. */
  ghost predicate Mergeable(B: Blocks, chain: seq<int>, i: nat) {
    i < |chain| && chain[i] in B && End(chain[i], B[chain[i]]) in B && B[End(chain[i], B[chain[i]])].isFree
  }

  function Merged(B: Blocks, h: int): Blocks
    requires h in B && End(h, B[h]) in B
  {
    var f := End(h, B[h]);
    (B - {f})[h := B[h].(size := B[h].size + HEADER + B[f].size, next := B[f].next)]
  }

  function SplitAt(B: Blocks, h: int, size: nat): Blocks
    requires h in B && size + HEADER <= B[h].size
  {
    var n := h + HEADER + size;
    B[h := B[h].(size := size, next := Some(n))]
     [n := Block(B[h].size - size - HEADER, true, true, B[h].next, true, None)]
  }

  /** The free block behind h in memory is also behind it in the list. */
  lemma NextInList(base: int, end: int, B: Blocks, chain: seq<int>, list: int, i: nat)
    requires Consistent(base, end, B, chain, list) && Mergeable(B, chain, i)
    ensures i + 1 < |chain| && chain[i + 1] == End(chain[i], B[chain[i]])
  {
    var h := chain[i];
    var f := End(h, B[h]);
    var j :| 0 <= j < |chain| && chain[j] == f;
    assert i < j;
    assert chain[i + 1] in B && h < chain[i + 1] <= f;
  }

  lemma MergeSeparate(base: int, B: Blocks, h: int)
    requires Separate(B) && Placed(base, B) && h in B && End(h, B[h]) in B
    ensures Separate(Merged(B, h)) && Placed(base, Merged(B, h))
  {
  }

  lemma MergeTiled(base: int, end: int, B: Blocks, h: int)
    requires Tiled(base, end, B) && h in B && End(h, B[h]) in B
    ensures Tiled(base, end, Merged(B, h))
  {
    var f := End(h, B[h]);
    var B' := Merged(B, h);
    assert base in B';
    MergeSeparate(base, B, h);
    forall k | k in B'
      ensures Followed(end, B', k)
    {
      assert Followed(end, B, k) && Followed(end, B, f);
    }
  }

  lemma MergeFlagged(base: int, end: int, B: Blocks, h: int)
    requires Tiled(base, end, B) && Flagged(base, B)
    requires h in B && B[h].isFree && End(h, B[h]) in B && B[End(h, B[h])].isFree
    ensures Flagged(base, Merged(B, h))
  {
    var f := End(h, B[h]);
    var B' := Merged(B, h);
    forall k | k in B'
      ensures FlagOk(B', k)
    {
      assert FlagOk(B, k) && FlagOk(B, f);
    }
  }

  lemma WithoutAscending(chain: seq<int>, i: nat)
    requires Ascending(chain) && i < |chain|
    ensures Ascending(Without(chain, i))
    ensures forall k | k in chain :: k == chain[i] || k in Without(chain, i)
    ensures forall k | k in Without(chain, i) :: k in chain && k != chain[i]
  {
    var chain' := Without(chain, i);
    forall k | k in chain
      ensures k == chain[i] || k in chain'
    {
      var j :| 0 <= j < |chain| && chain[j] == k;
      if j != i { assert k == chain'[if j < i then j else j - 1]; }
    }
    forall k | k in chain'
      ensures k in chain && k != chain[i]
    {
      var j :| 0 <= j < |chain'| && chain'[j] == k;
      assert k == chain[if j < i then j else j + 1];
    }
  }

  lemma MergeLists(B: Blocks, chain: seq<int>, i: nat)
    requires Ascending(chain) && Lists(B, chain) && i + 1 < |chain|
    requires chain[i] in B && chain[i + 1] == End(chain[i], B[chain[i]])
    ensures Ascending(Without(chain, i + 1)) && Lists(Merged(B, chain[i]), Without(chain, i + 1))
  {
    hide Ascending, Without;
    WithoutAscending(chain, i + 1);
    assert chain[i] in chain && chain[i + 1] in chain;
  }

  lemma MergeLinked(B: Blocks, chain: seq<int>, list: int, i: nat)
    requires Ascending(chain) && Linked(B, chain, list) && i + 1 < |chain|
    requires chain[i] in B && chain[i + 1] == End(chain[i], B[chain[i]])
    ensures chain[i + 1] in B && Linked(Merged(B, chain[i]), Without(chain, i + 1), list)
  {
    assert LinkOk(B, chain, i + 1);
    var B', chain' := Merged(B, chain[i]), Without(chain, i + 1);
    forall j | 0 <= j < |chain'|
      ensures LinkOk(B', chain', j)
    {
      assert LinkOk(B, chain, if j <= i then j else j + 1);
    }
  }

  lemma MergeConsistent(base: int, end: int, B: Blocks, chain: seq<int>, list: int, i: nat)
    requires Consistent(base, end, B, chain, list) && Mergeable(B, chain, i)
    ensures i + 1 < |chain|
    ensures Consistent(base, end, Merged(B, chain[i]), Without(chain, i + 1), list)
  {
    NextInList(base, end, B, chain, list, i);
    assert chain[i] in chain && LinkOk(B, chain, i);
    hide Separate, Placed, Gapless, Flagged, Linked, Ascending;
    MergeTiled(base, end, B, chain[i]);
    MergeFlagged(base, end, B, chain[i]);
    MergeLists(B, chain, i);
    MergeLinked(B, chain, list, i);
  }

  /** The writes that merge a block with the one behind it, which is forgotten in between. */
  lemma MergeWrites(B: Blocks, h: int)
    requires h in B && End(h, B[h]) in B && End(h, B[h]) != h && B[h].foot && B[End(h, B[h])].next.Some?
    ensures var f := End(h, B[h]);
            var b := WithNext(B, h, B[f].next.value) - {f};
            && SameShape(Merged(B, h), HeapLayout.WithSize(b, h, B[h].size + B[f].size + HEADER))
            && Merged(B, h) == WithFoot(HeapLayout.WithSize(b, h, B[h].size + B[f].size + HEADER), h)
  {
  }

  lemma MergeFacts(base: int, end: int, B: Blocks, chain: seq<int>, list: int, i: nat)
    requires Consistent(base, end, B, chain, list) && Mergeable(B, chain, i)
    ensures var h := chain[i];
            var f := End(h, B[h]);
            && B[h].data.None? && B[h].foot && B[f].next.Some? && f > h
            && B[h].size + B[f].size + HEADER <= end - base - HEADER
            && Separate(Merged(B, h))
  {
    hide Flagged, HeadersAligned, Linked, Ascending, Merged;
    var h := chain[i];
    assert h in chain;
    InRegion(base, end, B, End(h, B[h]));
    MergeSeparate(base, B, h);
  }

  lemma SameShapeSeparate(B: Blocks, B': Blocks)
    requires Separate(B) && SameShape(B, B')
    ensures Separate(B')
  {
  }

  // ----- splitting

  lemma SplitSeparate(base: int, B: Blocks, h: int, size: nat)
    requires Separate(B) && Placed(base, B) && h in B && size >= 16 && size + HEADER + 16 <= B[h].size
    ensures Separate(SplitAt(B, h, size)) && Placed(base, SplitAt(B, h, size))
    ensures h + HEADER + size !in B
  {
    hide Separate;
    var n, B' := h + HEADER + size, SplitAt(B, h, size);
    NoneWithin(B, h);
    assert B'[h].size == size && B'[n].size == B[h].size - size - HEADER;
    SplitApartFrom(B, h, n, B');
  }

  /** Nothing begins inside a block, and what begins before it ends before it. */
  lemma NoneWithin(B: Blocks, h: int)
    requires Separate(B) && h in B
    ensures forall k | k in B :: k <= h || End(h, B[h]) <= k
    ensures forall k | k in B && k < h :: End(k, B[k]) <= h
  {
  }

  /** B' is B with the block h cut at n. */
  lemma SplitApartFrom(B: Blocks, h: int, n: int, B': Blocks)
    requires Separate(B) && h in B && B'.Keys == B.Keys + {n} && End(h, B'[h]) <= n && n in B' && h < n
    requires End(n, B'[n]) <= End(h, B[h])
    requires forall k | k in B && k != h && k != n :: B'[k] == B[k]
    requires forall k | k in B :: k <= h || End(h, B[h]) <= k
    requires forall k | k in B && k < h :: End(k, B[k]) <= h
    ensures Separate(B')
  {
    forall i, k | i in B' && k in B' && i < k
      ensures End(i, B'[i]) <= k
    {
      if i != n && k != n {
        assert i in B && k in B;
      }
    }
  }

  lemma SplitTiled(base: int, end: int, B: Blocks, h: int, size: nat)
    requires Tiled(base, end, B) && h in B && size >= 16 && size + HEADER + 16 <= B[h].size
    ensures Tiled(base, end, SplitAt(B, h, size))
  {
    hide Separate, Placed;
    var n := h + HEADER + size;
    var B' := SplitAt(B, h, size);
    SplitSeparate(base, B, h, size);
    forall k | k in B'
      ensures Followed(end, B', k)
    {
      assert Followed(end, B, if k == n then h else k);
    }
  }

  lemma SplitFlagged(base: int, end: int, B: Blocks, h: int, size: nat)
    requires Tiled(base, end, B) && Flagged(base, B) && h in B && B[h].isFree
    requires 16 <= size && size + HEADER + 16 <= B[h].size
    ensures Flagged(base, SplitAt(B, h, size))
  {
    var n := h + HEADER + size;
    var B' := SplitAt(B, h, size);
    SplitSeparate(base, B, h, size);
    assert n != base && n !in B;
    forall k | k in B'
      ensures FlagOk(B', k)
    {
      if k == n {
        hide Separate, Placed, Gapless;
        assert FlagOk(B, h) && End(n, B'[n]) == End(h, B[h]);
      } else {
        assert FlagOk(B, k) && (k != h ==> End(k, B[k]) != n);
      }
    }
  }

  lemma SplitAscending(base: int, B: Blocks, chain: seq<int>, i: nat, size: nat)
    requires Separate(B) && Placed(base, B) && Ascending(chain) && Lists(B, chain) && i < |chain|
    requires size >= 16 && chain[i] in B && size + HEADER + 16 <= B[chain[i]].size
    ensures Ascending(InsertAt(chain, i + 1, chain[i] + HEADER + size))
  {
    var h, n := chain[i], chain[i] + HEADER + size;
    forall j | i < j < |chain|
      ensures n < chain[j]
    {
      assert chain[j] in chain;
      assert End(h, B[h]) <= chain[j];
    }
  }

  lemma SplitLists(B: Blocks, chain: seq<int>, i: nat, size: nat)
    requires Lists(B, chain) && i < |chain| && chain[i] in B
    requires size + HEADER <= B[chain[i]].size && chain[i] + HEADER + size !in B
    ensures Lists(SplitAt(B, chain[i], size), InsertAt(chain, i + 1, chain[i] + HEADER + size))
  {
    hide InsertAt;
    InsertMembers(chain, i + 1, chain[i] + HEADER + size);
    assert chain[i] in chain;
  }

  lemma SplitLinked(B: Blocks, chain: seq<int>, list: int, i: nat, size: nat)
    requires Ascending(chain) && Linked(B, chain, list) && i < |chain| && chain[i] in B
    requires size + HEADER <= B[chain[i]].size && chain[i] + HEADER + size !in B && chain[i] >= 0
    ensures Linked(SplitAt(B, chain[i], size), InsertAt(chain, i + 1, chain[i] + HEADER + size), list)
  {
    var n := chain[i] + HEADER + size;
    var B', chain' := SplitAt(B, chain[i], size), InsertAt(chain, i + 1, n);
    forall j | 0 <= j < |chain'|
      ensures LinkOk(B', chain', j)
    {
      assert LinkOk(B, chain, if j <= i then j else j - 1);
    }
  }

  lemma SplitKinds(B: Blocks, h: int, size: nat)
    requires h in B && B[h].isFree && size + HEADER <= B[h].size
    ensures Kinds(B) ==> Kinds(SplitAt(B, h, size))
    ensures HeadersAligned(B) && size % 16 == 0 ==> HeadersAligned(SplitAt(B, h, size))
  {
  }

  lemma SplitConsistent(base: int, end: int, B: Blocks, chain: seq<int>, list: int, i: nat, size: nat)
    requires Consistent(base, end, B, chain, list) && i < |chain| && chain[i] in B
    requires 16 <= size && size % 16 == 0 && size + HEADER + 16 <= B[chain[i]].size
    ensures Consistent(base, end, SplitAt(B, chain[i], size), InsertAt(chain, i + 1, chain[i] + HEADER + size), list)
  {
    assert B[chain[i]].isFree && chain[i] > 0 by { assert chain[i] in chain; }
    hide Separate, Placed, Gapless, Flagged, Linked, Ascending, Lists, Kinds, HeadersAligned, SplitAt;
    SplitSeparate(base, B, chain[i], size);
    SplitTiled(base, end, B, chain[i], size);
    SplitFlagged(base, end, B, chain[i], size);
    SplitAscending(base, B, chain, i, size);
    SplitLists(B, chain, i, size);
    SplitLinked(B, chain, list, i, size);
    SplitKinds(B, chain[i], size);
  }

  /** The writes that split a block. */
  lemma SplitWrites(B: Blocks, h: int, size: nat)
    requires h in B && size + HEADER <= B[h].size && h + HEADER + size !in B && B[h].next.Some? && B[h].foot
    ensures var n := h + HEADER + size;
            var b := WithFoot(HeapLayout.WithSize(B, h, size), h);
            var b' := b[n := Block(B[h].size - size - HEADER, false, true, Some(0), true, None)];
            SplitAt(B, h, size) == WithNext(HeapLayout.WithPrevFree(WithNext(b', n, B[h].next.value), n, true), h, n)
  {
  }

  lemma SplitFacts(base: int, end: int, B: Blocks, chain: seq<int>, list: int, i: nat, size: nat)
    requires Consistent(base, end, B, chain, list) && i < |chain| && chain[i] in B
    requires size >= 16 && size + HEADER + 16 <= B[chain[i]].size
    ensures var h := chain[i];
            var n := h + HEADER + size;
            && n !in B && B[h].data.None? && B[h].next.Some? && B[h].foot && B[h].size <= end - base
            && Separate(HeapLayout.WithSize(B, h, size))
            && var b := WithFoot(HeapLayout.WithSize(B, h, size), h);
               Separate(b[n := Block(B[h].size - size - HEADER, false, false, None, false, None)])
  {
    hide Flagged, HeadersAligned, Linked, Ascending;
    var h := chain[i];
    assert h in chain;
    InRegion(base, end, B, h);
    SplitSeparate(base, B, h, size);
  }

  // ----- taking a free block off the list, and putting a block back

  /** Block h with its link and footer given up to an owner. */
  function Owned(b: Block, data: Memory): Block {
    b.(isFree := false, next := None, foot := false, data := Some(data))
  }

  /** The list skips position i. */
  function Unlinked(B: Blocks, chain: seq<int>, i: nat): Blocks
    requires i < |chain| && chain[i] in B && (i > 0 ==> chain[i - 1] in B)
  {
    if i > 0 then B[chain[i - 1] := B[chain[i - 1]].(next := B[chain[i]].next)] else B
  }

  /** Position i leaves the list, the flag behind it is cleared and its payload handed out. */
  function Taken(B: Blocks, chain: seq<int>, i: nat, data: Memory): Blocks
    requires i < |chain| && chain[i] in B && (i > 0 ==> chain[i - 1] in B)
  {
    var h := chain[i];
    var B1 := Unlinked(B, chain, i);
    var f := End(h, B[h]);
    var B2 := if f in B1 then B1[f := B1[f].(prevFree := false)] else B1;
    B2[h := Owned(B2[h], data)]
  }

  /** Block h becomes free and enters the list before position i. */
  function Enlisted(B: Blocks, chain: seq<int>, i: nat, h: int): Blocks
    requires h in B && i <= |chain| && (i > 0 ==> chain[i - 1] in B)
  {
    var B1 := B[h := B[h].(isFree := true, next := Some(After(chain, i - 1)), foot := true, data := None)];
    if i > 0 then B1[chain[i - 1] := B1[chain[i - 1]].(next := Some(h))] else B1
  }

  /** The writes that enlist a block, one after the other. */
  lemma EnlistWrites(B: Blocks, chain: seq<int>, i: nat, h: int)
    requires h in B && i <= |chain| && (i > 0 ==> chain[i - 1] in B)
    ensures var b := WithFoot(WithFree(WithNext(Disowned(B, h), h, After(chain, i - 1)), h, true), h);
            Enlisted(B, chain, i, h) == if i > 0 then WithNext(b, chain[i - 1], h) else b
  {
  }

  /** Block h enters the list before position i, and the flag behind it is set. */
  function Put(B: Blocks, chain: seq<int>, i: nat, h: int): Blocks
    requires h in B && i <= |chain| && (i > 0 ==> chain[i - 1] in B)
  {
    var B2 := Enlisted(B, chain, i, h);
    var f := End(h, B[h]);
    if f in B2 then B2[f := B2[f].(prevFree := true)] else B2
  }

  /** Same addresses and sizes. */
  ghost predicate SameShape(B: Blocks, B': Blocks) {
    B.Keys == B'.Keys && forall h | h in B :: B'[h].size == B[h].size
  }

  lemma SameShapeTiled(base: int, end: int, B: Blocks, B': Blocks)
    requires Tiled(base, end, B) && SameShape(B, B')
    ensures Tiled(base, end, B')
    ensures HeadersAligned(B) ==> HeadersAligned(B')
  {
    forall k | k in B'
      ensures Followed(end, B', k)
    {
      assert Followed(end, B, k);
    }
  }

  /** Distinct blocks end at distinct addresses. */
  lemma EndsDiffer(base: int, B: Blocks, h: int, k: int)
    requires Separate(B) && Placed(base, B) && h in B && k in B && h != k
    ensures End(h, B[h]) != End(k, B[k])
  {
  }

  /** Changing whether h is free, and the flag behind it with it, keeps the flags right. */
  lemma FreeChanged(base: int, end: int, B: Blocks, h: int, B': Blocks)
    requires Tiled(base, end, B) && Flagged(base, B) && SameShape(B, B') && h in B
    requires forall k | k in B && k != h :: B'[k].isFree == B[k].isFree
    requires forall k | k in B && k != End(h, B[h]) :: B'[k].prevFree == B[k].prevFree
    requires End(h, B[h]) in B ==> B'[End(h, B[h])].prevFree == B'[h].isFree
    ensures Flagged(base, B')
  {
    assert base != End(h, B[h]);
    forall k | k in B'
      ensures FlagOk(B', k)
    {
      if k != h { EndsDiffer(base, B, h, k); }
      hide Separate, Placed, Gapless;
      assert FlagOk(B, k);
    }
  }

  lemma WithoutLists(B: Blocks, chain: seq<int>, i: nat, B': Blocks)
    requires Ascending(chain) && Lists(B, chain) && i < |chain| && B.Keys == B'.Keys
    requires forall k | k in B :: B'[k].isFree == (B[k].isFree && k != chain[i])
    ensures Ascending(Without(chain, i)) && Lists(B', Without(chain, i))
  {
    hide Ascending, Without;
    WithoutAscending(chain, i);
  }

  lemma TakeLinked(B: Blocks, chain: seq<int>, list: int, i: nat, data: Memory)
    requires Ascending(chain) && Linked(B, chain, list) && i < |chain|
    ensures chain[i] in B && (i > 0 ==> chain[i - 1] in B) && B[chain[i]].next.Some?
    ensures Linked(Taken(B, chain, i, data), Without(chain, i), if i == 0 then B[chain[i]].next.value else list)
  {
    assert LinkOk(B, chain, i) && (i > 0 ==> LinkOk(B, chain, i - 1));
    var B', chain' := Taken(B, chain, i, data), Without(chain, i);
    forall j | 0 <= j < |chain'|
      ensures LinkOk(B', chain', j)
    {
      assert LinkOk(B, chain, if j < i then j else j + 1);
    }
  }

  lemma TakenBlocks(B: Blocks, chain: seq<int>, i: nat, data: Memory)
    requires Ascending(chain) && i < |chain| && chain[i] in B && (i > 0 ==> chain[i - 1] in B)
    requires Kinds(B) && (i > 0 ==> B[chain[i - 1]].isFree) && B[chain[i]].isFree
    ensures var B' := Taken(B, chain, i, data);
            && SameShape(B, B') && Kinds(B')
            && (forall k | k in B :: B'[k].isFree == (B[k].isFree && k != chain[i]))
            && (forall k | k in B :: B'[k].prevFree == (B[k].prevFree && k != End(chain[i], B[chain[i]])))
            && (forall k | k in B && k != chain[i] :: B'[k].data == B[k].data)
            && B'[chain[i]].data == Some(data)
  {
  }

  lemma TakeConsistent(base: int, end: int, B: Blocks, chain: seq<int>, list: int, i: nat, data: Memory)
    requires Consistent(base, end, B, chain, list) && i < |chain|
    ensures chain[i] in B && (i > 0 ==> chain[i - 1] in B) && B[chain[i]].next.Some?
    ensures Consistent(base, end, Taken(B, chain, i, data), Without(chain, i),
                       if i == 0 then B[chain[i]].next.value else list)
  {
    assert B[chain[i]].isFree && (i > 0 ==> chain[i - 1] in B && B[chain[i - 1]].isFree) by {
      assert chain[i] in chain && (i > 0 ==> chain[i - 1] in chain);
    }
    hide Separate, Placed, Gapless, Flagged, Linked, Ascending, Lists, Kinds, HeadersAligned, Taken;
    TakenBlocks(B, chain, i, data);
    SameShapeTiled(base, end, B, Taken(B, chain, i, data));
    FreeChanged(base, end, B, chain[i], Taken(B, chain, i, data));
    WithoutLists(B, chain, i, Taken(B, chain, i, data));
    TakeLinked(B, chain, list, i, data);
  }

  /** Position i is where h belongs in the list. */
  ghost predicate BelongsAt(chain: seq<int>, i: nat, h: int) {
    && i <= |chain|
    && (forall j | 0 <= j < i :: chain[j] < h)
    && (forall j | i <= j < |chain| :: h < chain[j])
  }

  lemma InsertAscending(chain: seq<int>, i: nat, h: int)
    requires Ascending(chain) && BelongsAt(chain, i, h)
    ensures Ascending(InsertAt(chain, i, h))
  {
  }

  lemma InsertMembers(chain: seq<int>, i: nat, h: int)
    requires i <= |chain|
    ensures forall k :: k in InsertAt(chain, i, h) <==> k == h || k in chain
  {
    var chain' := InsertAt(chain, i, h);
    assert chain'[i] == h;
    forall k | k in chain
      ensures k in chain'
    {
      var j :| 0 <= j < |chain| && chain[j] == k;
      assert k == chain'[if j < i then j else j + 1];
    }
    forall k | k in chain'
      ensures k == h || k in chain
    {
      var j :| 0 <= j < |chain'| && chain'[j] == k;
      if j != i { assert k == chain[if j < i then j else j - 1]; }
    }
  }

  lemma InsertLists(B: Blocks, chain: seq<int>, i: nat, h: int, B': Blocks)
    requires Ascending(chain) && Lists(B, chain) && BelongsAt(chain, i, h) && h in B && h > 0 && B.Keys == B'.Keys
    requires forall k | k in B :: B'[k].isFree == (B[k].isFree || k == h)
    ensures Ascending(InsertAt(chain, i, h)) && Lists(B', InsertAt(chain, i, h))
  {
    hide Ascending, InsertAt;
    InsertAscending(chain, i, h);
    InsertMembers(chain, i, h);
  }

  lemma PutLinked(B: Blocks, chain: seq<int>, list: int, i: nat, h: int)
    requires Ascending(chain) && Linked(B, chain, list) && BelongsAt(chain, i, h)
    requires h in B && (i > 0 ==> chain[i - 1] in B)
    ensures Linked(Put(B, chain, i, h), InsertAt(chain, i, h), if i == 0 then h else list)
  {
    var B', chain' := Put(B, chain, i, h), InsertAt(chain, i, h);
    forall j | 0 <= j < |chain'|
      ensures LinkOk(B', chain', j)
    {
      if j != i { assert LinkOk(B, chain, if j < i then j else j - 1); }
    }
  }

  lemma PutBlocks(B: Blocks, chain: seq<int>, i: nat, h: int)
    requires BelongsAt(chain, i, h) && h in B && (i > 0 ==> chain[i - 1] in B && B[chain[i - 1]].isFree)
    requires Kinds(B)
    ensures var B' := Put(B, chain, i, h);
            && SameShape(B, B') && Kinds(B')
            && (forall k | k in B :: B'[k].isFree == (B[k].isFree || k == h))
            && (forall k | k in B :: B'[k].prevFree == (B[k].prevFree || k == End(h, B[h])))
            && (forall k | k in B && k != h :: B'[k].data == B[k].data)
  {
    hide Enlisted, Kinds;
    var B1 := Enlisted(B, chain, i, h);
    EnlistedBlocks(B, chain, i, h);
    FlagKinds(B1, Put(B, chain, i, h));
  }

  lemma EnlistedBlocks(B: Blocks, chain: seq<int>, i: nat, h: int)
    requires BelongsAt(chain, i, h) && h in B && (i > 0 ==> chain[i - 1] in B && B[chain[i - 1]].isFree)
    requires Kinds(B)
    ensures var B' := Enlisted(B, chain, i, h);
            && SameShape(B, B') && Kinds(B')
            && (forall k | k in B :: B'[k].isFree == (B[k].isFree || k == h) && B'[k].prevFree == B[k].prevFree)
            && (forall k | k in B && k != h :: B'[k].data == B[k].data)
  {
  }

  /** The flag of the block in front plays no part in what a block carries. */
  lemma FlagKinds(B: Blocks, B': Blocks)
    requires Kinds(B) && B.Keys == B'.Keys && forall k | k in B :: B'[k] == B[k].(prevFree := B'[k].prevFree)
    ensures Kinds(B')
  {
  }

  lemma PutConsistent(base: int, end: int, B: Blocks, chain: seq<int>, list: int, i: nat, h: int)
    requires base > 0 && Consistent(base, end, B, chain, list) && BelongsAt(chain, i, h) && h in B
    ensures i > 0 ==> chain[i - 1] in B
    ensures Consistent(base, end, Put(B, chain, i, h), InsertAt(chain, i, h), if i == 0 then h else list)
  {
    assert i > 0 ==> chain[i - 1] in B && B[chain[i - 1]].isFree by {
      assert i > 0 ==> chain[i - 1] in chain;
    }
    assert h > 0;
    hide Separate, Placed, Gapless, Flagged, Linked, Ascending, Lists, Kinds, HeadersAligned, Put;
    PutBlocks(B, chain, i, h);
    SameShapeTiled(base, end, B, Put(B, chain, i, h));
    FreeChanged(base, end, B, h, Put(B, chain, i, h));
    InsertLists(B, chain, i, h, Put(B, chain, i, h));
    PutLinked(B, chain, list, i, h);
  }
}
