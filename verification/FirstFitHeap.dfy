/**
 The first-fit heap with boundary tags. Headers, footers and the free list live in the managed
 memory itself; `blocks` and `chain` are the ghost picture of what it holds.
 */
module FirstFitHeap {
  import opened Bits
  import opened Seqs
  import opened OrderMath
  import opened Wrappers
  import opened HeapHeader
  import opened HeapMemory
  import opened HeapLayout
  import opened HeapSteps
  import opened HeapTheory

  const NULL: int := 0

  /** The payload size that serves a request, in 64-bit arithmetic. */
  function RequestSize(request: nat): nat
    requires request < WORD
  {
    var size := if request < 16 then 16 else request;
    var rounded := AlignUp(size, 4);
    if rounded < 16 then 16 else rounded
  }

  /** The header in front of a payload, in 64-bit arithmetic. */
  function HeaderOf(p: nat): (h: nat)
    ensures 16 <= p < WORD ==> h == p - 16
  {
    (p + WORD - HEADER) % WORD
  }

  class Heap {
    const base: int
    const size: int
    var mem: Memory
    var list: int
    ghost var blocks: Blocks
    ghost var chain: seq<int>

    ghost predicate Region() {
      0 < base && base % 16 == 0 && 32 <= size < FREE_BIT && base + size < WORD
    }

    /** The memory holds consistent blocks, possibly with free neighbours. */
    ghost predicate Sound()
      reads this
    {
      Region() && Holds(mem, blocks) && Consistent(base, base + size, blocks, chain, list)
    }

    ghost predicate Valid()
      reads this
    {
      Sound() && Coalesced(blocks)
    }

    // ----- reading and writing header fields

    method GetSize(h: int) returns (s: nat)
      requires Holds(mem, blocks) && h in blocks
      ensures s == blocks[h].size
    {
      assert BlockOk(mem, h, blocks[h]);
      DecodeEncoded(blocks[h].size, blocks[h].prevFree, blocks[h].isFree);
      s := HeapHeader.Size(mem[h]);
    }

    method GetIsFree(h: int) returns (r: bool)
      requires Holds(mem, blocks) && h in blocks
      ensures r == blocks[h].isFree
    {
      assert BlockOk(mem, h, blocks[h]);
      DecodeEncoded(blocks[h].size, blocks[h].prevFree, blocks[h].isFree);
      r := HeapHeader.IsFree(mem[h]);
    }

    method GetPrevFree(h: int) returns (r: bool)
      requires Holds(mem, blocks) && h in blocks
      ensures r == blocks[h].prevFree
    {
      assert BlockOk(mem, h, blocks[h]);
      DecodeEncoded(blocks[h].size, blocks[h].prevFree, blocks[h].isFree);
      r := HeapHeader.PrevFree(mem[h]);
    }

    method GetNext(h: int) returns (r: int)
      requires Holds(mem, blocks) && h in blocks && blocks[h].next.Some?
      ensures r == blocks[h].next.value
    {
      assert BlockOk(mem, h, blocks[h]);
      r := mem[h + HEADER];
    }

    method SetSize(h: int, s: nat)
      requires Holds(mem, blocks) && h in blocks && blocks[h].data.None? && 16 <= s < FREE_BIT
      requires Separate(HeapLayout.WithSize(blocks, h, s))
      modifies this`mem, this`blocks
      ensures Holds(mem, blocks) && blocks == HeapLayout.WithSize(old(blocks), h, s)
    {
      hide Separate;
      assert BlockOk(mem, h, blocks[h]);
      SetEncodedSize(blocks[h].size, blocks[h].prevFree, blocks[h].isFree, s);
      var v := HeapHeader.WithSize(mem[h], s);
      ghost var b := blocks[h].(size := s, foot := false);
      StoreHolds(mem, blocks, h, v, h, b);
      mem := Store(mem, h, v);
      blocks := blocks[h := b];
    }

    method SetIsFree(h: int, val: bool)
      requires Holds(mem, blocks) && h in blocks && blocks[h].data.None?
      modifies this`mem, this`blocks
      ensures Holds(mem, blocks) && blocks == WithFree(old(blocks), h, val)
    {
      assert BlockOk(mem, h, blocks[h]);
      SetEncodedIsFree(blocks[h].size, blocks[h].prevFree, blocks[h].isFree, val);
      var v := WithIsFree(mem[h], val);
      ghost var b := blocks[h].(isFree := val);
      StoreHolds(mem, blocks, h, v, h, b);
      mem := Store(mem, h, v);
      blocks := blocks[h := b];
    }

    method SetPrevFree(h: int, val: bool)
      requires Holds(mem, blocks) && h in blocks
      modifies this`mem, this`blocks
      ensures Holds(mem, blocks) && blocks == HeapLayout.WithPrevFree(old(blocks), h, val)
    {
      assert BlockOk(mem, h, blocks[h]);
      SetEncodedPrevFree(blocks[h].size, blocks[h].prevFree, blocks[h].isFree, val);
      var v := HeapHeader.WithPrevFree(mem[h], val);
      ghost var b := blocks[h].(prevFree := val);
      ContentsKept(mem, h, v, h + HEADER, End(h, b));
      StoreHolds(mem, blocks, h, v, h, b);
      mem := Store(mem, h, v);
      blocks := blocks[h := b];
    }

    method SetNext(h: int, val: int)
      requires Holds(mem, blocks) && h in blocks && blocks[h].data.None?
      modifies this`mem, this`blocks
      ensures Holds(mem, blocks) && blocks == WithNext(old(blocks), h, val)
    {
      assert BlockOk(mem, h, blocks[h]);
      ghost var b := blocks[h].(next := Some(val));
      StoreHolds(mem, blocks, h + HEADER, val, h, b);
      mem := Store(mem, h + HEADER, val);
      blocks := blocks[h := b];
    }

    method UpdateFooter(h: int)
      requires Holds(mem, blocks) && h in blocks && blocks[h].data.None?
      modifies this`mem, this`blocks
      ensures Holds(mem, blocks) && blocks == WithFoot(old(blocks), h)
    {
      assert BlockOk(mem, h, blocks[h]);
      var s := GetSize(h);
      ghost var b := blocks[h].(foot := true);
      StoreHolds(mem, blocks, h + HEADER + s - FOOTER, s, h, b);
      mem := Store(mem, h + HEADER + s - FOOTER, s);
      blocks := blocks[h := b];
    }

    /** Placement of a `header_free` on memory that belongs to no block. */
    method NewHeader(h: int, s: nat)
      requires Holds(mem, blocks) && h !in blocks && 16 <= s < FREE_BIT
      requires Separate(blocks[h := Block(s, false, false, None, false, None)])
      modifies this`mem, this`blocks
      ensures Holds(mem, blocks) && blocks == old(blocks)[h := Block(s, false, true, Some(NULL), true, None)]
    {
      hide Separate, HeapHeader.WithSize, Contents;
      SetEncodedSize(0, false, false, s);
      var v := HeapHeader.WithSize(0, s);
      ghost var b := Block(s, false, false, None, false, None);
      StoreHolds(mem, blocks, h, v, h, b);
      mem := Store(mem, h, v);
      blocks := blocks[h := b];
      SetNext(h, NULL);
      UpdateFooter(h);
      SetIsFree(h, true);
    }

    // ----- neighbours

    method FollowingBlock(h: int) returns (f: int)
      requires Region() && Holds(mem, blocks) && Tiled(base, base + size, blocks) && h in blocks
      ensures f == if End(h, blocks[h]) in blocks then End(h, blocks[h]) else NULL
      ensures f in blocks ==> f != NULL
    {
      var s := GetSize(h);
      f := h + HEADER + s;
      assert Followed(base + size, blocks, h);
      InRegion(base, base + size, blocks, h);
      if f in blocks {
        InRegion(base, base + size, blocks, f);
      }
      if f >= base + size {
        f := NULL;
      }
    }

    /** Reads the footer in front of h, but only when the flag says that a free block put it there. */
    method PrecedingBlock(h: int) returns (p: int)
      requires Sound() && h in blocks
      ensures if blocks[h].prevFree then p in blocks && p != NULL && blocks[p].isFree && End(p, blocks[p]) == h
              else p == NULL
    {
      var flag := GetPrevFree(h);
      if !flag {
        return NULL;
      }
      ghost var q := FlagMeansFree(base, base + size, blocks, h);
      assert BlockOk(mem, q, blocks[q]) && blocks[q].foot;
      var s := mem[h - FOOTER];
      p := h - FOOTER + FOOTER - s - HEADER;
    }

    // ----- the free list

    /** The list element after which val belongs, NULL for the front. */
    method PositionFor(val: int) returns (pos: int, ghost i: nat)
      requires Sound() && val in blocks && !blocks[val].isFree
      ensures i <= |chain| && BelongsAt(chain, i, val)
      ensures pos == if i == 0 then NULL else chain[i - 1]
    {
      hide Separate, Placed, Gapless, Flagged, HeadersAligned, Contents;
      var elem := list;
      i := 0;
      assert |chain| > 0 ==> chain[0] in chain;
      while elem != NULL
        invariant 0 <= i <= |chain| && elem == After(chain, i - 1) && (elem == NULL ==> i == |chain|)
        invariant forall j | 0 <= j < i :: chain[j] < val
        invariant i > 0 ==> i < |chain| && chain[i] < val
        decreases |chain| - i
      {
        assert chain[i] in chain && LinkOk(blocks, chain, i);
        var next := GetNext(elem);
        if i + 1 < |chain| { assert chain[i + 1] in chain; }
        if next == NULL || next > val {
          if elem < val {
            i := i + 1;
            return elem, i;
          } else {
            return NULL, i;
          }
        }
        i := i + 1;
        elem := next;
      }
      pos := NULL;
    }

    /** Marks the used block val free and links it behind pos. */
    method Enlist(val: int, pos: int, ghost i: nat)
      requires Sound() && val in blocks
      requires i <= |chain| && BelongsAt(chain, i, val) && pos == if i == 0 then NULL else chain[i - 1]
      modifies this`mem, this`list, this`blocks
      ensures i > 0 ==> chain[i - 1] in old(blocks)
      ensures Holds(mem, blocks) && blocks == Enlisted(old(blocks), chain, i, val)
      ensures list == if i == 0 then val else old(list)
    {
      hide Holds, Consistent, Enlisted, BelongsAt;
      ListFacts(base, base + size, blocks, chain, list, i);
      DisownHolds(mem, blocks, val);
      EnlistWrites(blocks, chain, i, val);
      blocks := Disowned(blocks, val);
      if pos == NULL {
        SetNext(val, list);
        SetIsFree(val, true);
        UpdateFooter(val);
        list := val;
      } else {
        var tmp := GetNext(pos);
        SetNext(val, tmp);
        SetIsFree(val, true);
        UpdateFooter(val);
        SetNext(pos, val);
      }
    }

    /** Sets the flag of val when the block in front of it is free; it is set already then. */
    method MarkPreceding(val: int)
      requires Sound() && val in blocks
      modifies this`mem, this`blocks
      ensures Sound() && blocks == old(blocks)
    {
      hide Holds, Consistent;
      var preceding := PrecedingBlock(val);
      if preceding != NULL {
        var free := GetIsFree(preceding);
        if free {
          SameUpdate(blocks, val);
          SetPrevFree(val, true);
        }
      }
    }

    /** Puts the used block val on the list behind pos and updates the blocks around it. */
    method InsertAfter(val: int, pos: int, ghost i: nat)
      requires Sound() && val in blocks && !blocks[val].isFree
      requires i <= |chain| && BelongsAt(chain, i, val) && pos == if i == 0 then NULL else chain[i - 1]
      modifies this
      ensures Sound() && chain == InsertAt(old(chain), i, val)
      ensures (i > 0 ==> old(chain)[i - 1] in old(blocks)) && blocks == Put(old(blocks), old(chain), i, val)
      ensures i < |chain| && chain[i] == val && val in blocks
    {
      hide Holds, Consistent, Enlisted, Put, InsertAt, BelongsAt, SameShape;
      ghost var B := blocks;
      PutConsistent(base, base + size, B, chain, list, i, val);
      PutIs(base, base + size, B, chain, list, i, val);
      Enlist(val, pos, i);
      var following := FollowingBlock(val);
      if following != NULL {
        SetPrevFree(following, true);
      }
      chain := InsertAt(chain, i, val);
      MarkPreceding(val);
    }

    /** Merges the free block h with the free block f behind it. */
    method Absorb(h: int, f: int, ghost i: nat)
      requires Sound() && Mergeable(blocks, chain, i) && chain[i] == h && f == End(h, blocks[h])
      modifies this
      ensures Sound() && i + 1 < |old(chain)|
      ensures blocks == Merged(old(blocks), h) && chain == Without(old(chain), i + 1)
      ensures i < |chain| && chain[i] == h && h in blocks
    {
      hide Holds, Consistent, Merged, Separate, SameShape;
      MergeConsistent(base, base + size, blocks, chain, list, i);
      MergeFacts(base, base + size, blocks, chain, list, i);
      MergeWrites(blocks, h);
      var next := GetNext(f);
      SetNext(h, next);
      var s := GetSize(h);
      var s' := GetSize(f);
      RemoveHolds(mem, blocks, f);
      SameShapeSeparate(Merged(old(blocks), h), HeapLayout.WithSize(blocks - {f}, h, s + s' + HEADER));
      blocks := blocks - {f};
      SetSize(h, s + s' + HEADER);
      UpdateFooter(h);
      chain := Without(chain, i + 1);
    }

    /** Merges the free block h with the block behind it, if that is free too. */
    method TryMergeBack(h: int, ghost i: nat)
      requires Sound() && i < |chain| && chain[i] == h
      modifies this
      ensures Sound()
      ensures if Mergeable(old(blocks), old(chain), i)
              then i + 1 < |old(chain)| && blocks == Merged(old(blocks), h) && chain == Without(old(chain), i + 1)
              else blocks == old(blocks) && chain == old(chain)
      ensures i < |chain| && chain[i] == h && h in blocks
    {
      hide Holds, Consistent, Merged, Without, Tiled;
      ListFacts(base, base + size, blocks, chain, list, i + 1);
      TiledFacts(base, base + size, blocks, chain, list);
      var following := FollowingBlock(h);
      if following != NULL {
        var free := GetIsFree(following);
        if free {
          Absorb(h, following, i);
        }
      }
    }

    /** Merges the free block h with the block in front of it, if that is free too. */
    method TryMergeFront(h: int, ghost i: nat)
      requires Sound() && i < |chain| && chain[i] == h
      modifies this
      ensures Sound()
      ensures if old(blocks)[h].prevFree
              then
                && i > 0 && old(chain)[i - 1] in old(blocks) && chain == Without(old(chain), i)
                && End(old(chain)[i - 1], old(blocks)[old(chain)[i - 1]]) == h
                && blocks == Merged(old(blocks), old(chain)[i - 1])
              else blocks == old(blocks) && chain == old(chain)
    {
      hide Holds, Consistent, Merged, Without;
      ListFacts(base, base + size, blocks, chain, list, i + 1);
      var flag := GetPrevFree(h);
      if !flag {
        return;
      }
      var preceding := PrecedingBlock(h);
      PrecedingInList(base, base + size, blocks, chain, list, i, preceding);
      TryMergeBack(preceding, i - 1);
    }

    /** `insert`: releases the used block val and merges it with its free neighbours. */
    method Release(val: int)
      requires Valid() && val in blocks && !blocks[val].isFree
      modifies this
      ensures Valid() && Live(blocks) == Live(old(blocks)) - {val}
    {
      hide Holds, Consistent, Merged, Without, BelongsAt, Put, InsertAt, Mergeable, Coalesced, Live, ApartBut;
      var pos, i := PositionFor(val);
      PutEffect(base, base + size, blocks, chain, list, i, val);
      InsertAfter(val, pos, i);
      MergeBackEffect(base, base + size, blocks, chain, list, i);
      TryMergeBack(val, i);
      MergeFrontEffect(base, base + size, blocks, chain, list, i);
      TryMergeFront(val, i);
    }

    /** Searches the list for the first block of at least the given size, remembering the one before it. */
    method FirstFree(need: nat) returns (block: int, before: int, ghost i: nat)
      requires Sound()
      ensures i <= |chain| && forall j | 0 <= j < i :: chain[j] in blocks && blocks[chain[j]].size < need
      ensures block == NULL <==> i == |chain|
      ensures block != NULL ==>
                && chain[i] == block && block in blocks && blocks[block].size >= need
                && before == if i == 0 then NULL else chain[i - 1]
    {
      hide Holds, Consistent;
      var elem, prev := list, NULL;
      i := 0;
      ListFacts(base, base + size, blocks, chain, list, i);
      while elem != NULL
        invariant 0 <= i <= |chain| && elem == After(chain, i - 1) && (elem == NULL <==> i == |chain|)
        invariant prev == if i == 0 then NULL else chain[i - 1]
        invariant forall j | 0 <= j < i :: chain[j] in blocks && blocks[chain[j]].size < need
        decreases |chain| - i
      {
        ListFacts(base, base + size, blocks, chain, list, i + 1);
        var s := GetSize(elem);
        if s >= need {
          return elem, prev, i;
        }
        prev := elem;
        var next := GetNext(elem);
        elem := next;
        i := i + 1;
      }
      return NULL, NULL, i;
    }

    /** Cuts the free block h in two, the first of the given size. */
    method SplitBlock(h: int, need: nat, ghost i: nat)
      requires Sound() && i < |chain| && chain[i] == h && h in blocks
      requires 16 <= need && need % 16 == 0 && need + HEADER + 16 <= blocks[h].size
      modifies this
      ensures Sound() && blocks == SplitAt(old(blocks), h, need)
      ensures chain == InsertAt(old(chain), i + 1, h + HEADER + need)
    {
      hide Holds, Consistent, SplitAt, InsertAt, Separate;
      SplitConsistent(base, base + size, blocks, chain, list, i, need);
      SplitFacts(base, base + size, blocks, chain, list, i, need);
      SplitWrites(blocks, h, need);
      var s := GetSize(h);
      var remaining := s - need;
      SetSize(h, need);
      UpdateFooter(h);
      var n := h + HEADER + need;
      NewHeader(n, remaining - HEADER);
      var next := GetNext(h);
      SetNext(n, next);
      SetPrevFree(n, true);
      SetNext(h, n);
      chain := InsertAt(chain, i + 1, n);
    }

    /** Unlinks the free block h, whose predecessor in the list is before, and hands its payload out. */
    method TakeBlock(h: int, before: int, ghost i: nat)
      requires Sound() && i < |chain| && chain[i] == h && h in blocks
      requires before == if i == 0 then NULL else chain[i - 1]
      modifies this
      ensures Sound() && chain == Without(old(chain), i) && (i > 0 ==> old(chain)[i - 1] in old(blocks))
      ensures exists data :: blocks == Taken(old(blocks), old(chain), i, data)
    {
      hide Holds, Consistent, Taken, Unlinked, Without, Tiled, Contents, Owned;
      ghost var B := blocks;
      ListFacts(base, base + size, blocks, chain, list, i);
      ListFacts(base, base + size, blocks, chain, list, i + 1);
      TakeIs(base, base + size, blocks, chain, list, i);
      var next := GetNext(h);
      if before != NULL {
        SetNext(before, next);
      } else {
        list := next;
      }
      assert blocks == Unlinked(B, chain, i);
      var following := FollowingBlock(h);
      if following != NULL {
        SetPrevFree(following, false);
      }
      SetIsFree(h, false);
      OwnHolds(mem, blocks, h);
      ghost var data := Contents(mem, h + HEADER, End(h, blocks[h]));
      blocks := blocks[h := Owned(blocks[h], data)];
      TakeWrites(B, chain, i, data);
      TakeConsistent(base, base + size, B, chain, old(list), i, data);
      chain := Without(chain, i);
      assert blocks == Taken(B, old(chain), i, data);
    }

    // ----- the interface

    /** A region of memory with any contents becomes one free block. */
    constructor (base_: int, size_: int, contents: Memory)
      requires 0 < base_ && base_ % 16 == 0 && 32 <= size_ < FREE_BIT && base_ + size_ < WORD
      ensures Valid() && base == base_ && size == size_
      ensures Live(blocks) == map[] && chain == [base]
    {
      base, size := base_, size_;
      mem, list, blocks, chain := contents, base_, map[], [base_];
      new;
      NewHeader(base, size - HEADER);
      FreshHeap(base, base + size, blocks);
    }

    method Alloc(request: nat) returns (p: int)
      requires Valid() && request < WORD
      modifies this
      ensures Valid()
      ensures p == NULL <==>
              forall h | h in old(blocks) && old(blocks)[h].isFree :: old(blocks)[h].size < RequestSize(request)
      ensures p == NULL ==> mem == old(mem) && list == old(list) && blocks == old(blocks) && chain == old(chain)
      ensures p != NULL ==> Serves(base, base + size, old(blocks), RequestSize(request), p - HEADER, blocks)
      ensures PayloadsKept(old(mem), old(blocks), mem, p - HEADER)
    {
      hide PayloadsKept;
      hide Holds, Consistent, Coalesced, Live, RequestSize, SplitAt, InsertAt, Without, Taken, ApartExcept, Serves;
      var need := RequestSize(request);
      RequestFacts(request);
      var block, before, i := FirstFree(need);
      FirstFit(base, base + size, blocks, chain, list, i, need);
      if block == NULL {
        KeepsPayloads(mem, blocks, mem, blocks, NULL - HEADER);
        return NULL;
      }
      var s := GetSize(block);
      var remaining := s - need;
      ghost var B := blocks;
      ListFacts(base, base + size, blocks, chain, list, i + 1);
      if remaining < HEADER + 8 + FOOTER {
        WholeApart(B, block);
      } else {
        SplitEffect(base, base + size, blocks, chain, list, i, need);
        SplitBlock(block, need, i);
      }
      ghost var B1, chain1 := blocks, chain;
      TakeEffect(base, base + size, blocks, chain, list, i);
      TakeBlock(block, before, i);
      ghost var data :| blocks == Taken(B1, chain1, i, data);
      AllocDone(base, base + size, B, old(chain), old(list), need, block, B1, data, blocks);
      ServesOthers(base, base + size, B, need, block, blocks);
      KeepsPayloads(old(mem), B, mem, blocks, block);
      return block + HEADER;
    }

    method Free(p: nat)
      requires Valid() && p < WORD
      requires p != NULL && base <= HeaderOf(p) < base + size ==> HeaderOf(p) in Live(blocks)
      modifies this
      ensures Valid() && Live(blocks) == Live(old(blocks)) - {HeaderOf(p)}
      ensures p == NULL || !(base <= HeaderOf(p) < base + size) ==>
                mem == old(mem) && list == old(list) && blocks == old(blocks) && chain == old(chain)
      ensures PayloadsKept(old(mem), old(blocks), mem, HeaderOf(p))
    {
      hide Holds, Coalesced, Live, Consistent, PayloadsKept;
      var header := HeaderOf(p);
      if p == NULL || !(base <= header < base + size) {
        NotLive(base, base + size, blocks, chain, list, header);
        KeepsPayloads(mem, blocks, mem, blocks, header);
        return;
      }
      LiveFacts(base, base + size, blocks, chain, list, header);
      Release(header);
      KeepsPayloads(old(mem), old(blocks), mem, blocks, header);
    }

    /** `free_mem`: the payload bytes of all free blocks. */
    method FreeMem() returns (total: nat)
      requires Valid()
      ensures total == ListedBytes(blocks, chain)
      ensures Live(blocks) == map[] ==> total == size - HEADER
      ensures total + UsedBytes(blocks, base, base + size) == size
    {
      hide Holds, Consistent, Coalesced, Live, UsedBytes;
      AllFreedBytes(base, base + size, blocks, chain, list);
      BytesAddUp(base, base + size, blocks, chain, list);
      var elem := list;
      ghost var i := 0;
      total := 0;
      ListFacts(base, base + size, blocks, chain, list, i);
      assert chain[..0] == [];
      while elem != NULL
        invariant 0 <= i <= |chain| && elem == After(chain, i - 1) && (elem == NULL <==> i == |chain|)
        invariant total == ListedBytes(blocks, chain[..i])
        decreases |chain| - i
      {
        ListFacts(base, base + size, blocks, chain, list, i + 1);
        var s := GetSize(elem);
        total := total + s;
        assert chain[..i + 1][..i] == chain[..i];
        var next := GetNext(elem);
        elem := next;
        i := i + 1;
      }
      assert chain[..i] == chain;
    }

    /** An owner stores a word anywhere in the payload, the place of a footer included. */
    method Write(p: int, q: int, v: nat)
      requires Valid() && p - HEADER in Live(blocks)
      requires p <= q && q + 8 <= p + Live(blocks)[p - HEADER].size
      modifies this
      ensures Valid() && list == old(list) && chain == old(chain)
      ensures mem == Store(old(mem), q, v)
      ensures p - HEADER in Live(blocks)
      ensures Live(blocks)[p - HEADER].size == Live(old(blocks))[p - HEADER].size
      ensures Live(blocks)[p - HEADER].data == Contents(mem, p, p + Live(blocks)[p - HEADER].size)
      ensures Live(blocks) == Live(old(blocks))[p - HEADER := Live(blocks)[p - HEADER]]
    {
      hide Consistent, Coalesced, Holds, Contents;
      ghost var h := p - HEADER;
      ghost var data := Contents(Store(mem, q, v), p, End(h, blocks[h]));
      WriteConsistent(base, base + size, blocks, chain, list, h, data);
      WriteHolds(mem, blocks, h, q, v);
      mem := Store(mem, q, v);
      blocks := blocks[h := blocks[h].(data := Some(data))];
    }
  }

  lemma WriteHolds(mem: Memory, B: Blocks, h: int, q: int, v: nat)
    requires Holds(mem, B) && h in B && !B[h].foot && B[h].next.None? && h + HEADER <= q && q + 8 <= End(h, B[h])
    ensures Holds(Store(mem, q, v), B[h := B[h].(data := Some(Contents(Store(mem, q, v), h + HEADER, End(h, B[h]))))])
  {
    hide Contents;
    assert BlockOk(mem, h, B[h]);
    var b := B[h].(data := Some(Contents(Store(mem, q, v), h + HEADER, End(h, B[h]))));
    SameShapeSeparate(B, B[h := b]);
    StoreHolds(mem, B, q, v, h, b);
  }

  lemma WriteConsistent(base: int, end: int, B: Blocks, chain: seq<int>, list: int, h: int, data: Memory)
    requires Consistent(base, end, B, chain, list) && Coalesced(B) && h in Live(B)
    ensures var B' := B[h := B[h].(data := Some(data))];
            Consistent(base, end, B', chain, list) && Coalesced(B')
    ensures !B[h].foot && B[h].next.None?
  {
    hide Tiled, Linked, Ascending;
    var B' := B[h := B[h].(data := Some(data))];
    SameShapeTiled(base, end, B, B');
    forall k | k in B
      ensures FlagOk(B', k) && Apart(B', k)
    {
      assert FlagOk(B, k) && Apart(B, k);
    }
    WriteLinked(B, chain, list, h, data);
  }

  lemma WriteLinked(B: Blocks, chain: seq<int>, list: int, h: int, data: Memory)
    requires Linked(B, chain, list) && h in B
    ensures Linked(B[h := B[h].(data := Some(data))], chain, list)
  {
    var B' := B[h := B[h].(data := Some(data))];
    forall i | 0 <= i < |chain|
      ensures LinkOk(B', chain, i)
    {
      assert LinkOk(B, chain, i);
    }
  }

  /** Handing out a block whose header says that it is not free. */
  lemma OwnHolds(mem: Memory, B: Blocks, h: int)
    requires Holds(mem, B) && h in B && !B[h].isFree
    ensures Holds(mem, B[h := Owned(B[h], Contents(mem, h + HEADER, End(h, B[h])))])
  {
    hide Contents;
    assert BlockOk(mem, h, B[h]);
  }

  /** The writes that take a block: clear the flag behind it and its own, then hand it out. */
  lemma TakeWrites(B: Blocks, chain: seq<int>, i: nat, data: Memory)
    requires i < |chain| && chain[i] in B && (i > 0 ==> chain[i - 1] in B && chain[i - 1] < chain[i])
    ensures var h := chain[i];
            var b := Unlinked(B, chain, i);
            var b' := if End(h, B[h]) in b then HeapLayout.WithPrevFree(b, End(h, B[h]), false) else b;
            Taken(B, chain, i, data) == WithFree(b', h, false)[h := Owned(WithFree(b', h, false)[h], data)]
  {
  }

  /** Unlinking a block leaves the layout as it is. */
  lemma TakeIs(base: int, end: int, B: Blocks, chain: seq<int>, list: int, i: nat)
    requires Consistent(base, end, B, chain, list) && i < |chain|
    requires chain[i] in B && B[chain[i]].next.Some? && (i > 0 ==> chain[i - 1] in B && chain[i - 1] < chain[i])
    ensures var h := chain[i];
            var b := Unlinked(B, chain, i);
            && h in b && Tiled(base, end, b)
            && b == (if i > 0 then WithNext(B, chain[i - 1], B[h].next.value) else B)
            && b[h].data == B[h].data && b[h].size == B[h].size
  {
    hide Kinds, Chained, Flagged, HeadersAligned;
    SameShapeTiled(base, end, B, Unlinked(B, chain, i));
  }

  /** Rounding never shrinks a request, except that it wraps for the largest ones. */
  lemma RequestFacts(request: nat)
    requires request < WORD
    ensures RequestSize(request) >= 16 && RequestSize(request) % 16 == 0
    ensures RequestSize(request) >= request <==> request + 15 < WORD
    ensures request + 15 < WORD ==> RequestSize(request) < (if request < 16 then 16 else request) + 16
  {
    hide AlignUp;
    var size := if request < 16 then 16 else request;
    assert Pow2(4) == 16;
    AlignUpMeaning(size, 4);
    AlignedIsMultiple(AlignUp(size, 4), 4);
  }

  /** A request that wraps is rounded to the smallest size. */
  lemma WrappedRequest(request: nat)
    requires request < WORD
    ensures request + 15 >= WORD ==> RequestSize(request) == 16
    ensures RequestSize(WORD - 1) == 16
  {
    hide AlignUp;
    assert Pow2(4) == 16;
    AlignUpMeaning(if request < 16 then 16 else request, 4);
    AlignUpMeaning(WORD - 1, 4);
  }

  /** An allocation is at least as large as requested if and only if the request does not wrap. */
  lemma ServedSizeIff(base: int, end: int, B: Blocks, request: nat, h: int, B': Blocks)
    requires request < WORD && Serves(base, end, B, RequestSize(request), h, B')
    ensures Live(B')[h].size >= request <==> request + 15 < WORD
    ensures request == WORD - 1 ==> Live(B')[h].size < 48
  {
    hide RequestSize, Live;
    RequestFacts(request);
    WrappedRequest(request);
  }

  /** What a successful allocation promises: the lowest block that fits is taken, and nothing else changes. */
  ghost predicate Serves(base: int, end: int, B: Blocks, need: nat, h: int, B': Blocks) {
    && h in B && B[h].isFree && B[h].size >= need
    && (forall k | k in B && B[k].isFree && k < h :: B[k].size < need)
    && h % 16 == 0 && base <= h && h !in Live(B) && h in Live(B')
    && Live(B')[h].size == (if B[h].size - need < 32 then B[h].size else need)
    && h + HEADER + Live(B')[h].size <= end
    && Live(B') == Live(B)[h := Live(B')[h]]
  }

  lemma ServesOthers(base: int, end: int, B: Blocks, need: nat, h: int, B': Blocks)
    requires Serves(base, end, B, need, h, B')
    ensures forall k | k in Live(B) && k != h :: k in Live(B') && Live(B')[k] == Live(B)[k]
  {
    hide Live;
  }

  /** The payload bytes of the listed blocks. */
  ghost function ListedBytes(B: Blocks, chain: seq<int>): nat {
    if chain == [] then 0
    else
      var h := chain[|chain| - 1];
      ListedBytes(B, chain[..|chain| - 1]) + if h in B then B[h].size else 0
  }

  /** The headers of all blocks from h on and the payloads of those that are not free. */
  ghost function UsedBytes(B: Blocks, h: int, end: int): nat
    decreases end - h
  {
    if h < end && h in B then
      HEADER + (if B[h].isFree then 0 else B[h].size) + UsedBytes(B, End(h, B[h]), end)
    else 0
  }

  /** Free payloads, live payloads and headers make up the region. */
  lemma BytesAddUp(base: int, end: int, B: Blocks, chain: seq<int>, list: int)
    requires Consistent(base, end, B, chain, list)
    ensures ListedBytes(B, chain) + UsedBytes(B, base, end) == end - base
  {
    hide UsedBytes, Separate, Gapless, Flagged, Kinds, Lists, Linked, Ascending;
    assert chain[..0] == [];
    forall j | 0 <= j < |chain| ensures chain[j] >= base {
      ListedIn(base, end, B, chain, list, j);
    }
    BytesFrom(base, end, B, chain, list, base, 0);
  }

  lemma ListedIn(base: int, end: int, B: Blocks, chain: seq<int>, list: int, j: nat)
    requires Consistent(base, end, B, chain, list) && j < |chain|
    ensures chain[j] in B && B[chain[j]].isFree && base <= chain[j] < end
  {
    hide Separate, Gapless, Flagged, Kinds, Linked, Ascending;
    assert chain[j] in chain;
    InRegion(base, end, B, chain[j]);
  }

  /** The next listed block at or behind h is h itself, if that is free, and otherwise lies behind its end. */
  lemma NextListed(base: int, end: int, B: Blocks, chain: seq<int>, list: int, h: int, i: nat)
    requires Consistent(base, end, B, chain, list) && h in B && i <= |chain|
    requires (forall j | 0 <= j < i :: chain[j] < h) && (forall j | i <= j < |chain| :: chain[j] >= h)
    ensures var k := if B[h].isFree then i + 1 else i;
            && (B[h].isFree ==> i < |chain| && chain[i] == h)
            && (forall j | 0 <= j < k :: chain[j] < End(h, B[h]))
            && (forall j | k <= j < |chain| :: chain[j] >= End(h, B[h]))
    ensures h < End(h, B[h]) <= end && Followed(end, B, h)
  {
    hide Flagged, Kinds, Linked;
    InRegion(base, end, B, h);
    if B[h].isFree {
      var j :| 0 <= j < |chain| && chain[j] == h;
    }
    forall j | i <= j < |chain| && (j > i || !B[h].isFree)
      ensures chain[j] >= End(h, B[h])
    {
      ListedIn(base, end, B, chain, list, j);
      assert j > i ==> chain[i] < chain[j];
    }
  }

  lemma {:induction false} BytesFrom(base: int, end: int, B: Blocks, chain: seq<int>, list: int, h: int, i: nat)
    requires Consistent(base, end, B, chain, list) && (h in B || h == end) && i <= |chain|
    requires (forall j | 0 <= j < i :: chain[j] < h) && (forall j | i <= j < |chain| :: chain[j] >= h)
    ensures ListedBytes(B, chain) + UsedBytes(B, h, end) == end - h + ListedBytes(B, chain[..i])
    decreases end - h
  {
    hide Consistent;
    if h == end {
      if i < |chain| {
        ListedIn(base, end, B, chain, list, i);
      }
      assert chain[..i] == chain;
    } else {
      NextListed(base, end, B, chain, list, h, i);
      var k := if B[h].isFree then i + 1 else i;
      BytesFrom(base, end, B, chain, list, End(h, B[h]), k);
      assert B[h].isFree ==> chain[..k][..i] == chain[..i];
    }
  }

  lemma AllFreedBytes(base: int, end: int, B: Blocks, chain: seq<int>, list: int)
    requires Consistent(base, end, B, chain, list) && Coalesced(B)
    ensures Live(B) == map[] ==> ListedBytes(B, chain) == end - base - HEADER
  {
    if Live(B) == map[] {
      AllFreed(base, end, B);
      AscendingUnique(chain, [base]);
    }
  }

  lemma FreshHeap(base: int, end: int, B: Blocks)
    requires 0 < base && base % 16 == 0 && end - base >= 32
    requires B == map[base := Block(end - base - HEADER, false, true, Some(NULL), true, None)]
    ensures Consistent(base, end, B, [base], base) && Coalesced(B) && Live(B) == map[]
  {
    assert Followed(end, B, base);
    assert Linked(B, [base], base) by { assert LinkOk(B, [base], 0); }
  }

  /** The search found the lowest free block that fits, or there is none. */
  lemma FirstFit(base: int, end: int, B: Blocks, chain: seq<int>, list: int, i: nat, need: nat)
    requires Consistent(base, end, B, chain, list) && i <= |chain|
    requires forall j | 0 <= j < i :: chain[j] in B && B[chain[j]].size < need
    ensures forall k | k in B && B[k].isFree && (i < |chain| ==> k < chain[i]) :: B[k].size < need
  {
    hide Tiled, Flagged, HeadersAligned, Kinds, Linked;
    forall k | k in B && B[k].isFree && (i < |chain| ==> k < chain[i])
      ensures B[k].size < need
    {
      var j :| 0 <= j < |chain| && chain[j] == k;
    }
  }

  lemma WholeApart(B: Blocks, h: int)
    requires Coalesced(B)
    ensures ApartExcept(B, h)
  {
  }

  lemma SplitEffect(base: int, end: int, B: Blocks, chain: seq<int>, list: int, i: nat, need: nat)
    requires Consistent(base, end, B, chain, list) && Coalesced(B) && i < |chain| && chain[i] in B
    requires need >= 16 && need + HEADER + 16 <= B[chain[i]].size
    ensures ApartExcept(SplitAt(B, chain[i], need), chain[i])
    ensures Live(SplitAt(B, chain[i], need)) == Live(B)
    ensures chain[i] in SplitAt(B, chain[i], need) && SplitAt(B, chain[i], need)[chain[i]].size == need
    ensures var c := InsertAt(chain, i + 1, chain[i] + HEADER + need);
            i < |c| && c[i] == chain[i] && (i > 0 ==> c[i - 1] == chain[i - 1])
  {
    hide Coalesced, ApartExcept, Live;
    ListFacts(base, end, B, chain, list, i + 1);
    SplitFacts(base, end, B, chain, list, i, need);
    SplitApart(base, end, B, chain[i], need);
    SplitLive(B, chain[i], need);
  }

  lemma TakeEffect(base: int, end: int, B: Blocks, chain: seq<int>, list: int, i: nat)
    requires Consistent(base, end, B, chain, list) && i < |chain| && chain[i] in B && ApartExcept(B, chain[i])
    ensures i > 0 ==> chain[i - 1] in B
    ensures forall data ::
              && Coalesced(Taken(B, chain, i, data))
              && Live(Taken(B, chain, i, data)) == Live(B)[chain[i] := Allocation(B[chain[i]].size, data)]
  {
    hide ApartExcept, Live, Coalesced, Taken;
    ListFacts(base, end, B, chain, list, i);
    ListFacts(base, end, B, chain, list, i + 1);
    forall data
      ensures Coalesced(Taken(B, chain, i, data))
      ensures Live(Taken(B, chain, i, data)) == Live(B)[chain[i] := Allocation(B[chain[i]].size, data)]
    {
      TakeApart(B, chain, i, data);
      TakeLive(B, chain, i, data);
    }
  }

  lemma AllocDone(base: int, end: int, B: Blocks, chain: seq<int>, list: int, need: nat, h: int,
                  B1: Blocks, data: Memory, B': Blocks)
    requires Consistent(base, end, B, chain, list) && h in B && B[h].isFree && B[h].size >= need
    requires B[h].data.None? && forall k | k in B && B[k].isFree && k < h :: B[k].size < need
    requires h in B1 && Live(B1) == Live(B)
    requires B1[h].size == if B[h].size - need < 32 then B[h].size else need
    requires Live(B') == Live(B1)[h := Allocation(B1[h].size, data)]
    ensures Serves(base, end, B, need, h, B')
  {
    InRegion(base, end, B, h);
  }

  /** Neither an address outside the region nor the one in front of null is that of a live allocation. */
  lemma NotLive(base: int, end: int, B: Blocks, chain: seq<int>, list: int, h: int)
    requires Consistent(base, end, B, chain, list) && end < WORD
    ensures !(base <= h < end) || h == WORD - HEADER ==> h !in Live(B)
  {
    if h in B {
      InRegion(base, end, B, h);
    }
  }

  lemma LiveFacts(base: int, end: int, B: Blocks, chain: seq<int>, list: int, h: int)
    requires Consistent(base, end, B, chain, list) && h in Live(B)
    ensures h in B && !B[h].isFree
  {
  }

  /** Freeing a fresh allocation restores the blocks, their flags and the free list. */
  lemma FreeUndoesAlloc(base: int, end: int, B: Blocks, chain: seq<int>, list: int, need: nat, h: int, B1: Blocks,
                        B2: Blocks, chain2: seq<int>, list2: int)
    requires Consistent(base, end, B, chain, list) && Coalesced(B)
    requires Serves(base, end, B, need, h, B1)
    requires Consistent(base, end, B2, chain2, list2) && Coalesced(B2) && Live(B2) == Live(B1) - {h}
    ensures B2 == B && chain2 == chain && list2 == list
  {
    hide Consistent, Coalesced, Live;
    assert Live(B2) == Live(B);
    StateCanonical(base, end, B, chain, list, B2, chain2, list2);
  }

  lemma PutEffect(base: int, end: int, B: Blocks, chain: seq<int>, list: int, i: nat, h: int)
    requires Consistent(base, end, B, chain, list) && Coalesced(B) && h in B && i <= |chain| && BelongsAt(chain, i, h)
    ensures i > 0 ==> chain[i - 1] in B
    ensures Live(Put(B, chain, i, h)) == Live(B) - {h} && ApartBut(Put(B, chain, i, h), h, true)
  {
    hide Put, Live, Coalesced, ApartBut;
    ListFacts(base, end, B, chain, list, i);
    PutLive(B, chain, i, h);
    PutApart(B, chain, i, h);
  }

  lemma MergeBackEffect(base: int, end: int, B: Blocks, chain: seq<int>, list: int, i: nat)
    requires Consistent(base, end, B, chain, list) && i < |chain| && chain[i] in B && ApartBut(B, chain[i], true)
    ensures Mergeable(B, chain, i) ==>
              Live(Merged(B, chain[i])) == Live(B) && ApartBut(Merged(B, chain[i]), chain[i], false)
    ensures !Mergeable(B, chain, i) ==> ApartBut(B, chain[i], false)
  {
    hide Merged, Live, ApartBut;
    ListFacts(base, end, B, chain, list, i + 1);
    if Mergeable(B, chain, i) { MergeLive(B, chain[i]); }
    MergeBackApart(base, end, B, chain[i]);
  }

  lemma MergeFrontEffect(base: int, end: int, B: Blocks, chain: seq<int>, list: int, i: nat)
    requires Consistent(base, end, B, chain, list) && i < |chain| && chain[i] in B && ApartBut(B, chain[i], false)
    ensures i > 0 && chain[i - 1] in B && End(chain[i - 1], B[chain[i - 1]]) == chain[i] ==>
              Live(Merged(B, chain[i - 1])) == Live(B) && Coalesced(Merged(B, chain[i - 1]))
    ensures !B[chain[i]].prevFree ==> Coalesced(B)
  {
    hide Merged, Live, ApartBut, Coalesced;
    ListFacts(base, end, B, chain, list, i);
    ListFacts(base, end, B, chain, list, i + 1);
    if i > 0 && End(chain[i - 1], B[chain[i - 1]]) == chain[i] {
      MergeLive(B, chain[i - 1]);
      MergeFrontApart(base, end, B, chain[i], chain[i - 1]);
    }
    if !B[chain[i]].prevFree { NoFrontApart(base, end, B, chain[i]); }
  }

  /** Forgetting a block keeps the others. */
  lemma RemoveHolds(mem: Memory, B: Blocks, f: int)
    requires Holds(mem, B)
    ensures Holds(mem, B - {f})
  {
    hide BlockOk;
  }

  /** Putting a block back: enlist it, then set the flag behind it. */
  lemma PutIs(base: int, end: int, B: Blocks, chain: seq<int>, list: int, i: nat, h: int)
    requires Consistent(base, end, B, chain, list) && h in B && i <= |chain| && (i > 0 ==> chain[i - 1] in B)
    ensures var b := Enlisted(B, chain, i, h);
            && h in b && Tiled(base, end, b) && h in Put(B, chain, i, h)
            && Put(B, chain, i, h) == if End(h, b[h]) in b then HeapLayout.WithPrevFree(b, End(h, b[h]), true) else b
  {
    hide Kinds, Chained, Flagged, HeadersAligned;
    EnlistedShape(B, chain, i, h);
    SameShapeTiled(base, end, B, Enlisted(B, chain, i, h));
  }

  lemma SameUpdate(B: Blocks, h: int)
    requires h in B
    ensures B[h := B[h]] == B
  {
  }

  lemma DisownHolds(mem: Memory, B: Blocks, h: int)
    requires Holds(mem, B) && h in B
    ensures Holds(mem, Disowned(B, h))
  {
    hide Contents;
    assert BlockOk(mem, h, B[h]);
  }

  lemma EnlistedShape(B: Blocks, chain: seq<int>, i: nat, h: int)
    requires h in B && i <= |chain| && (i > 0 ==> chain[i - 1] in B)
    ensures SameShape(B, Enlisted(B, chain, i, h)) && Enlisted(B, chain, i, h)[h].size == B[h].size
  {
  }

  lemma TiledFacts(base: int, end: int, B: Blocks, chain: seq<int>, list: int)
    requires Consistent(base, end, B, chain, list)
    ensures Tiled(base, end, B)
    ensures forall h | h in B :: base <= h
  {
  }

  /** A free block in front of h in memory is also in front of it in the list. */
  lemma PrecedingInList(base: int, end: int, B: Blocks, chain: seq<int>, list: int, i: nat, p: int)
    requires Consistent(base, end, B, chain, list) && i < |chain|
    requires p in B && B[p].isFree && End(p, B[p]) == chain[i]
    ensures i > 0 && chain[i - 1] == p && Mergeable(B, chain, i - 1)
  {
    hide Flagged, HeadersAligned, Gapless;
    var j :| 0 <= j < |chain| && chain[j] == p;
    assert chain[i] in chain;
    NextInList(base, end, B, chain, list, j);
  }

  /** What the list says about the elements around position i. */
  lemma ListFacts(base: int, end: int, B: Blocks, chain: seq<int>, list: int, i: nat)
    requires Consistent(base, end, B, chain, list) && i <= |chain|
    ensures list == After(chain, -1)
    ensures After(chain, i - 1) == NULL <==> i == |chain|
    ensures i > 0 ==>
              && chain[i - 1] in B && chain[i - 1] > 0 && B[chain[i - 1]].isFree && B[chain[i - 1]].data.None?
              && B[chain[i - 1]].next == Some(After(chain, i - 1))
    ensures 0 < i < |chain| ==> chain[i - 1] < chain[i]
  {
    if i > 0 {
      assert chain[i - 1] in chain && LinkOk(B, chain, i - 1);
    }
    assert i < |chain| ==> chain[i] in chain;
  }
}
