/**
 The buddy allocator: naturally aligned power-of-two address ranges, kept as sets of free blocks
 per order that are split on allocation and merged on release.
 */
module Buddy {
  import opened Bits
  import opened OrderMath
  import opened Dyadic
  import opened OrderRange
  import opened FreeBlocks
  import opened Wrappers

  datatype BlockId = BlockId(ord: nat, addr: nat)

  /** `get_buddy_addr`. */
  function BuddyAddr(addr: nat, order: nat): nat {
    Xor(addr, Pow2(order))
  }

  /** The exclusive or moves to the other half of the enclosing aligned range. */
  lemma BuddyAddrMeaning(addr: nat, order: nat)
    requires Aligned(addr, order)
    ensures BuddyAddr(addr, order) == if Aligned(addr, order + 1) then addr + Pow2(order) else addr - Pow2(order)
  {
    XorPow2(addr, order);
    BitOfAligned(addr, order);
  }

  /** `get_free` takes the lowest block of the smallest sufficient order. */
  ghost predicate Chosen(fb: Blocks, order: nat, k: nat, a: nat) {
    && order <= k && HasBlock(fb, k, a)
    && (forall b: nat | HasBlock(fb, k, b) :: a <= b)
    && (forall j: nat, b: nat | order <= j < k :: !HasBlock(fb, j, b))
  }

  /** What `alloc` promises: see `AllocComplete` for the failing case. */
  ghost predicate Allocates(fb: Blocks, order: nat, r: Option<nat>, fb2: Blocks) {
    && |fb2| == |fb| && WellFormed(fb2)
    && match r {
         case None =>
           && fb2 == fb
           && (forall k: nat, a: nat | order <= k :: !HasBlock(fb, k, a))
         case Some(a) =>
           && (exists k: nat :: Chosen(fb, order, k, a))
           && Aligned(a, order) && a + Pow2(order) <= WORD && AllFree(fb, a, order)
           && (forall x :: FreeAt(fb2, x) <==> FreeAt(fb, x) && !In(x, a, order))
       }
  }

  /** What `free` promises. */
  ghost predicate Releases(fb: Blocks, addr: nat, order: nat, fb2: Blocks) {
    && |fb2| == |fb| && WellFormed(fb2)
    && (forall x :: FreeAt(fb2, x) <==> FreeAt(fb, x) || In(x, addr, order))
  }

  /** What `free` demands of its caller. */
  ghost predicate Releasable(fb: Blocks, addr: nat, order: nat) {
    order < |fb| && addr < WORD && Aligned(addr, order) && NoneFree(fb, addr, order)
  }

  ghost predicate SomeRangeFree(fb: Blocks, order: nat) {
    exists a: nat :: Aligned(a, order) && AllFree(fb, a, order)
  }

  /**
   Completeness: looking for one block of sufficient order finds memory whenever some aligned
   range of the requested size is entirely free.
   */
  lemma AllocComplete(fb: Blocks, order: nat)
    requires WellFormed(fb) && order < |fb|
    ensures SomeRangeFree(fb, order) <==> exists k: nat, a: nat :: order <= k && HasBlock(fb, k, a)
  {
    if SomeRangeFree(fb, order) {
      var a: nat :| Aligned(a, order) && AllFree(fb, a, order);
      var k, b := RangeInBlock(fb, a, order);
    }
    if k: nat, a: nat :| order <= k && HasBlock(fb, k, a) {
      AlignedDown(a, order, k);
      Pow2Monotonic(order, k);
      assert forall x | In(x, a, order) :: In(x, a, k);
      assert AllFree(fb, a, order);
    }
  }

  /** The promise of `alloc` leaves no freedom: result and new state are determined by the old state. */
  lemma AllocDetermined(fb: Blocks, order: nat, r: Option<nat>, fb2: Blocks, r': Option<nat>, fb2': Blocks)
    requires Allocates(fb, order, r, fb2) && Allocates(fb, order, r', fb2')
    ensures r == r' && fb2 == fb2'
  {
    if r.Some? && r'.Some? {
      var k: nat :| Chosen(fb, order, k, r.value);
      var k': nat :| Chosen(fb, order, k', r'.value);
      assert k == k' && r.value == r'.value;
      Canonical(fb2, fb2');
    }
  }

  /** The allocated range begins the block that precedes all other sufficient ones, by order and then by address. */
  lemma TakesBestBlock(fb: Blocks, order: nat, a: nat, fb2: Blocks) returns (k: nat)
    requires Allocates(fb, order, Some(a), fb2)
    ensures order <= k && HasBlock(fb, k, a)
    ensures forall j: nat, b: nat | order <= j && HasBlock(fb, j, b) :: k < j || (k == j && a <= b)
  {
    hide FreeAt, WellFormed;
    k :| Chosen(fb, order, k, a);
  }

  /** Freeing a fresh allocation restores every per-order set. */
  lemma FreeUndoesAlloc(fb: Blocks, order: nat, a: nat, fb2: Blocks, fb3: Blocks)
    requires WellFormed(fb) && Allocates(fb, order, Some(a), fb2) && Releases(fb2, a, order, fb3)
    ensures fb3 == fb
  {
    assert SameFree(fb, fb3);
    Canonical(fb, fb3);
  }

  // ----- whole histories

  datatype Event = Allocated(addr: nat, order: nat) | Freed(addr: nat, order: nat)

  ghost predicate Step(fb: Blocks, e: Event, fb2: Blocks) {
    match e
    case Allocated(a, o) => Allocates(fb, o, Some(a), fb2)
    case Freed(a, o) => Releasable(fb, a, o) && Releases(fb, a, o, fb2)
  }

  /** The states an allocator without memory passes through. */
  ghost predicate Run(states: seq<Blocks>, events: seq<Event>) {
    && |states| == |events| + 1
    && WellFormed(states[0]) && (forall x :: !FreeAt(states[0], x))
    && forall i | 0 <= i < |events| :: Step(states[i], events[i], states[i + 1])
  }

  /** The addresses a history leaves free, from its events alone. */
  ghost function Remaining(events: seq<Event>): iset<int> {
    if events == [] then iset{}
    else
      var before := Remaining(events[..|events| - 1]);
      match events[|events| - 1]
      case Allocated(a, o) => before - (iset x | In(x, a, o))
      case Freed(a, o) => before + (iset x | In(x, a, o))
  }

  /** Conservation: every reachable state is well formed and holds exactly what the history left. */
  lemma {:induction false} RunConserves(states: seq<Blocks>, events: seq<Event>)
    requires Run(states, events)
    ensures var last := states[|events|];
            && WellFormed(last) && |last| == |states[0]|
            && forall x :: FreeAt(last, x) <==> x in Remaining(events)
  {
    if events != [] {
      var n := |events| - 1;
      assert Run(states[..n + 1], events[..n]);
      RunConserves(states[..n + 1], events[..n]);
      assert Step(states[n], events[n], states[n + 1]);
    }
  }

  /** Two histories that leave the same addresses free end in identical per-order sets. */
  lemma HistoriesAgree(states: seq<Blocks>, events: seq<Event>, states': seq<Blocks>, events': seq<Event>)
    requires Run(states, events) && Run(states', events') && |states[0]| == |states'[0]|
    requires Remaining(events) == Remaining(events')
    ensures states[|events|] == states'[|events'|]
  {
    RunConserves(states, events);
    RunConserves(states', events');
    assert SameFree(states[|events|], states'[|events'|]);
    Canonical(states[|events|], states'[|events'|]);
  }

  class HeapBlockManager {
    const maxOrd: nat
    var freeBlocks: Blocks

    constructor (maxOrd_: nat)
      requires maxOrd_ <= 63
      ensures maxOrd == maxOrd_ && |freeBlocks| == maxOrd + 1
      ensures WellFormed(freeBlocks) && forall x :: !FreeAt(freeBlocks, x)
    {
      maxOrd := maxOrd_;
      freeBlocks := seq(maxOrd_ + 1, _ => {});
    }

    method GetFree(order: nat) returns (r: Option<BlockId>)
      requires |freeBlocks| == maxOrd + 1
      ensures r.None? ==> forall k: nat, a: nat | order <= k :: !HasBlock(freeBlocks, k, a)
      ensures r.Some? ==> Chosen(freeBlocks, order, r.value.ord, r.value.addr)
    {
      var o := order;
      while o <= maxOrd && freeBlocks[o] == {}
        invariant order <= o
        invariant forall j: nat, b: nat | order <= j < o :: !HasBlock(freeBlocks, j, b)
        decreases maxOrd + 1 - o
      {
        o := o + 1;
      }
      if o > maxOrd {
        return None;
      }
      var some :| some in freeBlocks[o];
      LeastExists(freeBlocks[o], some);
      var a :| a in freeBlocks[o] && forall b | b in freeBlocks[o] :: a <= b;
      return Some(BlockId(o, a));
    }

    method SplitFree(block: BlockId) returns (r: BlockId)
      requires Structured(freeBlocks) && HasBlock(freeBlocks, block.ord, block.addr) && block.ord > 0
      modifies this
      ensures Splits(old(freeBlocks), freeBlocks, block.ord, block.addr)
      ensures r == BlockId(block.ord - 1, block.addr)
    {
      var ord, addr := block.ord, block.addr;
      NoHalves(freeBlocks, ord, addr);
      freeBlocks := freeBlocks[ord := freeBlocks[ord] - {addr}];
      ord := ord - 1;
      freeBlocks := freeBlocks[ord := freeBlocks[ord] + {addr + Pow2(ord)}];
      freeBlocks := freeBlocks[ord := freeBlocks[ord] + {addr}];
      return BlockId(ord, addr);
    }

    method MergeFree(block: BlockId) returns (r: Option<BlockId>)
      requires |freeBlocks| == maxOrd + 1
      requires Structured(freeBlocks) && HasBlock(freeBlocks, block.ord, block.addr)
      modifies this
      ensures r.None? ==>
                && freeBlocks == old(freeBlocks)
                && (block.ord < maxOrd ==> !HasBlock(freeBlocks, block.ord, BuddyAddr(block.addr, block.ord)))
      ensures r.Some? ==>
                && r.value.ord == block.ord + 1
                && Aligned(r.value.addr, block.ord + 1)
                && (r.value.addr == block.addr || r.value.addr + Pow2(block.ord) == block.addr)
                && Splits(freeBlocks, old(freeBlocks), r.value.ord, r.value.addr)
    {
      var ord, addr := block.ord, block.addr;
      if ord >= maxOrd {
        return None;
      }
      BuddyAddrMeaning(addr, ord);
      var buddyAddr := BuddyAddr(addr, ord);
      if buddyAddr !in freeBlocks[ord] {
        return None;
      }
      ParentAligned(addr, ord);
      var low := if addr <= buddyAddr then addr else buddyAddr;
      NoEnclosing(freeBlocks, ord, low);
      freeBlocks := freeBlocks[ord := freeBlocks[ord] - {addr}];
      freeBlocks := freeBlocks[ord := freeBlocks[ord] - {buddyAddr}];
      freeBlocks := freeBlocks[ord + 1 := freeBlocks[ord + 1] + {low}];
      return Some(BlockId(ord + 1, low));
    }

    method MarkUsed(block: BlockId)
      requires HasBlock(freeBlocks, block.ord, block.addr)
      modifies this
      ensures freeBlocks == old(freeBlocks)[block.ord := old(freeBlocks)[block.ord] - {block.addr}]
    {
      freeBlocks := freeBlocks[block.ord := freeBlocks[block.ord] - {block.addr}];
    }

    method AddFree(addr: nat, ord: nat) returns (r: BlockId)
      requires ord < |freeBlocks| && addr !in freeBlocks[ord]
      modifies this
      ensures freeBlocks == old(freeBlocks)[ord := old(freeBlocks)[ord] + {addr}]
      ensures r == BlockId(ord, addr)
    {
      freeBlocks := freeBlocks[ord := freeBlocks[ord] + {addr}];
      return BlockId(ord, addr);
    }
  }

  lemma {:induction false} LeastExists(s: set<nat>, x: nat)
    requires x in s
    ensures exists a :: a in s && forall b | b in s :: a <= b
    decreases x
  {
    if y :| y in s && y < x {
      LeastExists(s, y);
    }
  }

  /** A block whose buddy is not free ends the merging. */
  lemma MergingDone(fb: Blocks, o: nat, a: nat)
    requires Structured(fb) && HasBlock(fb, o, a) && NoBuddiesExcept(fb, o, a)
    requires o + 1 < |fb| ==> !HasBlock(fb, o, BuddyAddr(a, o))
    ensures NoBuddies(fb)
  {
    BuddyAddrMeaning(a, o);
    Pow2Aligned(o, o + 1);
    forall p: nat, b: nat
      ensures !BuddyPair(fb, p, b)
    {
      if Aligned(b, o + 1) { AlignedAdd(b, Pow2(o), o + 1); }
    }
  }

  /** The halves of a free block are not free blocks themselves. */
  lemma NoHalves(fb: Blocks, o: nat, a: nat)
    requires Structured(fb) && HasBlock(fb, o, a) && o > 0
    ensures !HasBlock(fb, o - 1, a) && !HasBlock(fb, o - 1, a + Pow2(o - 1))
  {
    assert In(a, a, o) && In(a + Pow2(o - 1), a, o);
  }

  /** A range whose lower half is a free block is not a free block itself. */
  lemma NoEnclosing(fb: Blocks, o: nat, a: nat)
    requires Structured(fb) && HasBlock(fb, o, a)
    ensures !HasBlock(fb, o + 1, a)
  {
    assert In(a, a, o);
  }

  class BuddyAllocator {
    const maxOrder: nat
    const blocks: HeapBlockManager

    ghost predicate Valid()
      reads blocks
    {
      blocks.maxOrd == maxOrder <= 63 && |blocks.freeBlocks| == maxOrder + 1 && WellFormed(blocks.freeBlocks)
    }

    /** A new allocator owns no memory; memory is added by freeing it. */
    constructor (maxOrd: nat)
      requires maxOrd <= 63
      ensures Valid() && fresh(blocks) && maxOrder == maxOrd
      ensures forall x :: !FreeAt(blocks.freeBlocks, x)
    {
      maxOrder := maxOrd;
      blocks := new HeapBlockManager(maxOrd);
    }

    method Alloc(order: nat) returns (r: Option<nat>)
      requires Valid()
      modifies blocks
      ensures Valid() && Allocates(old(blocks.freeBlocks), order, r, blocks.freeBlocks)
      ensures order <= maxOrder ==> (r.Some? <==> SomeRangeFree(old(blocks.freeBlocks), order))
      ensures order > maxOrder ==> r.None?
    {
      if order <= maxOrder { AllocComplete(blocks.freeBlocks, order); }
      ghost var fb := blocks.freeBlocks;
      var optId := blocks.GetFree(order);
      if optId.None? {
        return None;
      }
      var id := optId.value;
      while id.ord > order
        invariant order <= id.ord && id.addr == optId.value.addr
        invariant HasBlock(blocks.freeBlocks, id.ord, id.addr)
        invariant |blocks.freeBlocks| == |fb| && Structured(blocks.freeBlocks)
        invariant NoBuddiesExcept(blocks.freeBlocks, id.ord, id.addr)
        invariant SameFree(fb, blocks.freeBlocks)
        decreases id.ord
      {
        ghost var before := blocks.freeBlocks;
        var half := blocks.SplitFree(id);
        SplitsSameFree(before, blocks.freeBlocks, id.ord, id.addr);
        SplitStructured(before, blocks.freeBlocks, id.ord, id.addr);
        SplitBuddies(before, blocks.freeBlocks, id.ord, id.addr);
        id := half;
      }
      EndsInWord(id.addr, id.ord);
      RemoveBlock(blocks.freeBlocks, id.ord, id.addr);
      blocks.MarkUsed(id);
      return Some(id.addr);
    }

    method Free(addr: nat, order: nat)
      requires Valid() && Releasable(blocks.freeBlocks, addr, order)
      modifies blocks
      ensures Valid() && Releases(old(blocks.freeBlocks), addr, order, blocks.freeBlocks)
    {
      AddBlock(blocks.freeBlocks, order, addr);
      var id := blocks.AddFree(addr, order);
      ghost var fb := blocks.freeBlocks;
      var optId := Some(id);
      while optId.Some?
        invariant |blocks.freeBlocks| == |fb| && Structured(blocks.freeBlocks)
        invariant SameFree(fb, blocks.freeBlocks)
        invariant optId.Some? ==>
                    && HasBlock(blocks.freeBlocks, optId.value.ord, optId.value.addr)
                    && NoBuddiesExcept(blocks.freeBlocks, optId.value.ord, optId.value.addr)
        invariant optId.None? ==> NoBuddies(blocks.freeBlocks)
        decreases if optId.Some? then 1 + maxOrder - optId.value.ord else 0
      {
        id := optId.value;
        ghost var before := blocks.freeBlocks;
        optId := blocks.MergeFree(id);
        if optId.Some? {
          var merged := optId.value;
          SplitsSameFree(blocks.freeBlocks, before, merged.ord, merged.addr);
          MergeStructured(blocks.freeBlocks, before, merged.ord, merged.addr);
          MergeBuddies(blocks.freeBlocks, before, merged.ord, merged.addr, id.addr);
        } else {
          MergingDone(blocks.freeBlocks, id.ord, id.addr);
        }
      }
    }

    /** `buddy_reclaim_range`: adds [a, b) in the biggest possible chunks; an empty interval adds nothing. */
    method ReclaimRange(a: nat, b: nat)
      requires Valid() && a < WORD && b < WORD
      requires forall x | a <= x < b :: !FreeAt(blocks.freeBlocks, x)
      modifies blocks
      ensures Valid()
      ensures AddsRange(old(blocks.freeBlocks), a, b, blocks.freeBlocks)
    {
      hide ChunkOrder, FreeAt, WellFormed, Pow2, HighBit;
      ghost var fb := blocks.freeBlocks;
      var size := if b <= a then 0 else b - a;
      var it := new Iterator([a], size, maxOrder);
      while !it.AtEnd()
        invariant it.Valid() && it.bases == [a] && it.size == size && it.maxOrderChoice == maxOrder
        invariant fresh(it) && Valid() && AddsRange(fb, a, a + it.off, blocks.freeBlocks)
        decreases it.size - it.off
      {
        NextChunk(blocks.freeBlocks, a, it.off, size, maxOrder);
        ghost var before := blocks.freeBlocks;
        var order := OrderMax(it.currentStep);
        Free(it.base[0], order);
        AddsChunk(fb, a, a + it.off, before, order, blocks.freeBlocks);
        it.Advance();
      }
    }
  }

  /** fb2 holds the addresses of fb and those of [a, b). */
  ghost predicate AddsRange(fb: Blocks, a: nat, b: nat, fb2: Blocks) {
    forall x :: FreeAt(fb2, x) <==> FreeAt(fb, x) || a <= x < b
  }

  lemma AddsChunk(fb: Blocks, a: nat, b: nat, fb2: Blocks, o: nat, fb3: Blocks)
    requires a <= b && AddsRange(fb, a, b, fb2) && Releases(fb2, b, o, fb3)
    ensures AddsRange(fb, a, b + Pow2(o), fb3)
  {
    hide FreeAt, WellFormed;
  }

  /** The chunk an iterator over [a, a + size) yields at offset off can be released. */
  lemma NextChunk(fb: Blocks, a: nat, off: nat, size: nat, maxOrder: nat)
    requires off < size && a + size < WORD && |fb| == maxOrder + 1
    requires forall x | a + off <= x < a + size :: !FreeAt(fb, x)
    ensures var o := ChunkOrder([a], off, size, maxOrder);
            && Releasable(fb, a + off, o) && off + Pow2(o) <= size && Pow2(o) < WORD
            && HighBit(Pow2(o)) == OrderEnvelope(Pow2(o)) == o
            && Shift([a], off)[0] == a + off
  {
    hide ChunkOrder, FreeAt;
    var o := ChunkOrder([a], off, size, maxOrder);
    ChunkFits([a], off, size, maxOrder);
    assert [a][0] == a;
    OrderOfPow2(o);
  }
}
