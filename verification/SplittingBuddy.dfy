/**
 A buddy allocator for arbitrary sizes: the request is rounded up to a power of two and the
 overhead is handed back in aligned chunks.
 */
module SplittingBuddy {
  import opened Bits
  import opened OrderMath
  import opened Dyadic
  import opened OrderRange
  import opened FreeBlocks
  import opened Wrappers
  import opened Buddy

  datatype Interval = Interval(a: nat, b: nat) {
    function Size(): nat {
      if b <= a then 0 else b - a
    }

    predicate Has(x: int) {
      a <= x < b
    }
  }

  /** The interval handed back after [start, start + 2^order) was allocated, in 64-bit arithmetic. */
  function Overhead(start: nat, order: nat, size: nat): (r: Interval)
    requires size < WORD
    ensures r.a < WORD && r.b < WORD
  {
    var alloc := Interval(start, (start + Pow2(order)) % WORD);
    var remaining := (alloc.Size() + WORD - size) % WORD;
    var a := (start + size) % WORD;
    Interval(a, (a + remaining) % WORD)
  }

  lemma OverheadBelowTop(start: nat, order: nat, size: nat)
    requires size <= Pow2(order) && start + Pow2(order) < WORD
    ensures Overhead(start, order, size) == Interval(start + size, start + Pow2(order))
  {
    hide Pow2;
    var p := Pow2(order);
    assert (start + p) % WORD == start + p;
    assert (p + WORD - size) % WORD == p - size;
  }

  lemma OverheadAtTop(start: nat, order: nat, size: nat)
    requires size <= Pow2(order) && start + Pow2(order) == WORD && start > 0
    ensures size < WORD
    ensures var o := Overhead(start, order, size);
            if size < Pow2(order) then o.a == start + size && o.b == start else o == Interval(0, start)
  {
    hide Pow2;
    var p := Pow2(order);
    assert (start + p) % WORD == 0;
    assert Interval(start, 0).Size() == 0;
    assert size > 0 ==> (WORD - size) % WORD == WORD - size;
  }

  /**
   The interval is exactly the unused tail of the allocated range if and only if that range does
   not end at the top of the address space, where its end wraps to 0.
   */
  lemma OverheadExactIff(start: nat, order: nat, size: nat)
    requires order < 64 && start < WORD && Aligned(start, order) && size <= Pow2(order)
    ensures size < WORD
    ensures (forall x :: Overhead(start, order, size).Has(x) <==> Interval(start + size, start + Pow2(order)).Has(x))
            <==> start + Pow2(order) < WORD
  {
    hide Aligned, Pow2, Overhead;
    Pow2Word(order);
    EndsInWord(start, order);
    var p := Pow2(order);
    if start + p == WORD {
      OverheadAtTop(start, order, size);
      var o, tail := Overhead(start, order, size), Interval(start + size, start + p);
      if size < p {
        assert tail.Has(start + size) && !o.Has(start + size);
      } else {
        assert o.Has(0) && !tail.Has(0);
      }
    } else {
      OverheadBelowTop(start, order, size);
    }
  }

  /** The block `alloc` would take for this order ends at the top of the address space. */
  predicate TakesTop(fb: Blocks, order: nat) {
    order < |fb| && fb[order] != {} && forall a | a in fb[order] :: a + Pow2(order) == WORD
  }

  /** What `alloc` promises for a size: exactly [a, b) leaves the free memory. */
  ghost predicate TakesExactly(fb: Blocks, a: nat, b: nat, fb2: Blocks) {
    && (forall x | a <= x < b :: FreeAt(fb, x))
    && (forall x :: FreeAt(fb2, x) <==> FreeAt(fb, x) && !(a <= x < b))
  }

  /** Freeing an interval that was taken exactly restores every per-order set. */
  lemma FreeUndoesSplit(fb: Blocks, a: nat, b: nat, fb2: Blocks, fb3: Blocks)
    requires WellFormed(fb) && WellFormed(fb3) && |fb| == |fb3|
    requires TakesExactly(fb, a, b, fb2) && AddsRange(fb2, a, b, fb3)
    ensures fb3 == fb
  {
    assert SameFree(fb, fb3) by { hide FreeAt; }
    Canonical(fb, fb3);
  }

  lemma TakesTopIff(fb: Blocks, order: nat, a: nat, fb2: Blocks)
    requires WellFormed(fb) && order < |fb| && Allocates(fb, order, Some(a), fb2)
    ensures TakesTop(fb, order) <==> a + Pow2(order) == WORD
  {
    hide FreeAt, Aligned;
    var k: nat :| Chosen(fb, order, k, a);
    if k == order {
      forall b | b in fb[order]
        ensures a <= b && b + Pow2(order) <= WORD
      {
        assert HasBlock(fb, order, b);
        EndsInWord(b, order);
      }
    } else {
      assert fb[order] == {} by {
        assert forall b | b in fb[order] :: HasBlock(fb, order, b);
      }
      Pow2Monotonic(order, k);
      EndsInWord(a, k);
    }
  }

  lemma ReturnsOverhead(fb: Blocks, order: nat, a: nat, fb2: Blocks, size: nat, fb3: Blocks)
    requires Allocates(fb, order, Some(a), fb2) && size <= Pow2(order)
    requires AddsRange(fb2, a + size, a + Pow2(order), fb3)
    ensures TakesExactly(fb, a, a + size, fb3)
  {
    hide FreeAt, WellFormed, Chosen;
    assert forall x | a <= x < a + Pow2(order) :: In(x, a, order);
  }

  /** The block leaves the free memory and the interval enters it. */
  ghost predicate TakesAllBut(fb: Blocks, a: nat, order: nat, back: Interval, fb2: Blocks) {
    && (forall x | In(x, a, order) :: FreeAt(fb, x))
    && (forall x :: FreeAt(fb2, x) <==> (FreeAt(fb, x) && !In(x, a, order)) || back.Has(x))
  }

  /** The interval that is handed back wrongly for a full block at the top is not free already. */
  ghost predicate NoDoubleFree(fb: Blocks, size: nat) {
    TakesTop(fb, OrderEnvelope(size)) && size == Pow2(OrderEnvelope(size)) ==>
      forall x | 0 <= x < WORD - size :: !FreeAt(fb, x)
  }

  /** The inner `free` gets an interval that is not free yet if and only if the state before the call allows it. */
  lemma OverheadNotFreeIff(fb: Blocks, order: nat, a: nat, fb2: Blocks, size: nat)
    requires WellFormed(fb) && order < |fb| <= 64 && Allocates(fb, order, Some(a), fb2)
    requires size < WORD && order == OrderEnvelope(size) && size <= Pow2(order)
    ensures (forall x | Overhead(a, order, size).Has(x) :: !FreeAt(fb2, x)) <==> NoDoubleFree(fb, size)
  {
    hide FreeAt, WellFormed, Chosen, Pow2, HighBit, Aligned, Overhead, OrderEnvelope, TakesTop;
    TakesTopIff(fb, order, a, fb2);
    TopStart(order);
    if a + Pow2(order) == WORD {
      OverheadAtTop(a, order, size);
      assert forall x :: 0 <= x < a ==> !In(x, a, order);
    } else {
      OverheadBelowTop(a, order, size);
      assert forall x | a <= x < a + Pow2(order) :: In(x, a, order);
    }
  }

  /** Only a request that fills the topmost block frees memory twice, and then it frees all memory below. */
  lemma DoublyFreed(fb: Blocks, order: nat, a: nat, fb2: Blocks, size: nat)
    requires WellFormed(fb) && order < |fb| <= 64 && Allocates(fb, order, Some(a), fb2)
    requires size < WORD && order == OrderEnvelope(size) && !NoDoubleFree(fb, size)
    ensures TakesTop(fb, order) && Overhead(a, order, size) == Interval(0, WORD - size)
  {
    hide FreeAt, WellFormed, Chosen, Pow2, HighBit, Aligned, Overhead, OrderEnvelope, TakesTop;
    TakesTopIff(fb, order, a, fb2);
    TopStart(order);
    OverheadAtTop(a, order, size);
  }

  /** Some block of fb has an address in common with the interval. */
  predicate Touches(fb: Blocks, ival: Interval) {
    exists o | 0 <= o < |fb| :: exists a | a in fb[o] :: ival.a < ival.b && a < ival.b && ival.a < a + Pow2(o)
  }

  lemma TouchesIff(fb: Blocks, ival: Interval)
    ensures Touches(fb, ival) <==> exists x :: ival.Has(x) && FreeAt(fb, x)
  {
    hide Pow2;
    if Touches(fb, ival) {
      var o :| 0 <= o < |fb| && exists a | a in fb[o] :: ival.a < ival.b && a < ival.b && ival.a < a + Pow2(o);
      var a :| a in fb[o] && ival.a < ival.b && a < ival.b && ival.a < a + Pow2(o);
      var x := if a < ival.a then ival.a else a;
      assert HasBlock(fb, o, a) && In(x, a, o);
      assert FreeAt(fb, x) && ival.Has(x);
    }
    if x :| ival.Has(x) && FreeAt(fb, x) {
      var o: nat, a: nat :| HasBlock(fb, o, a) && In(x, a, o);
      assert a in fb[o];
    }
  }

  lemma TopStart(order: nat)
    requires order < 64
    ensures Pow2(order) < WORD
  {
    hide Pow2;
    Pow2Word(order);
  }

  lemma HandsBack(fb: Blocks, order: nat, a: nat, fb2: Blocks, size: nat, fb3: Blocks)
    requires WellFormed(fb) && order < |fb| && Allocates(fb, order, Some(a), fb2) && size < WORD && size <= Pow2(order)
    requires var o := Overhead(a, order, size); AddsRange(fb2, o.a, o.b, fb3)
    ensures TakesAllBut(fb, a, order, Overhead(a, order, size), fb3)
    ensures !TakesTop(fb, order) ==>
              Overhead(a, order, size).a == a + size && TakesExactly(fb, a, a + size, fb3)
  {
    hide FreeAt, WellFormed, Chosen, Pow2, Aligned, Overhead, TakesTop;
    TakesTopIff(fb, order, a, fb2);
    if a + Pow2(order) < WORD {
      OverheadBelowTop(a, order, size);
      ReturnsOverhead(fb, order, a, fb2, size, fb3);
    }
  }

  /** Below the topmost block of its order, if that is the only one, not everything is free. */
  lemma BelowTop(fb: Blocks, order: nat, a: nat) returns (x: nat)
    requires WellFormed(fb) && order < |fb| <= 64 && TakesTop(fb, order) && a + Pow2(order) == WORD
    ensures x < a && !FreeAt(fb, x)
  {
    hide FreeAt, Aligned, NoBuddies, Disjoint, AllAligned;
    var p := Pow2(order);
    TopStart(order);
    assert HasBlock(fb, order, a) by { OnlyTop(fb, order, a); }
    var c := BuddyBelow(order, a);
    if AllFree(fb, c, order) {
      var k, b := RangeInBlock(fb, c, order);
      NotInside(fb, order, a, c, k, b);
      assert false;
    }
    x :| In(x, c, order) && !FreeAt(fb, x);
  }

  lemma OnlyTop(fb: Blocks, order: nat, a: nat)
    requires TakesTop(fb, order) && a + Pow2(order) == WORD
    ensures a in fb[order]
  {
    hide Pow2;
    var b :| b in fb[order];
    assert b == a;
  }

  /** The range in front of the topmost one of an order. */
  lemma BuddyBelow(order: nat, a: nat) returns (c: nat)
    requires order < 64 && a + Pow2(order) == WORD
    ensures c + Pow2(order) == a && Aligned(c, order) && Aligned(c, order + 1)
  {
    hide Aligned, Pow2;
    var k: nat :| k == 64 && Pow2(k) == WORD by { WordIsPow2(); }
    Pow2Monotonic(order + 1, k);
    assert Pow2(order + 1) == 2 * Pow2(order) by { Doubled(order); }
    c := WORD - Pow2(order + 1);
    Pow2Aligned(k, order + 1);
    Pow2Aligned(order + 1, order + 1);
    AlignedAdd(Pow2(order + 1), c, order + 1);
    AlignedDown(c, order, order + 1);
  }

  lemma Doubled(order: nat)
    ensures Pow2(order + 1) == 2 * Pow2(order)
  {
  }

  /** No free block holds the range in front of the topmost block. */
  lemma NotInside(fb: Blocks, order: nat, a: nat, c: nat, k: nat, b: nat)
    requires Structured(fb) && TakesTop(fb, order) && HasBlock(fb, order, a) && a + Pow2(order) == WORD
    requires c + Pow2(order) == a && Aligned(c, order) && Aligned(c, order + 1)
    ensures !(order <= k && HasBlock(fb, k, b) && b <= c && c + Pow2(order) <= b + Pow2(k))
  {
    hide Aligned, Disjoint;
    if order < k && HasBlock(fb, k, b) && b <= c && c + Pow2(order) <= b + Pow2(k) {
      Nested(c, order + 1, b, k, c);
      Doubled(order);
      SharedAddress(fb, order, a, k, b, a);
    }
  }

  /** Exactly the requested interval leaves the free memory if and only if the block is not the topmost one. */
  lemma ExactIff(fb: Blocks, order: nat, a: nat, fb2: Blocks, size: nat, fb3: Blocks)
    requires WellFormed(fb) && order < |fb| <= 64 && Allocates(fb, order, Some(a), fb2)
    requires size < WORD && size <= Pow2(order)
    requires var o := Overhead(a, order, size); AddsRange(fb2, o.a, o.b, fb3)
    ensures TakesExactly(fb, a, a + size, fb3) <==> !TakesTop(fb, order)
  {
    hide FreeAt, WellFormed, Chosen, Pow2, HighBit, Aligned, Overhead, TakesTop;
    HandsBack(fb, order, a, fb2, size, fb3);
    TakesTopIff(fb, order, a, fb2);
    TopStart(order);
    if a + Pow2(order) == WORD {
      OverheadAtTop(a, order, size);
      if size < Pow2(order) {
        assert In(a + size, a, order);
        assert FreeAt(fb, a + size) && !FreeAt(fb3, a + size);
      } else {
        var x := BelowTop(fb, order, a);
        assert FreeAt(fb3, x);
      }
    }
  }

  lemma OnePage()
    ensures Pow2(12) == 4096
  {
    assert Pow2(4) == 16;
    Pow2Add(4, 8);
    Pow2Add(4, 4);
  }

  /** The free memory that consists of the topmost page only. */
  function TopPage(): (fb: Blocks)
    ensures |fb| == 13
    ensures forall o: nat, a: nat :: HasBlock(fb, o, a) <==> o == 12 && a == WORD - 4096
  {
    seq(13, o => if o == 12 then {WORD - 4096} else {})
  }

  lemma TopPageFree(x: int)
    ensures FreeAt(TopPage(), x) <==> WORD - 4096 <= x < WORD
  {
    hide TopPage, Pow2;
    OnePage();
    if WORD - 4096 <= x < WORD {
      assert HasBlock(TopPage(), 12, WORD - 4096) && In(x, WORD - 4096, 12);
    }
  }

  lemma TopPageWellFormed()
    ensures WellFormed(TopPage()) && TakesTop(TopPage(), 12)
  {
    hide TopPage, Pow2, Aligned;
    OnePage();
    var k: nat :| k == 64 && Pow2(k) == WORD by { WordIsPow2(); }
    Pow2Aligned(k, 12);
    Pow2Aligned(12, 12);
    AlignedAdd(4096, WORD - 4096, 12);
    assert HasBlock(TopPage(), 12, WORD - 4096);
    assert forall a | a in TopPage()[12] :: HasBlock(TopPage(), 12, a);
  }

  /** Allocating the topmost page, the only free one, makes all memory below it free, address 0 included. */
  lemma TopBlockMisfreed(a: nat, fb2: Blocks, fb3: Blocks)
    requires Allocates(TopPage(), 12, Some(a), fb2)
    requires var o := Overhead(a, 12, 4096); AddsRange(fb2, o.a, o.b, fb3)
    ensures WellFormed(TopPage()) && NoDoubleFree(TopPage(), 4096) && OrderEnvelope(4096) == 12
    ensures a == WORD - 4096 && !FreeAt(TopPage(), 0) && FreeAt(fb3, 0)
    ensures forall x :: FreeAt(fb3, x) <==> 0 <= x < WORD - 4096
  {
    hide TopPage, Pow2, FreeAt, WellFormed, Chosen, Aligned, Overhead, TakesTop, OrderEnvelope;
    TopPageWellFormed();
    OnePage();
    OrderOfPow2(12);
    TakesTopIff(TopPage(), 12, a, fb2);
    OverheadAtTop(a, 12, 4096);
    forall x ensures FreeAt(TopPage(), x) <==> WORD - 4096 <= x < WORD {
      TopPageFree(x);
    }
  }

  /** The free memory that consists of the topmost page and the two lowest ones. */
  function BothEnds(): (fb: Blocks)
    ensures |fb| == 14
    ensures forall o: nat, a: nat :: HasBlock(fb, o, a) <==> (o == 12 && a == WORD - 4096) || (o == 13 && a == 0)
  {
    seq(14, o => if o == 12 then {WORD - 4096} else if o == 13 then {0} else {})
  }

  /** There, a request for one page takes the topmost one and frees the two lowest ones a second time. */
  lemma BothEndsFreedTwice()
    ensures WellFormed(BothEnds()) && TakesTop(BothEnds(), 12)
    ensures OrderEnvelope(4096) == 12 && !NoDoubleFree(BothEnds(), 4096)
  {
    hide BothEnds, Pow2, Aligned, OrderEnvelope;
    OnePage();
    Doubled(12);
    TopPageWellFormed();
    assert HasBlock(TopPage(), 12, WORD - 4096);
    ZeroAligned(13);
    OrderOfPow2(12);
    assert HasBlock(BothEnds(), 12, WORD - 4096) && HasBlock(BothEnds(), 13, 0);
    assert forall a | a in BothEnds()[12] :: HasBlock(BothEnds(), 12, a);
    assert In(0, 0, 13);
    assert FreeAt(BothEnds(), 0);
  }

  /** Freeing what `alloc` returned restores every per-order set if and only if the block was not the topmost one. */
  lemma RestoresIff(fb: Blocks, order: nat, a: nat, fb2: Blocks, size: nat, fb3: Blocks, fb4: Blocks)
    requires WellFormed(fb) && order < |fb| <= 64 && Allocates(fb, order, Some(a), fb2)
    requires size < WORD && size <= Pow2(order)
    requires var o := Overhead(a, order, size); AddsRange(fb2, o.a, o.b, fb3) && AddsRange(fb3, a, o.a, fb4)
    requires WellFormed(fb4) && |fb4| == |fb|
    ensures fb4 == fb <==> !TakesTop(fb, order)
  {
    hide FreeAt, WellFormed, Chosen, Pow2, Aligned, Overhead, TakesTop;
    HandsBack(fb, order, a, fb2, size, fb3);
    TakesTopIff(fb, order, a, fb2);
    TopStart(order);
    if a + Pow2(order) == WORD {
      OverheadAtTop(a, order, size);
      var x := if size < Pow2(order) then a + size else a;
      assert In(x, a, order);
      assert FreeAt(fb, x) && !FreeAt(fb4, x);
    } else {
      FreeUndoesSplit(fb, a, a + size, fb3, fb4);
    }
  }

  /** After the topmost page has been taken and freed again, it is still missing, and address 0 is still free. */
  lemma TopPageNotRestored(a: nat, fb2: Blocks, fb3: Blocks, fb4: Blocks)
    requires Allocates(TopPage(), 12, Some(a), fb2)
    requires var o := Overhead(a, 12, 4096); AddsRange(fb2, o.a, o.b, fb3) && AddsRange(fb3, a, o.a, fb4)
    ensures FreeAt(TopPage(), WORD - 1) && !FreeAt(fb4, WORD - 1) && !FreeAt(TopPage(), 0) && FreeAt(fb4, 0)
  {
    hide TopPage, Pow2, FreeAt, WellFormed, Chosen, Aligned, Overhead, TakesTop, OrderEnvelope;
    TopBlockMisfreed(a, fb2, fb3);
    OnePage();
    OverheadAtTop(a, 12, 4096);
    TopPageFree(WORD - 1);
  }

  /** What `alloc` comes to; `DoubleFree` names an interval it frees although part of it is free. */
  datatype Result = NoMemory | Taken(ival: Interval) | DoubleFree(ival: Interval)

  class SplittingBuddyAllocator {
    const internal: BuddyAllocator

    ghost predicate Valid()
      reads internal.blocks
    {
      internal.Valid()
    }

    constructor (maxOrd: nat)
      requires maxOrd <= 63
      ensures Valid() && fresh(internal.blocks) && internal.maxOrder == maxOrd
      ensures forall x :: !FreeAt(internal.blocks.freeBlocks, x)
    {
      internal := new BuddyAllocator(maxOrd);
    }

    /**
     `alloc`, up to the point where it would free memory that is free already: what the code does
     from there on is undefined. `Touches` stands for that point, and is no check of the code's.
     */
    method Alloc(size: nat) returns (r: Result)
      requires Valid() && size < WORD
      modifies internal.blocks
      ensures Valid()
      ensures r.NoMemory? <==>
                || OrderEnvelope(size) > internal.maxOrder
                || !SomeRangeFree(old(internal.blocks.freeBlocks), OrderEnvelope(size))
      ensures r.NoMemory? ==> internal.blocks.freeBlocks == old(internal.blocks.freeBlocks)
      ensures r.DoubleFree? ==>
                && !NoDoubleFree(old(internal.blocks.freeBlocks), size)
                && TakesTop(old(internal.blocks.freeBlocks), OrderEnvelope(size)) && r.ival == Interval(0, WORD - size)
      ensures r.Taken? ==>
                && NoDoubleFree(old(internal.blocks.freeBlocks), size)
                && Aligned(r.ival.a, OrderEnvelope(size))
                && r.ival.b == Overhead(r.ival.a, OrderEnvelope(size), size).a
                && TakesAllBut(old(internal.blocks.freeBlocks), r.ival.a, OrderEnvelope(size),
                               Overhead(r.ival.a, OrderEnvelope(size), size), internal.blocks.freeBlocks)
                && (TakesExactly(old(internal.blocks.freeBlocks), r.ival.a, r.ival.a + size, internal.blocks.freeBlocks)
                    <==> !TakesTop(old(internal.blocks.freeBlocks), OrderEnvelope(size)))
      ensures r.Taken? && !TakesTop(old(internal.blocks.freeBlocks), OrderEnvelope(size)) ==>
                r.ival.b == r.ival.a + size
    {
      hide FreeAt, WellFormed, Chosen, Pow2, HighBit, Aligned, NoDoubleFree, Touches, TakesTop, OrderEnvelope;
      hide SomeRangeFree, Overhead, TakesAllBut, TakesExactly;
      var order := ComputeEnvelope(size);
      ghost var fb := internal.blocks.freeBlocks;
      var start := internal.Alloc(order);
      if start.None? {
        return NoMemory;
      }
      EnvelopeIsSmallest(size);
      ghost var fb2 := internal.blocks.freeBlocks;
      var remaining := Overhead(start.value, order, size);
      OverheadNotFreeIff(fb, order, start.value, fb2, size);
      TouchesIff(fb2, remaining);
      if Touches(internal.blocks.freeBlocks, remaining) {
        DoublyFreed(fb, order, start.value, fb2, size);
        return DoubleFree(remaining);
      }
      Free(remaining);
      HandsBack(fb, order, start.value, fb2, size, internal.blocks.freeBlocks);
      ExactIff(fb, order, start.value, fb2, size, internal.blocks.freeBlocks);
      return Taken(Interval(start.value, remaining.a));
    }

    method Free(ival: Interval)
      requires Valid() && ival.a < WORD && ival.b < WORD
      requires forall x | ival.a <= x < ival.b :: !FreeAt(internal.blocks.freeBlocks, x)
      modifies internal.blocks
      ensures Valid() && AddsRange(old(internal.blocks.freeBlocks), ival.a, ival.b, internal.blocks.freeBlocks)
    {
      hide ChunkOrder, FreeAt, WellFormed, Pow2, HighBit;
      ghost var fb := internal.blocks.freeBlocks;
      var a, size := ival.a, ival.Size();
      var it := new Iterator([a], size, internal.maxOrder);
      while !it.AtEnd()
        invariant it.Valid() && it.bases == [a] && it.size == size && it.maxOrderChoice == internal.maxOrder
        invariant fresh(it) && Valid() && AddsRange(fb, a, a + it.off, internal.blocks.freeBlocks)
        decreases it.size - it.off
      {
        NextChunk(internal.blocks.freeBlocks, a, it.off, size, internal.maxOrder);
        ghost var before := internal.blocks.freeBlocks;
        var order := ComputeEnvelope(it.currentStep);
        internal.Free(it.base[0], order);
        AddsChunk(fb, a, a + it.off, before, order, internal.blocks.freeBlocks);
        it.Advance();
      }
    }
  }
}
