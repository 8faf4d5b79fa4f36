/**
 `order_range`: an interval, given at one or more base addresses at once, is cut greedily into
 chunks whose sizes are powers of two and which are naturally aligned at every base.

 Positions inside the interval are offsets. The chunk at offset `off` covers, for every base b,
 the addresses from b + off on, reduced modulo the word size as the iterator does.
 */
module OrderRange {
  import opened Bits
  import opened OrderMath
  import opened Dyadic

  function Min(x: nat, y: nat): nat {
    if x <= y then x else y
  }

  /** The bases moved forward by `off`, with wrap-around. */
  function Shift(bases: seq<nat>, off: nat): (r: seq<nat>)
    ensures |r| == |bases|
    ensures forall i | 0 <= i < |r| :: r[i] == (bases[i] + off) % WORD
  {
    seq(|bases|, i requires 0 <= i < |bases| => (bases[i] + off) % WORD)
  }

  /** Bitwise or of all bases. */
  function MixBase(bases: seq<nat>): nat {
    if bases == [] then 0 else Or(MixBase(bases[..|bases| - 1]), bases[|bases| - 1])
  }

  /** `order_step`, as an order instead of a size. */
  function StepOrder(mix: nat, rest: nat, maxOrder: nat): nat {
    Min(LowBit(Or(mix, MAX_BIT)), Min(HighBit(rest), maxOrder))
  }

  /** Offset `off` is aligned to order o at every base. */
  predicate AlignedAt(bases: seq<nat>, off: nat, o: nat) {
    forall i | 0 <= i < |bases| :: Aligned(bases[i] + off, o)
  }

  /** Order of the chunk the iterator yields at offset `off`. */
  function ChunkOrder(bases: seq<nat>, off: nat, size: nat, maxOrder: nat): (o: nat)
    requires off < size
  {
    StepOrder(MixBase(Shift(bases, off)), size - off, maxOrder)
  }

  lemma {:induction false} MixBaseAligned(bases: seq<nat>, o: nat)
    ensures Aligned(MixBase(bases), o) <==> forall i | 0 <= i < |bases| :: Aligned(bases[i], o)
  {
    if bases == [] {
      ZeroAligned(o);
    } else {
      var init, last := bases[..|bases| - 1], bases[|bases| - 1];
      MixBaseAligned(init, o);
      OrAligned(MixBase(init), last, o);
      assert forall i | 0 <= i < |init| :: init[i] == bases[i];
    }
  }

  lemma ShiftAligned(bases: seq<nat>, off: nat, o: nat)
    requires o <= 64
    ensures AlignedAt(bases, off, o) <==> forall i | 0 <= i < |bases| :: Aligned(Shift(bases, off)[i], o)
  {
    forall i | 0 <= i < |bases|
      ensures Aligned(bases[i] + off, o) <==> Aligned(Shift(bases, off)[i], o)
    {
      WrapAligned(bases[i] + off, o);
    }
  }

  lemma AlignedChoice(bases: seq<nat>, off: nat, k: nat)
    ensures k <= LowBit(Or(MixBase(Shift(bases, off)), MAX_BIT)) <==> AlignedAt(bases, off, k) && k <= 63
  {
    var mix := MixBase(Shift(bases, off));
    OrAligned(mix, MAX_BIT, k);
    MaxBitAligned(k);
    OrPositive(mix, MAX_BIT);
    AlignedIffLowBit(Or(mix, MAX_BIT), k);
    MixBaseAligned(Shift(bases, off), k);
    if k <= 63 { ShiftAligned(bases, off, k); }
  }

  lemma FittingChoice(rest: nat, k: nat)
    requires rest > 0
    ensures k <= HighBit(rest) <==> Pow2(k) <= rest
  {
    if k <= HighBit(rest) { Pow2Monotonic(k, HighBit(rest)); } else { Pow2Monotonic(HighBit(rest), k); }
  }

  /** The chosen order is the largest one that is aligned at every base, fits and is permitted. */
  lemma ChunkOrderIsLargest(bases: seq<nat>, off: nat, size: nat, maxOrder: nat, k: nat)
    requires off < size < WORD
    ensures k <= ChunkOrder(bases, off, size, maxOrder)
            <==> AlignedAt(bases, off, k) && k <= 63 && Pow2(k) <= size - off && k <= maxOrder
  {
    AlignedChoice(bases, off, k);
    FittingChoice(size - off, k);
  }

  lemma MaxBitAligned(k: nat)
    ensures Aligned(MAX_BIT, k) <==> k <= 63
  {
    var n: nat :| n == 63 && Pow2(n) == MAX_BIT by { WordIsPow2(); }
    Pow2Aligned(n, k);
  }

  lemma ChunkFits(bases: seq<nat>, off: nat, size: nat, maxOrder: nat)
    requires off < size < WORD
    ensures var o := ChunkOrder(bases, off, size, maxOrder);
            AlignedAt(bases, off, o) && o <= 63 && off + Pow2(o) <= size && o <= maxOrder
  {
    ChunkOrderIsLargest(bases, off, size, maxOrder, ChunkOrder(bases, off, size, maxOrder));
  }

  /** A sequence of orders cuts [off, size) into permitted chunks, each aligned at every base. */
  predicate Tiles(bases: seq<nat>, off: nat, size: nat, maxOrder: nat, orders: seq<nat>)
    decreases |orders|
  {
    if orders == [] then off == size
    else
      && AlignedAt(bases, off, orders[0])
      && orders[0] <= maxOrder
      && off + Pow2(orders[0]) <= size
      && Tiles(bases, off + Pow2(orders[0]), size, maxOrder, orders[1..])
  }

  /** The orders of the chunks the iterator yields from offset `off` on. */
  function Chunks(bases: seq<nat>, off: nat, size: nat, maxOrder: nat): (r: seq<nat>)
    requires off <= size < WORD
    ensures Tiles(bases, off, size, maxOrder, r)
    decreases size - off
  {
    if off == size then []
    else
      ChunkFits(bases, off, size, maxOrder);
      var o := ChunkOrder(bases, off, size, maxOrder);
      [o] + Chunks(bases, off + Pow2(o), size, maxOrder)
  }

  /** The number of addresses in chunks of these orders. */
  ghost function Total(orders: seq<nat>): nat {
    if orders == [] then 0 else Pow2(orders[0]) + Total(orders[1..])
  }

  /** The chunks of a tiling add up to the whole. */
  lemma {:induction false} TilesAddUp(bases: seq<nat>, off: nat, size: nat, maxOrder: nat, orders: seq<nat>)
    requires Tiles(bases, off, size, maxOrder, orders)
    ensures off + Total(orders) == size
    decreases |orders|
  {
    hide Pow2, Aligned;
    if orders != [] {
      TilesAddUp(bases, off + Pow2(orders[0]), size, maxOrder, orders[1..]);
    }
  }

  /** Each chunk of a tiling has a permitted order and begins, at every base, at a multiple of its size. */
  lemma {:induction false} TilePlaced(bases: seq<nat>, off: nat, size: nat, maxOrder: nat, orders: seq<nat>,
                                      k: nat, i: nat)
    requires Tiles(bases, off, size, maxOrder, orders) && k < |orders| && i < |bases|
    ensures orders[k] <= maxOrder && (bases[i] + off + Total(orders[..k])) % Pow2(orders[k]) == 0
    decreases |orders|
  {
    hide Pow2, Aligned;
    if k == 0 {
      AlignedIsMultiple(bases[i] + off, orders[0]);
    } else {
      TilePlaced(bases, off + Pow2(orders[0]), size, maxOrder, orders[1..], k - 1, i);
      assert orders[..k][1..] == orders[1..][..k - 1];
    }
  }

  /** The range of order k at offset p lies inside a single chunk. */
  predicate InOneChunk(off: nat, orders: seq<nat>, p: nat, k: nat)
    decreases |orders|
  {
    && orders != []
    && (|| (off <= p && p + Pow2(k) <= off + Pow2(orders[0]))
        || InOneChunk(off + Pow2(orders[0]), orders[1..], p, k))
  }

  /** An aligned permitted sub-range that starts inside the chunk at `off` lies inside it. */
  lemma InsideChunk(bases: seq<nat>, off: nat, size: nat, maxOrder: nat, p: nat, k: nat)
    requires bases != [] && off < size < WORD
    requires AlignedAt(bases, p, k) && k <= maxOrder && p + Pow2(k) <= size
    requires off <= p < off + Pow2(ChunkOrder(bases, off, size, maxOrder))
    ensures p + Pow2(k) <= off + Pow2(ChunkOrder(bases, off, size, maxOrder))
  {
    var o := ChunkOrder(bases, off, size, maxOrder);
    ChunkFits(bases, off, size, maxOrder);
    var a, b := bases[0] + p, bases[0] + off;
    if k <= o {
      Nested(a, k, b, o, a);
    } else {
      Nested(b, o, a, k, a);
      Pow2Word(k);
      ChunkOrderIsLargest(bases, off, size, maxOrder, k);
    }
  }

  /** Coarsest partition: every aligned sub-range of permitted order lies inside one chunk. */
  lemma {:induction false} CoarsestPartition(bases: seq<nat>, off: nat, size: nat, maxOrder: nat, p: nat, k: nat)
    requires bases != [] && off <= p && size < WORD
    requires AlignedAt(bases, p, k) && k <= maxOrder && p + Pow2(k) <= size
    ensures InOneChunk(off, Chunks(bases, off, size, maxOrder), p, k)
    decreases size - off
  {
    hide ChunkOrder;
    ChunkFits(bases, off, size, maxOrder);
    var end := off + Pow2(ChunkOrder(bases, off, size, maxOrder));
    if p < end {
      InsideChunk(bases, off, size, maxOrder, p, k);
    } else {
      CoarsestPartition(bases, end, size, maxOrder, p, k);
      assert Chunks(bases, off, size, maxOrder)[1..] == Chunks(bases, end, size, maxOrder);
    }
  }

  /** Fewest chunks: no other permitted aligned tiling of the interval has fewer. */
  lemma {:induction false} FewestChunks(bases: seq<nat>, off: nat, size: nat, maxOrder: nat, other: seq<nat>)
    requires bases != [] && off <= size < WORD
    requires Tiles(bases, off, size, maxOrder, other)
    ensures |Chunks(bases, off, size, maxOrder)| <= |other|
    decreases size - off
  {
    hide ChunkOrder;
    if off < size {
      ChunkFits(bases, off, size, maxOrder);
      var o := ChunkOrder(bases, off, size, maxOrder);
      var j := SkipChunk(bases, off, size, maxOrder, off, other);
      FewestChunks(bases, off + Pow2(o), size, maxOrder, other[j..]);
    }
  }

  /** Any other tiling has a cut where the chunk at `off` ends. */
  lemma {:induction false} SkipChunk(bases: seq<nat>, off: nat, size: nat, maxOrder: nat, at: nat, other: seq<nat>)
      returns (j: nat)
    requires bases != [] && off < size < WORD
    requires off <= at < off + Pow2(ChunkOrder(bases, off, size, maxOrder)) <= size
    requires Tiles(bases, at, size, maxOrder, other)
    ensures 1 <= j <= |other|
    ensures Tiles(bases, off + Pow2(ChunkOrder(bases, off, size, maxOrder)), size, maxOrder, other[j..])
    decreases |other|
  {
    var end := off + Pow2(ChunkOrder(bases, off, size, maxOrder));
    InsideChunk(bases, off, size, maxOrder, at, other[0]);
    if at + Pow2(other[0]) == end {
      j := 1;
    } else {
      var i := SkipChunk(bases, off, size, maxOrder, at + Pow2(other[0]), other[1..]);
      j := i + 1;
      assert other[j..] == other[1..][i..];
    }
  }

  /** `order_range_<N>::iterator`. */
  class Iterator {
    const bases: seq<nat>
    const size: nat
    ghost var off: nat
    const maxOrderChoice: nat
    var base: seq<nat>
    var restSize: nat
    var currentStep: nat

    /** The iterator stands at offset `off`, and its step is the chunk that begins there. */
    ghost predicate Valid()
      reads this
    {
      && off <= size < WORD
      && base == Shift(bases, off)
      && restSize == size - off
      && (off < size ==> currentStep == Pow2(ChunkOrder(bases, off, size, maxOrderChoice)))
    }

    /** Comparison with the range's `end()`, which stands behind the last chunk with nothing left. */
    predicate AtEnd()
      reads this
      ensures Valid() ==> (AtEnd() <==> off == size)
    {
      base == Shift(bases, size) && restSize == 0
    }

    constructor (bs: seq<nat>, sz: nat, mo: nat)
      requires sz < WORD && forall i | 0 <= i < |bs| :: bs[i] < WORD
      ensures Valid() && bases == bs && size == sz && maxOrderChoice == mo && off == 0
    {
      bases, size, off := bs, sz, 0;
      base, restSize, maxOrderChoice, currentStep := bs, sz, mo, 0;
      new;
      assert forall i | 0 <= i < |bs| :: (bs[i] + 0) % WORD == bs[i];
      UpdateStep();
    }

    method UpdateStep()
      requires off <= size < WORD && base == Shift(bases, off) && restSize == size - off
      modifies this`currentStep
      ensures Valid()
    {
      if restSize == 0 {
        return;
      }
      var mixBase := 0;
      var i := 0;
      while i < |base|
        invariant 0 <= i <= |base|
        invariant mixBase == MixBase(base[..i])
      {
        assert base[..i + 1][..i] == base[..i];
        mixBase := Or(mixBase, base[i]);
        i := i + 1;
      }
      assert base[..i] == base;
      currentStep := Pow2(StepOrder(mixBase, restSize, maxOrderChoice));
    }

    /** `operator++`: moves every base past the current chunk. */
    method Advance()
      requires Valid() && off < size
      modifies this
      ensures Valid()
      ensures off == old(off) + Pow2(ChunkOrder(bases, old(off), size, maxOrderChoice))
    {
      hide ChunkOrder, Pow2;
      ChunkFits(bases, off, size, maxOrderChoice);
      var step := currentStep;
      var moved := Shift(base, step);
      forall i | 0 <= i < |base|
        ensures moved[i] == (bases[i] + (off + step)) % WORD
      {
        AddWrapped(bases[i] + off, step);
      }
      off := off + step;
      base := moved;
      assert base == Shift(bases, off);
      restSize := restSize - step;
      UpdateStep();
    }
  }

  lemma AddWrapped(x: int, y: int)
    ensures (x % WORD + y) % WORD == (x + y) % WORD
  {
    var q := x / WORD;
    assert x == q * WORD + x % WORD;
    DivModUnique(x + y, WORD, q + (x % WORD + y) / WORD, (x % WORD + y) % WORD);
  }
}
