/**
 Orders of machine words: the highest and lowest set bit, the smallest power of two
 that holds a value, and alignment by masking.
 */
module OrderMath {
  import opened Bits

  /** Order of the highest set bit, 0 when there is none. */
  function HighBit(num: nat): (r: nat)
    ensures num == 0 ==> r == 0
    ensures num > 0 ==> Pow2(r) <= num < 2 * Pow2(r)
  {
    if num < 2 then 0 else 1 + HighBit(num / 2)
  }

  /** Order of the lowest set bit, 0 when there is none. */
  function LowBit(num: nat): (r: nat)
    ensures num == 0 ==> r == 0
    ensures num > 0 ==> Aligned(num, r) && !Aligned(num, r + 1)
  {
    if num == 0 || num % 2 == 1 then 0 else 1 + LowBit(num / 2)
  }

  lemma HighBitUnique(num: nat, r: nat)
    requires Pow2(r) <= num < 2 * Pow2(r)
    ensures HighBit(num) == r
  {
    if HighBit(num) < r {
      Pow2Monotonic(HighBit(num), r);
    } else if r < HighBit(num) {
      Pow2Monotonic(r, HighBit(num));
    }
  }

  /** A value is aligned to an order exactly when the order does not exceed its lowest set bit. */
  lemma AlignedIffLowBit(num: nat, o: nat)
    requires num > 0
    ensures Aligned(num, o) <==> o <= LowBit(num)
  {
    if o <= LowBit(num) {
      AlignedDown(num, o, LowBit(num));
    } else if Aligned(num, o) {
      AlignedDown(num, LowBit(num) + 1, o);
    }
  }

  lemma SmallNotAligned(num: nat, n: nat)
    requires 0 < num < Pow2(n)
    ensures !Aligned(num, n)
  {
    RoundDown(num, n);
    LowSmall(num, n);
  }

  method OrderMin(num: nat) returns (r: nat)
    requires num < WORD
    ensures r < 64
    ensures num == 0 ==> r == 0
    ensures num > 0 ==> num % Pow2(r) == 0 && num % Pow2(r + 1) != 0
    ensures r == LowBit(num)
  {
    var i := 0;
    while i < 64
      invariant 0 <= i <= 64
      invariant Aligned(num, i)
    {
      AndPow2(num, i);
      BitOfAligned(num, i);
      if And(num, Pow2(i)) != 0 {
        BitBound(num, i);
        AlignedIffLowBit(num, i);
        AlignedIffLowBit(num, i + 1);
        AlignedIsMultiple(num, i);
        AlignedIsMultiple(num, i + 1);
        return i;
      }
      i := i + 1;
    }
    assert num == 0 by {
      WordIsPow2();
      if num > 0 { SmallNotAligned(num, i); }
    }
    return 0;
  }

  method OrderMax(num: nat) returns (r: nat)
    requires num < WORD
    ensures r < 64
    ensures num == 0 ==> r == 0
    ensures num > 0 ==> Pow2(r) <= num < Pow2(r + 1)
    ensures r == HighBit(num)
  {
    var i: nat := 63;
    assert num < Pow2(i + 1) by { WordIsPow2(); }
    while i > 0
      invariant 0 <= i <= 63
      invariant num < Pow2(i + 1)
    {
      AndPow2(num, i);
      if And(num, Pow2(i)) != 0 {
        BitBound(num, i);
        HighBitUnique(num, i);
        return i;
      }
      TopBitClear(num, i);
      i := i - 1;
    }
    return 0;
  }

  /** `order_envelope`; a machine word may need order 64. */
  function OrderEnvelope(num: nat): (r: nat) {
    if Pow2(HighBit(num)) >= num then HighBit(num) else HighBit(num) + 1
  }

  /** The envelope is the smallest order whose power of two holds the value. */
  lemma EnvelopeIsSmallest(num: nat)
    ensures Pow2(OrderEnvelope(num)) >= num
    ensures forall o: nat | Pow2(o) >= num :: o >= OrderEnvelope(num)
    ensures num < WORD ==> OrderEnvelope(num) <= 64
  {
    forall o: nat | Pow2(o) >= num
      ensures o >= OrderEnvelope(num)
    {
      if num > 0 && o < HighBit(num) { Pow2Monotonic(o, HighBit(num)); }
    }
    Pow2Word(HighBit(num));
  }

  method ComputeEnvelope(num: nat) returns (r: nat)
    requires num < WORD
    ensures r == OrderEnvelope(num) && r <= 64
  {
    var high := OrderMax(num);
    r := if Pow2(high) >= num then high else high + 1;
  }

  /** On a power of two, `order_max` and `order_envelope` both give its order. */
  lemma OrderOfPow2(o: nat)
    ensures OrderEnvelope(Pow2(o)) == HighBit(Pow2(o)) == o
  {
    HighBitUnique(Pow2(o), o);
  }

  /** `is_aligned`, by masking. */
  predicate IsAligned(v: nat, o: nat) {
    And(v, Pow2(o) - 1) == 0
  }

  /** `align_down` on 64-bit words: clears the low bits. */
  function AlignDown(v: nat, o: nat): (r: nat)
    requires v < WORD && o <= 64
  {
    Pow2Word(o);
    And(v, WORD - Pow2(o))
  }

  /** `align_up` on 64-bit words, with the wrap-around of the addition. */
  function AlignUp(v: nat, o: nat): (r: nat)
    requires v < WORD && o <= 64
  {
    AlignDown((v + Pow2(o) - 1) % WORD, o)
  }

  lemma AlignDownMeaning(v: nat, o: nat)
    requires v < WORD && o < 64
    ensures IsAligned(v, o) <==> Aligned(v, o)
    ensures AlignDown(v, o) == v - Low(v, o)
    ensures Aligned(AlignDown(v, o), o)
  {
    hide And, Low;
    AndMask(v, o);
    RoundDown(v, o);
    var k: nat :| k == 64 && Pow2(k) == WORD by { WordIsPow2(); }
    AndHighMask(v, o, k);
  }

  /** Masking rounds up to the least multiple, except that it yields 0 when the addition wraps. */
  lemma AlignUpMeaning(v: nat, o: nat)
    requires v < WORD && o < 64
    ensures Aligned(AlignUp(v, o), o)
    ensures v + Pow2(o) - 1 < WORD ==> v <= AlignUp(v, o) < v + Pow2(o)
    ensures v + Pow2(o) - 1 >= WORD ==> AlignUp(v, o) == 0
  {
    hide And, Low, Pow2, Aligned;
    Pow2Word(o);
    var t := (v + Pow2(o) - 1) % WORD;
    var r := AlignUp(v, o);
    assert r == t - Low(t, o) && Aligned(r, o) by { AlignDownMeaning(t, o); }
    if v + Pow2(o) - 1 >= WORD {
      assert t < Pow2(o);
      LowSmall(t, o);
    }
  }
}
