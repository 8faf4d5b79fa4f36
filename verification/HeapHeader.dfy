/**
 The first word of a heap block header: the size in the low 62 bits, `is_free` in bit 62 and
 `prev_free` in bit 63, read and written with masks.
 */
module HeapHeader {
  import opened Bits

  const FREE_BIT: nat := 0x4000_0000_0000_0000
  const PREV_BIT: nat := 0x8000_0000_0000_0000

  /** The word with the given fields. */
  function Encode(size: nat, prevFree: bool, isFree: bool): nat {
    size + (if isFree then FREE_BIT else 0) + (if prevFree then PREV_BIT else 0)
  }

  function Size(raw: nat): nat {
    And(raw, FREE_BIT - 1)
  }

  function WithSize(raw: nat, s: nat): nat {
    Or(And(raw, PREV_BIT + FREE_BIT), And(s, FREE_BIT - 1))
  }

  predicate PrevFree(raw: nat) {
    And(raw, PREV_BIT) != 0
  }

  function WithPrevFree(raw: nat, val: bool): nat {
    Or(And(raw, WORD - 1 - PREV_BIT), if val then PREV_BIT else 0)
  }

  predicate IsFree(raw: nat) {
    And(raw, FREE_BIT) != 0
  }

  function WithIsFree(raw: nat, val: bool): nat {
    Or(And(raw, WORD - 1 - FREE_BIT), if val then FREE_BIT else 0)
  }

  // ----- the masks on an encoded word

  lemma Powers()
    ensures Pow2(62) == FREE_BIT && Pow2(63) == PREV_BIT && Pow2(64) == WORD
  {
    WordIsPow2();
  }

  /** The low 62 bits and the two flag bits of an encoded word. */
  lemma EncodedBits(size: nat, prevFree: bool, isFree: bool, n: nat)
    requires size < FREE_BIT && n == 62 && Pow2(n) == FREE_BIT
    ensures var raw := Encode(size, prevFree, isFree);
            && Low(raw, n) == size && Aligned(raw - size, n)
            && (Bit(raw, n) <==> isFree) && (Bit(raw, n + 1) <==> prevFree)
  {
    hide Low, Bit, Aligned;
    var low := size + if isFree then FREE_BIT else 0;
    var prev := if prevFree then PREV_BIT else 0;
    var raw := prev + low;
    assert Pow2(n + 1) == PREV_BIT && Pow2(n + 2) == WORD;
    hide Pow2;
    assert Aligned(prev, n + 1) && Aligned(raw - size, n) by {
      Pow2Aligned(n, n);
      Pow2Aligned(n + 1, n + 1);
      Pow2Aligned(n + 1, n);
      ZeroAligned(n);
      ZeroAligned(n + 1);
      AlignedAdd(if isFree then FREE_BIT else 0, prev, n);
    }
    LowOfSum(raw - size, size, n);
    LowOfSum(prev, low, n + 1);
    LowSmall(raw, n + 2);
    BitIsDigit(raw, n);
    BitIsDigit(raw, n + 1);
  }

  /** Reading: every field of an encoded word comes back. */
  lemma DecodeEncoded(size: nat, prevFree: bool, isFree: bool)
    requires size < FREE_BIT
    ensures var raw := Encode(size, prevFree, isFree);
            Size(raw) == size && PrevFree(raw) == prevFree && IsFree(raw) == isFree
  {
    hide And, Low, Bit;
    var n: nat :| n == 62 && Pow2(n) == FREE_BIT && Pow2(n + 1) == PREV_BIT by { Powers(); }
    hide Pow2;
    var raw := Encode(size, prevFree, isFree);
    EncodedBits(size, prevFree, isFree, n);
    AndMask(raw, n);
    AndPow2(raw, n);
    AndPow2(raw, n + 1);
  }

  /** Writing: each setter changes its own field and no other. */
  lemma SetEncodedSize(size: nat, prevFree: bool, isFree: bool, s: nat)
    requires size < FREE_BIT && s < FREE_BIT
    ensures WithSize(Encode(size, prevFree, isFree), s) == Encode(s, prevFree, isFree)
  {
    hide And, Or, Low, Bit, Aligned;
    var n: nat :| n == 62 && Pow2(n) == FREE_BIT && Pow2(n + 2) == WORD by { Powers(); }
    hide Pow2;
    var raw := Encode(size, prevFree, isFree);
    EncodedBits(size, prevFree, isFree, n);
    AndHighMask(raw, n, n + 2);
    AndMask(s, n);
    LowSmall(s, n);
    OrDisjoint(raw - size, s, n);
  }

  lemma SetEncodedPrevFree(size: nat, prevFree: bool, isFree: bool, val: bool)
    requires size < FREE_BIT
    ensures WithPrevFree(Encode(size, prevFree, isFree), val) == Encode(size, val, isFree)
  {
    hide And, Or, Low, Bit, Aligned;
    var n: nat :| n == 62 && Pow2(n) == FREE_BIT && Pow2(n + 1) == PREV_BIT && Pow2(n + 2) == WORD by { Powers(); }
    hide Pow2;
    var raw := Encode(size, prevFree, isFree);
    EncodedBits(size, prevFree, isFree, n);
    AndPow2(raw, n + 1);
    AndComplement(raw, PREV_BIT, n + 2);
    var cleared := Encode(size, false, isFree);
    assert And(raw, WORD - 1 - PREV_BIT) == cleared;
    Pow2Aligned(n + 1, n + 1);
    if val { OrDisjoint(PREV_BIT, cleared, n + 1); } else { OrPlusAnd(cleared, 0); AndZero(cleared); }
  }

  lemma SetEncodedIsFree(size: nat, prevFree: bool, isFree: bool, val: bool)
    requires size < FREE_BIT
    ensures WithIsFree(Encode(size, prevFree, isFree), val) == Encode(size, prevFree, val)
  {
    hide And, Or, Low, Bit, Aligned;
    var n: nat :| n == 62 && Pow2(n) == FREE_BIT && Pow2(n + 2) == WORD by { Powers(); }
    hide Pow2;
    var raw := Encode(size, prevFree, isFree);
    EncodedBits(size, prevFree, isFree, n);
    AndPow2(raw, n);
    AndComplement(raw, FREE_BIT, n + 2);
    var cleared := Encode(size, prevFree, false);
    assert And(raw, WORD - 1 - FREE_BIT) == cleared;
    OrPlusAnd(cleared, if val then FREE_BIT else 0);
    EncodedBits(size, prevFree, false, n);
    AndPow2(cleared, n);
    AndZero(cleared);
  }

  lemma AndZero(x: nat)
    ensures And(x, 0) == 0
  {
  }
}
