/**
 Naturally aligned power-of-two ranges [a, a + 2^o): any two of them are nested or disjoint.
 */
module Dyadic {
  import opened Bits

  predicate In(x: int, a: int, o: nat) {
    a <= x < a + Pow2(o)
  }

  /** Start of the aligned range of the next order that contains the one at a. */
  function Parent(a: int, o: nat): int {
    if Aligned(a, o + 1) then a else a - Pow2(o)
  }

  lemma ParentAligned(a: int, o: nat)
    requires Aligned(a, o)
    ensures Aligned(Parent(a, o), o + 1)
    ensures a >= 0 ==> Parent(a, o) >= 0
  {
    if !Aligned(a, o + 1) {
      AlignedStep(a, o);
      if a >= 0 {
        ZeroAligned(o);
        ZeroAligned(o + 1);
        AlignedApart(0, a, o);
      }
    }
  }

  /** Two aligned ranges that share a point are nested, the smaller order inside. */
  lemma {:induction false} Nested(a: int, o: nat, b: int, p: nat, x: int)
    requires o <= p && Aligned(a, o) && Aligned(b, p)
    requires In(x, a, o) && In(x, b, p)
    ensures b <= a && a + Pow2(o) <= b + Pow2(p)
    decreases p - o
  {
    if o == p {
      if a < b { AlignedApart(a, b, o); } else if b < a { AlignedApart(b, a, o); }
    } else {
      ParentAligned(a, o);
      Nested(Parent(a, o), o + 1, b, p, x);
    }
  }

  /** Both halves of an aligned range are aligned. */
  lemma Halves(a: int, o: nat)
    requires o > 0 && Aligned(a, o)
    ensures Aligned(a, o - 1) && Aligned(a + Pow2(o - 1), o - 1)
  {
    AlignedDown(a, o - 1, o);
    Pow2Aligned(o - 1, o - 1);
    AlignedAdd(a, Pow2(o - 1), o - 1);
  }

  /** An aligned range that starts in the address space also ends in it. */
  lemma EndsInWord(a: nat, o: nat)
    requires a < WORD && o < 64 && Aligned(a, o)
    ensures a + Pow2(o) <= WORD
  {
    var k: nat :| k == 64 && Pow2(k) == WORD by { WordIsPow2(); }
    ZeroAligned(k);
    Nested(a, o, 0, k, a);
  }

  /** 2^c consecutive addresses contain an aligned range of every order below c. */
  lemma ContainsAligned(a: nat, c: nat, o: nat) returns (b: nat)
    requires o < c
    ensures Aligned(b, o) && a <= b && b + Pow2(o) <= a + Pow2(c)
  {
    Pow2Monotonic(o, c);
    RoundDown(a, o);
    b := a - Low(a, o) + Pow2(o);
    Pow2Aligned(o, o);
    AlignedAdd(a - Low(a, o), Pow2(o), o);
  }
}
