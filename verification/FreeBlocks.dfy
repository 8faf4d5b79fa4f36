/**
 The block manager's bookkeeping as a value: for every order, the set of addresses of the free
 blocks of that order. A block (o, a) stands for the addresses [a, a + 2^o).
 */
module FreeBlocks {
  import opened Bits
  import opened Dyadic

  type Blocks = seq<set<nat>>

  predicate HasBlock(fb: Blocks, o: nat, a: nat) {
    o < |fb| && a in fb[o]
  }

  /** Address x lies in some free block. */
  ghost predicate FreeAt(fb: Blocks, x: int) {
    exists o: nat, a: nat :: HasBlock(fb, o, a) && In(x, a, o)
  }

  ghost predicate AllFree(fb: Blocks, a: nat, o: nat) {
    forall x | In(x, a, o) :: FreeAt(fb, x)
  }

  ghost predicate NoneFree(fb: Blocks, a: nat, o: nat) {
    forall x | In(x, a, o) :: !FreeAt(fb, x)
  }

  ghost predicate SameFree(fb: Blocks, fb2: Blocks) {
    forall x :: FreeAt(fb, x) <==> FreeAt(fb2, x)
  }

  /** Every block is naturally aligned and lies in the address space. */
  ghost predicate AllAligned(fb: Blocks) {
    forall o: nat, a: nat | HasBlock(fb, o, a) :: Aligned(a, o) && a < WORD
  }

  /** No block begins inside another one; for aligned blocks this is disjointness. */
  ghost predicate Disjoint(fb: Blocks) {
    forall o: nat, a: nat, p: nat, b: nat | HasBlock(fb, o, a) && HasBlock(fb, p, b) && In(a, b, p) ::
      o == p && a == b
  }

  ghost predicate Structured(fb: Blocks) {
    1 <= |fb| <= 64 && AllAligned(fb) && Disjoint(fb)
  }

  /** Both halves of the aligned range of order o + 1 at a are free blocks although they could be merged. */
  predicate BuddyPair(fb: Blocks, o: nat, a: nat) {
    o + 1 < |fb| && Aligned(a, o + 1) && HasBlock(fb, o, a) && HasBlock(fb, o, a + Pow2(o))
  }

  ghost predicate NoBuddies(fb: Blocks) {
    forall o: nat, a: nat :: !BuddyPair(fb, o, a)
  }

  /** The only mergeable pair, if any, is the one the block (o, a) belongs to. */
  ghost predicate NoBuddiesExcept(fb: Blocks, o: nat, a: nat) {
    forall p: nat, b: nat | BuddyPair(fb, p, b) :: p == o && (b == a || b + Pow2(o) == a)
  }

  ghost predicate WellFormed(fb: Blocks) {
    Structured(fb) && NoBuddies(fb)
  }

  /** Two blocks that share an address are the same block. */
  lemma SharedAddress(fb: Blocks, o: nat, a: nat, p: nat, b: nat, x: int)
    requires Structured(fb) && HasBlock(fb, o, a) && HasBlock(fb, p, b)
    ensures In(x, a, o) && In(x, b, p) ==> o == p && a == b
  {
    if In(x, a, o) && In(x, b, p) {
      if o <= p {
        Nested(a, o, b, p, x);
      } else {
        Nested(b, p, a, o, x);
      }
    }
  }

  // ----- completeness: the free blocks show every free aligned range

  /** An aligned range all of whose addresses are free lies inside one free block. */
  lemma {:induction false} RangeInBlock(fb: Blocks, a: nat, o: nat) returns (p: nat, b: nat)
    requires WellFormed(fb) && o < |fb| && Aligned(a, o) && AllFree(fb, a, o)
    ensures o <= p && HasBlock(fb, p, b) && b <= a && a + Pow2(o) <= b + Pow2(p)
    decreases o
  {
    if o == 0 {
      assert In(a, a, o);
      p, b :| HasBlock(fb, p, b) && In(a, b, p);
    } else {
      var h := Pow2(o - 1);
      Halves(a, o);
      assert forall x | In(x, a, o - 1) || In(x, a + h, o - 1) :: In(x, a, o);
      var p1, b1 := RangeInBlock(fb, a, o - 1);
      var p2, b2 := RangeInBlock(fb, a + h, o - 1);
      if p2 >= o { Nested(a, o, b2, p2, a + h); }
      SharedAddress(fb, p1, b1, p2, b2, a);
      assert p1 < o ==> BuddyPair(fb, o - 1, a);
      Nested(a, o, b1, p1, a);
      p, b := p1, b1;
    }
  }

  /** The blocks are exactly the maximal free aligned ranges. */
  lemma BlockIffMaximal(fb: Blocks, o: nat, a: nat)
    requires WellFormed(fb) && o < |fb|
    ensures HasBlock(fb, o, a) <==>
            && Aligned(a, o) && AllFree(fb, a, o)
            && (o + 1 < |fb| ==> Parent(a, o) < 0 || !AllFree(fb, Parent(a, o), o + 1))
  {
    if HasBlock(fb, o, a) {
      assert AllFree(fb, a, o);
      if o + 1 < |fb| {
        ParentAligned(a, o);
        if AllFree(fb, Parent(a, o), o + 1) {
          var p, b := RangeInBlock(fb, Parent(a, o), o + 1);
          SharedAddress(fb, o, a, p, b, a);
        }
      }
    } else if Aligned(a, o) && AllFree(fb, a, o) {
      var p, b := RangeInBlock(fb, a, o);
      if p > o {
        ParentAligned(a, o);
        Nested(Parent(a, o), o + 1, b, p, a);
        assert forall x | In(x, Parent(a, o), o + 1) :: In(x, b, p);
      }
    }
  }

  /** Canonicity: the per-order sets are a function of the set of free addresses alone. */
  lemma Canonical(fb: Blocks, fb2: Blocks)
    requires WellFormed(fb) && WellFormed(fb2) && |fb| == |fb2| && SameFree(fb, fb2)
    ensures fb == fb2
  {
    forall o | 0 <= o < |fb|
      ensures fb[o] == fb2[o]
    {
      forall a: nat
        ensures a in fb[o] <==> a in fb2[o]
      {
        BlockIffMaximal(fb, o, a);
        BlockIffMaximal(fb2, o, a);
      }
    }
  }

  // ----- splitting a block, and merging two buddies, which undoes it

  /** fb2 holds the two halves of the block (o, a) of fb in its place. */
  ghost predicate Splits(fb: Blocks, fb2: Blocks, o: nat, a: nat) {
    && |fb| == |fb2| && 0 < o && HasBlock(fb, o, a) && !HasBlock(fb2, o, a)
    && !HasBlock(fb, o - 1, a) && !HasBlock(fb, o - 1, a + Pow2(o - 1))
    && HasBlock(fb2, o - 1, a) && HasBlock(fb2, o - 1, a + Pow2(o - 1))
    && (forall p: nat, b: nat | HasBlock(fb, p, b) :: (p == o && b == a) || HasBlock(fb2, p, b))
    && (forall p: nat, b: nat | HasBlock(fb2, p, b) ::
          HasBlock(fb, p, b) || (p == o - 1 && (b == a || b == a + Pow2(o - 1))))
  }

  lemma SplitsSameFree(fb: Blocks, fb2: Blocks, o: nat, a: nat)
    requires Splits(fb, fb2, o, a)
    ensures SameFree(fb, fb2)
  {
    forall x
      ensures FreeAt(fb, x) <==> FreeAt(fb2, x)
    {
      if FreeAt(fb, x) {
        var p: nat, b: nat :| HasBlock(fb, p, b) && In(x, b, p);
        if p == o && b == a {
          assert In(x, a, o - 1) || In(x, a + Pow2(o - 1), o - 1);
        } else {
          assert HasBlock(fb2, p, b);
        }
      }
      if FreeAt(fb2, x) {
        var p: nat, b: nat :| HasBlock(fb2, p, b) && In(x, b, p);
        if !HasBlock(fb, p, b) {
          assert In(x, a, o);
        }
      }
    }
  }

  lemma SplitStructured(fb: Blocks, fb2: Blocks, o: nat, a: nat)
    requires Splits(fb, fb2, o, a) && Structured(fb)
    ensures Structured(fb2)
  {
    Halves(a, o);
    EndsInWord(a, o);
    forall p: nat, b: nat, q: nat, c: nat | HasBlock(fb2, p, b) && HasBlock(fb2, q, c) && In(b, c, q)
      ensures p == q && b == c
    {
      assert !HasBlock(fb, q, c) || !HasBlock(fb, p, b) ==> In(b, a, o);
      if HasBlock(fb, q, c) { SharedAddress(fb, o, a, q, c, b); }
    }
  }

  lemma MergeStructured(fb: Blocks, fb2: Blocks, o: nat, a: nat)
    requires Splits(fb, fb2, o, a) && Structured(fb2) && Aligned(a, o)
    ensures Structured(fb)
  {
    forall p: nat, b: nat | HasBlock(fb, p, b) && HasBlock(fb2, p, b)
      ensures !In(b, a, o)
    {
      assert In(b, a, o - 1) || In(b, a + Pow2(o - 1), o - 1) || !In(b, a, o);
    }
  }

  /** After a split the two halves are the only buddies that may have appeared. */
  lemma SplitBuddies(fb: Blocks, fb2: Blocks, o: nat, a: nat)
    requires Splits(fb, fb2, o, a) && Structured(fb) && NoBuddiesExcept(fb, o, a)
    ensures NoBuddiesExcept(fb2, o - 1, a)
  {
    Pow2Aligned(o - 1, o);
    forall p: nat, b: nat | BuddyPair(fb2, p, b)
      ensures p == o - 1 && b == a
    {
      var c := b + Pow2(p);
      assert HasBlock(fb, p, b) && HasBlock(fb, p, c) ==> BuddyPair(fb, p, b);
      AlignedAdd(a, Pow2(o - 1), o);
      if p == o - 1 { AlignedAdd(b, Pow2(o - 1), o); }
    }
  }

  /** After a merge only the merged block may have a buddy. */
  lemma MergeBuddies(fb: Blocks, fb2: Blocks, o: nat, a: nat, half: nat)
    requires Splits(fb, fb2, o, a) && Aligned(a, o)
    requires half == a || half == a + Pow2(o - 1)
    requires NoBuddiesExcept(fb2, o - 1, half)
    ensures NoBuddiesExcept(fb, o, a)
  {
    forall p: nat, b: nat | BuddyPair(fb, p, b)
      ensures p == o && (b == a || b + Pow2(o) == a)
    {
      assert HasBlock(fb2, p, b) && HasBlock(fb2, p, b + Pow2(p)) ==> BuddyPair(fb2, p, b);
    }
  }

  // ----- adding and removing a block

  lemma AddBlock(fb: Blocks, o: nat, a: nat)
    requires WellFormed(fb) && o < |fb| && Aligned(a, o) && a < WORD && NoneFree(fb, a, o)
    ensures a !in fb[o]
    ensures var fb2 := fb[o := fb[o] + {a}];
            && Structured(fb2) && NoBuddiesExcept(fb2, o, a)
            && forall x :: FreeAt(fb2, x) <==> FreeAt(fb, x) || In(x, a, o)
  {
    var fb2 := fb[o := fb[o] + {a}];
    assert HasBlock(fb2, o, a);
    assert forall p: nat, b: nat :: HasBlock(fb2, p, b) <==> HasBlock(fb, p, b) || (p == o && b == a);
    if a in fb[o] {
      assert In(a, a, o) && HasBlock(fb, o, a);
    }
    forall p: nat, b: nat | HasBlock(fb, p, b)
      ensures !In(a, b, p) && !In(b, a, o)
    {
      assert In(b, b, p);
      if In(a, b, p) { assert In(a, a, o); }
    }
    forall p: nat, b: nat | BuddyPair(fb2, p, b)
      ensures p == o && (b == a || b + Pow2(o) == a)
    {
      assert HasBlock(fb, p, b) && HasBlock(fb, p, b + Pow2(p)) ==> BuddyPair(fb, p, b);
    }
    forall x
      ensures FreeAt(fb2, x) <==> FreeAt(fb, x) || In(x, a, o)
    {
      if FreeAt(fb, x) {
        var p: nat, b: nat :| HasBlock(fb, p, b) && In(x, b, p);
        assert HasBlock(fb2, p, b);
      }
    }
  }

  lemma RemoveBlock(fb: Blocks, o: nat, a: nat)
    requires Structured(fb) && HasBlock(fb, o, a) && NoBuddiesExcept(fb, o, a)
    ensures var fb2 := fb[o := fb[o] - {a}];
            && WellFormed(fb2)
            && forall x :: FreeAt(fb2, x) <==> FreeAt(fb, x) && !In(x, a, o)
  {
    var fb2 := fb[o := fb[o] - {a}];
    assert forall p: nat, b: nat :: HasBlock(fb2, p, b) <==> HasBlock(fb, p, b) && !(p == o && b == a);
    assert forall p: nat, b: nat :: BuddyPair(fb2, p, b) ==> BuddyPair(fb, p, b);
    forall x
      ensures FreeAt(fb2, x) <==> FreeAt(fb, x) && !In(x, a, o)
    {
      if FreeAt(fb, x) {
        var p: nat, b: nat :| HasBlock(fb, p, b) && In(x, b, p);
        if In(x, a, o) { SharedAddress(fb, o, a, p, b, x); }
        else { assert HasBlock(fb2, p, b); }
      }
      if FreeAt(fb2, x) {
        var p: nat, b: nat :| HasBlock(fb2, p, b) && In(x, b, p);
        if In(x, a, o) { SharedAddress(fb, o, a, p, b, x); }
      }
    }
  }
}
