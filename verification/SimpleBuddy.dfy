/**
 A buddy allocator that remembers the order of every allocation and claims fresh memory from
 another allocator when it runs out.
 */
module SimpleBuddy {
  import opened Bits
  import opened Dyadic
  import opened FreeBlocks
  import opened Wrappers
  import opened Buddy

  const MIN_CLAIM_ORDER: nat := 12
  const MAX_CLAIM_ORDER: nat := 63

  /** Order of the memory claimed for a request; the successor is computed in eight bits. */
  function ClaimOrder(order: nat): nat {
    var next := (order + 1) % 256;
    if next < MIN_CLAIM_ORDER + 1 then MIN_CLAIM_ORDER + 1
    else if next > MAX_CLAIM_ORDER then MAX_CLAIM_ORDER
    else next
  }

  /** The claim is the least order above the requested one that holds at least two pages. */
  lemma ClaimOrderIsLeast(order: nat)
    requires order < 63
    ensures ClaimOrder(order) > order && Pow2(ClaimOrder(order)) >= 8192
    ensures forall o: nat | o > order && Pow2(o) >= 8192 :: ClaimOrder(order) <= o
  {
    hide Pow2;
    TwoPages();
    Pow2Monotonic(13, ClaimOrder(order));
    forall o: nat | o > order && Pow2(o) >= 8192
      ensures o >= 13
    {
      if o < 13 {
        Pow2Monotonic(o, 13);
      }
    }
  }

  /** For larger orders it is the largest one, except that the successor of 255 wraps. */
  lemma ClaimOrderAtMost(order: nat)
    requires 63 <= order < 256
    ensures ClaimOrder(order) == if order == 255 then 13 else 63
  {
  }

  /** The remembered allocations are aligned ranges, disjoint from each other and from the free memory. */
  ghost predicate LiveRanges(fb: Blocks, live: map<nat, nat>) {
    && (forall a | a in live :: live[a] < |fb| && Aligned(a, live[a]) && a < WORD && NoneFree(fb, a, live[a]))
    && (forall a, b | a in live && b in live && In(a, b, live[b]) :: a == b)
  }

  /** No address of [a, b) is free or belongs to a remembered allocation. */
  ghost predicate Fresh(fb: Blocks, live: map<nat, nat>, a: nat, b: nat) {
    && (forall x | a <= x < b :: !FreeAt(fb, x))
    && (forall x, c | c in live && In(x, c, live[c]) :: !(a <= x < b))
  }

  /** Growing the free memory by a fresh range keeps the remembered allocations apart from it. */
  lemma ClaimKeepsLive(fb: Blocks, live: map<nat, nat>, a: nat, b: nat, fb2: Blocks)
    requires LiveRanges(fb, live) && Fresh(fb, live, a, b) && AddsRange(fb, a, b, fb2) && |fb2| == |fb|
    ensures LiveRanges(fb2, live)
  {
    hide FreeAt;
  }

  /** A new allocation is none of the remembered ones: the trap for a duplicate address is unreachable. */
  lemma AllocKeepsLive(fb: Blocks, live: map<nat, nat>, order: nat, a: nat, fb2: Blocks)
    requires LiveRanges(fb, live) && order < |fb| && Allocates(fb, order, Some(a), fb2)
    ensures a !in live && LiveRanges(fb2, live[a := order])
  {
    hide FreeAt, Chosen, WellFormed;
    assert In(a, a, order);
    forall c | c in live
      ensures !In(a, c, live[c]) && !In(c, a, order)
    {
      assert In(c, c, live[c]);
    }
  }

  /** An address belongs to at most one remembered allocation. */
  lemma LiveApart(fb: Blocks, live: map<nat, nat>, a: nat, c: nat, x: int)
    requires LiveRanges(fb, live) && a in live && c in live
    ensures In(x, a, live[a]) && In(x, c, live[c]) ==> a == c
  {
    hide FreeAt;
    if In(x, a, live[a]) && In(x, c, live[c]) {
      var small, large := if live[a] <= live[c] then a else c, if live[a] <= live[c] then c else a;
      Nested(small, live[small], large, live[large], x);
    }
  }

  lemma FreeKeepsLive(fb: Blocks, live: map<nat, nat>, a: nat, fb2: Blocks)
    requires LiveRanges(fb, live) && a in live && Releases(fb, a, live[a], fb2)
    ensures LiveRanges(fb2, live - {a})
  {
    hide FreeAt, WellFormed;
    forall c, x | c in live && c != a && In(x, c, live[c])
      ensures !In(x, a, live[a])
    {
      LiveApart(fb, live, a, c, x);
    }
  }

  /** Some aligned range of the order lies in the free memory together with [a, b). */
  ghost predicate Available(fb: Blocks, a: nat, b: nat, order: nat) {
    exists c: nat :: Aligned(c, order) && forall x | In(x, c, order) :: FreeAt(fb, x) || a <= x < b
  }

  lemma AvailableIff(fb: Blocks, a: nat, b: nat, order: nat, fb2: Blocks)
    requires AddsRange(fb, a, b, fb2)
    ensures SomeRangeFree(fb2, order) <==> Available(fb, a, b, order)
  {
    hide FreeAt, Aligned;
    if SomeRangeFree(fb2, order) {
      var c: nat :| Aligned(c, order) && AllFree(fb2, c, order);
    }
    if Available(fb, a, b, order) {
      var c: nat :| Aligned(c, order) && forall x | In(x, c, order) :: FreeAt(fb, x) || a <= x < b;
      assert AllFree(fb2, c, order);
    }
  }

  /** A fresh claim holds an aligned range of the requested order, wherever it lies. */
  lemma ClaimSuffices(fb: Blocks, order: nat, p: nat)
    requires order < 63
    ensures Available(fb, p, p + Pow2(ClaimOrder(order)), order)
  {
    hide FreeAt;
    var c := ClaimOrder(order);
    var b := ContainsAligned(p, c, order);
    assert forall x | In(x, b, order) :: p <= x < p + Pow2(c);
  }

  /** An interval whose end has wrapped to 0 holds nothing. */
  lemma EmptyClaim(fb: Blocks, p: nat, order: nat)
    ensures Available(fb, p, 0, order) <==> SomeRangeFree(fb, order)
  {
    hide FreeAt, Aligned;
    if SomeRangeFree(fb, order) {
      var c: nat :| Aligned(c, order) && AllFree(fb, c, order);
    }
    if Available(fb, p, 0, order) {
      var c: nat :| Aligned(c, order) && forall x | In(x, c, order) :: FreeAt(fb, x) || p <= x < 0;
      assert AllFree(fb, c, order);
    }
  }

  /** End of the claimed interval, in 64-bit arithmetic. */
  function ClaimEnd(order: nat, p: nat): (b: nat)
    ensures b < WORD
  {
    (p + Pow2(ClaimOrder(order))) % WORD
  }

  /** A claim makes up for missing memory if and only if it does not end at the top of the address space. */
  lemma RetryIff(fb: Blocks, order: nat, p: nat)
    requires order < 63 && !SomeRangeFree(fb, order) && p + Pow2(ClaimOrder(order)) <= WORD
    ensures Available(fb, p, ClaimEnd(order, p), order) <==> p + Pow2(ClaimOrder(order)) < WORD
  {
    hide FreeAt, Aligned, Pow2, Available, SomeRangeFree;
    if p + Pow2(ClaimOrder(order)) < WORD {
      ClaimSuffices(fb, order, p);
    } else {
      EmptyClaim(fb, p, order);
    }
  }

  /** The two topmost pages, claimed by an allocator without memory, do not help a request for one page. */
  lemma TopClaimLost(fb: Blocks)
    requires forall x :: !FreeAt(fb, x)
    ensures WORD - 8192 + Pow2(ClaimOrder(12)) == WORD && Fresh(fb, map[], WORD - 8192, WORD)
    ensures !SomeRangeFree(fb, 12) && !Available(fb, WORD - 8192, ClaimEnd(12, WORD - 8192), 12)
  {
    hide FreeAt, Pow2, SomeRangeFree, Available;
    TwoPages();
    NothingFree(fb, 12);
    RetryIff(fb, 12, WORD - 8192);
  }

  lemma TwoPages()
    ensures Pow2(13) == 8192
  {
    assert Pow2(4) == 16;
    Pow2Add(4, 4);
    Pow2Add(8, 5);
  }

  lemma NothingFree(fb: Blocks, order: nat)
    requires forall x :: !FreeAt(fb, x)
    ensures !SomeRangeFree(fb, order)
  {
    hide FreeAt, Aligned;
    forall c: nat ensures !AllFree(fb, c, order) {
      assert In(c, c, order);
    }
  }

  class SimpleBuddyAllocator {
    const buddy: BuddyAllocator
    var allocMap: map<nat, nat>

    ghost predicate Valid()
      reads this, buddy.blocks
    {
      buddy.Valid() && LiveRanges(buddy.blocks.freeBlocks, allocMap)
    }

    constructor (maxOrd: nat)
      requires maxOrd <= 63
      ensures Valid() && fresh(buddy.blocks) && buddy.maxOrder == maxOrd && allocMap == map[]
      ensures forall x :: !FreeAt(buddy.blocks.freeBlocks, x)
    {
      buddy := new BuddyAllocator(maxOrd);
      allocMap := map[];
    }

    /**
     `claim` is what the allocation function returns when it is called: nothing, or the start of
     2^ClaimOrder(order) bytes of fresh memory. `claimed` tells whether it was called.
     */
    method Alloc(order: nat, claim: Option<nat>) returns (r: Option<nat>, claimed: bool)
      requires Valid()
      requires claim.Some? ==>
                 && claim.value + Pow2(ClaimOrder(order)) <= WORD
                 && Fresh(buddy.blocks.freeBlocks, allocMap, claim.value, claim.value + Pow2(ClaimOrder(order)))
      modifies this, buddy.blocks
      ensures Valid()
      ensures claimed <==> order > buddy.maxOrder || !SomeRangeFree(old(buddy.blocks.freeBlocks), order)
      ensures r.None? ==> claimed && allocMap == old(allocMap)
      ensures claimed && order < 63 && order <= buddy.maxOrder && claim.Some? ==>
                (r.Some? <==> claim.value + Pow2(ClaimOrder(order)) < WORD)
      ensures r.Some? <==>
                && order <= buddy.maxOrder
                && (|| SomeRangeFree(old(buddy.blocks.freeBlocks), order)
                    || (claim.Some? && Available(old(buddy.blocks.freeBlocks), claim.value,
                                                 ClaimEnd(order, claim.value), order)))
      ensures r.Some? ==> r.value !in old(allocMap) && allocMap == old(allocMap)[r.value := order]
      ensures forall x ::
                FreeAt(buddy.blocks.freeBlocks, x) <==>
                && (|| FreeAt(old(buddy.blocks.freeBlocks), x)
                    || (claimed && claim.Some? && claim.value <= x < ClaimEnd(order, claim.value)))
                && !(r.Some? && In(x, r.value, order))
      ensures r.Some? ==> Aligned(r.value, order) && r.value + Pow2(order) <= WORD
    {
      hide FreeAt, WellFormed, Chosen, Pow2, Available, SomeRangeFree;
      ghost var fb := buddy.blocks.freeBlocks;
      r := buddy.Alloc(order);
      claimed := r.None?;
      if r.None? {
        if claim.None? {
          return;
        }
        var end := ClaimEnd(order, claim.value);
        buddy.ReclaimRange(claim.value, end);
        fb := buddy.blocks.freeBlocks;
        ClaimKeepsLive(old(buddy.blocks.freeBlocks), allocMap, claim.value, end, fb);
        if order < 63 && order <= buddy.maxOrder {
          RetryIff(old(buddy.blocks.freeBlocks), order, claim.value);
        }
        AvailableIff(old(buddy.blocks.freeBlocks), claim.value, end, order, fb);
        r := buddy.Alloc(order);
      }
      if r.None? {
        return;
      }
      AllocKeepsLive(fb, allocMap, order, r.value, buddy.blocks.freeBlocks);
      assert r.value !in allocMap;
      allocMap := allocMap[r.value := order];
    }

    /** Looking up an address that was never handed out throws before anything changes; `ok` is false then. */
    method Free(addr: nat) returns (ok: bool)
      requires Valid()
      modifies this, buddy.blocks
      ensures Valid()
      ensures ok <==> addr in old(allocMap)
      ensures !ok ==> allocMap == old(allocMap) && buddy.blocks.freeBlocks == old(buddy.blocks.freeBlocks)
      ensures ok ==>
                && allocMap == old(allocMap) - {addr}
                && Releases(old(buddy.blocks.freeBlocks), addr, old(allocMap)[addr], buddy.blocks.freeBlocks)
    {
      hide FreeAt, WellFormed;
      if addr !in allocMap {
        return false;
      }
      buddy.Free(addr, allocMap[addr]);
      FreeKeepsLive(old(buddy.blocks.freeBlocks), allocMap, addr, buddy.blocks.freeBlocks);
      allocMap := allocMap - {addr};
      return true;
    }

    /** The two-argument `free` hands in memory that is not a remembered allocation. */
    method AddMemory(addr: nat, order: nat)
      requires Valid() && Releasable(buddy.blocks.freeBlocks, addr, order)
      requires Fresh(buddy.blocks.freeBlocks, allocMap, addr, addr + Pow2(order))
      modifies buddy.blocks
      ensures Valid() && Releases(old(buddy.blocks.freeBlocks), addr, order, buddy.blocks.freeBlocks)
    {
      hide FreeAt, WellFormed;
      buddy.Free(addr, order);
      ClaimKeepsLive(old(buddy.blocks.freeBlocks), allocMap, addr, addr + Pow2(order), buddy.blocks.freeBlocks);
    }
  }
}
