/**
 The layout of a heap region: which blocks tile it, which are free, and the invariant that ties
 header flags, footers and the free list to it.
 */
module HeapLayout {
  import opened HeapMemory
  import opened Wrappers

  type Blocks = map<int, Block>

  /** The region ends behind block h, or another block begins there. */
  ghost predicate Followed(end: int, B: Blocks, h: int)
    requires h in B
  {
    End(h, B[h]) == end || End(h, B[h]) in B
  }

  ghost predicate Gapless(end: int, B: Blocks) {
    forall h {:trigger Followed(end, B, h)} | h in B :: Followed(end, B, h)
  }

  ghost predicate Placed(base: int, B: Blocks) {
    forall h | h in B :: base <= h && B[h].size >= 16
  }

  ghost predicate HeadersAligned(B: Blocks) {
    forall h | h in B :: h % 16 == 0
  }

  /** Blocks follow each other without gaps from base to end. */
  ghost predicate Tiled(base: int, end: int, B: Blocks) {
    base in B && Separate(B) && Placed(base, B) && Gapless(end, B)
  }

  /** The `prev_free` flag behind block h tells whether h is free. */
  ghost predicate FlagOk(B: Blocks, h: int)
    requires h in B
  {
    End(h, B[h]) in B ==> B[End(h, B[h])].prevFree == B[h].isFree
  }

  ghost predicate Flagged(base: int, B: Blocks) {
    && base in B && !B[base].prevFree
    && forall h {:trigger FlagOk(B, h)} | h in B :: FlagOk(B, h)
  }

  /** Free blocks carry a link and a footer; the payload of the others belongs to their owner. */
  ghost predicate Kinds(B: Blocks) {
    forall h | h in B ::
      if B[h].isFree then B[h].next.Some? && B[h].foot && B[h].data.None?
      else B[h].next.None? && !B[h].foot && B[h].data.Some?
  }

  /** Block h and the one behind it are not both free. */
  ghost predicate Apart(B: Blocks, h: int)
    requires h in B
  {
    End(h, B[h]) in B ==> !(B[h].isFree && B[End(h, B[h])].isFree)
  }

  ghost predicate Coalesced(B: Blocks) {
    forall h {:trigger Apart(B, h)} | h in B :: Apart(B, h)
  }

  ghost predicate Ascending(chain: seq<int>) {
    forall i, j | 0 <= i < j < |chain| :: chain[i] < chain[j]
  }

  /** The free list names exactly the free blocks. */
  ghost predicate Lists(B: Blocks, chain: seq<int>) {
    && (forall h | h in chain :: h in B && B[h].isFree && h > 0)
    && (forall h | h in B && B[h].isFree :: h in chain)
  }

  /** Address of the element after position i, 0 at the end. */
  function After(chain: seq<int>, i: int): int
    requires -1 <= i < |chain|
  {
    if i + 1 < |chain| then chain[i + 1] else 0
  }

  ghost predicate LinkOk(B: Blocks, chain: seq<int>, i: int)
    requires 0 <= i < |chain|
  {
    chain[i] in B && B[chain[i]].next == Some(After(chain, i))
  }

  ghost predicate Linked(B: Blocks, chain: seq<int>, list: int) {
    && list == After(chain, -1)
    && forall i {:trigger LinkOk(B, chain, i)} | 0 <= i < |chain| :: LinkOk(B, chain, i)
  }

  ghost predicate Chained(B: Blocks, chain: seq<int>, list: int) {
    Ascending(chain) && Lists(B, chain) && Linked(B, chain, list)
  }

  /** Everything except the absence of adjacent free blocks. */
  ghost predicate Consistent(base: int, end: int, B: Blocks, chain: seq<int>, list: int) {
    Tiled(base, end, B) && HeadersAligned(B) && Flagged(base, B) && Kinds(B) && Chained(B, chain, list)
  }

  // ----- single writes to a header

  function WithSize(B: Blocks, h: int, s: nat): Blocks
    requires h in B
  {
    B[h := B[h].(size := s, foot := false)]
  }

  function WithFree(B: Blocks, h: int, val: bool): Blocks
    requires h in B
  {
    B[h := B[h].(isFree := val)]
  }

  function WithPrevFree(B: Blocks, h: int, val: bool): Blocks
    requires h in B
  {
    B[h := B[h].(prevFree := val)]
  }

  function WithNext(B: Blocks, h: int, val: int): Blocks
    requires h in B
  {
    B[h := B[h].(next := Some(val))]
  }

  function WithFoot(B: Blocks, h: int): Blocks
    requires h in B
  {
    B[h := B[h].(foot := true)]
  }

  /** The payload is no longer its owner's. */
  function Disowned(B: Blocks, h: int): Blocks
    requires h in B
  {
    B[h := B[h].(data := None)]
  }

  // ----- neighbours

  /** Every block but the first has a left neighbour. */
  lemma {:induction false} LeftNeighbour(base: int, end: int, B: Blocks, h: int, k: int) returns (p: int)
    requires Tiled(base, end, B) && h in B && k in B && k < h
    ensures p in B && p < h && End(p, B[p]) == h
    decreases h - k
  {
    assert Followed(end, B, k);
    if End(k, B[k]) == h {
      p := k;
    } else {
      InRegion(base, end, B, h);
      p := LeftNeighbour(base, end, B, h, End(k, B[k]));
    }
  }

  /** Blocks end inside the region. */
  lemma {:induction false} InRegion(base: int, end: int, B: Blocks, h: int)
    requires Tiled(base, end, B) && h in B
    ensures End(h, B[h]) <= end
  {
    InRegionFrom(base, end, B, h, B.Keys);
  }

  lemma {:induction false} InRegionFrom(base: int, end: int, B: Blocks, h: int, rest: set<int>)
    requires Tiled(base, end, B) && h in B && rest <= B.Keys
    requires forall k | k in B && k >= h :: k in rest
    ensures End(h, B[h]) <= end
    decreases rest
  {
    var n := End(h, B[h]);
    assert Followed(end, B, h);
    if n in B {
      InRegionFrom(base, end, B, n, rest - {h});
    }
  }

  /** A set `prev_free` flag has a free left neighbour behind it. */
  lemma FlagMeansFree(base: int, end: int, B: Blocks, h: int) returns (p: int)
    requires Tiled(base, end, B) && Flagged(base, B) && h in B && B[h].prevFree
    ensures p in B && B[p].isFree && End(p, B[p]) == h
  {
    p := LeftNeighbour(base, end, B, h, base);
    assert FlagOk(B, p);
  }
}
