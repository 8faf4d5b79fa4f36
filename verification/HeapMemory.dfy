/**
 The heap's memory region as a word store, and the blocks laid out in it.

 Addresses are byte addresses and every access is eight bytes wide. A store makes every word it
 overlaps only partly unreadable, so a proof that a load is defined shows that nothing has
 overwritten any of its bytes.
 */
module HeapMemory {
  import opened HeapHeader
  import opened Wrappers

  type Memory = map<int, int>

  function Store(mem: Memory, p: int, v: int): (r: Memory)
    ensures p in r && r[p] == v
    ensures forall q | q <= p - 8 || p + 8 <= q :: (q in r <==> q in mem) && (q in mem ==> r[q] == mem[q])
  {
    (map q | q in mem && !(p - 8 < q < p + 8) :: mem[q])[p := v]
  }

  /** A word that a store overlaps only partly is lost. */
  lemma StoreSpoils(mem: Memory, p: int, v: int, q: int)
    requires p - 8 < q < p + 8 && q != p
    ensures q !in Store(mem, p, v)
  {
  }

  /** The words that lie entirely inside [lo, hi). */
  function Contents(mem: Memory, lo: int, hi: int): Memory {
    map q | q in mem && lo <= q && q + 8 <= hi :: mem[q]
  }

  /**
   What is known of the block whose header begins at an address: the header word, the list link
   and the footer when they are in place, and the payload when it belongs to a caller.
   */
  datatype Block = Block(size: nat, prevFree: bool, isFree: bool, next: Option<int>, foot: bool, data: Option<Memory>)

  const HEADER: nat := 16
  const FOOTER: nat := 8

  function End(h: int, b: Block): int {
    h + HEADER + b.size
  }

  predicate BlockOk(mem: Memory, h: int, b: Block) {
    && 16 <= b.size < FREE_BIT
    && h in mem && mem[h] == Encode(b.size, b.prevFree, b.isFree)
    && (b.next.Some? ==> h + HEADER in mem && mem[h + HEADER] == b.next.value)
    && (b.foot ==> End(h, b) - FOOTER in mem && mem[End(h, b) - FOOTER] == b.size)
    && (b.data.Some? ==> b.data.value == Contents(mem, h + HEADER, End(h, b)))
  }

  /** Blocks do not overlap. */
  ghost predicate Separate(blocks: map<int, Block>) {
    forall h, k | h in blocks && k in blocks && h < k :: End(h, blocks[h]) <= k
  }

  /** The memory holds these blocks. */
  ghost predicate Holds(mem: Memory, blocks: map<int, Block>) {
    Separate(blocks) && forall h | h in blocks :: BlockOk(mem, h, blocks[h])
  }

  lemma ContentsKept(mem: Memory, p: int, v: int, lo: int, hi: int)
    requires p + 8 <= lo || hi <= p
    ensures Contents(Store(mem, p, v), lo, hi) == Contents(mem, lo, hi)
  {
  }

  /** A store outside a block leaves it as it was, payload included. */
  lemma BlockKept(mem: Memory, p: int, v: int, h: int, b: Block)
    requires BlockOk(mem, h, b)
    requires p + 8 <= h || End(h, b) <= p
    ensures BlockOk(Store(mem, p, v), h, b)
  {
    ContentsKept(mem, p, v, h + HEADER, End(h, b));
  }

  /** A store inside one block, after which it is b, leaves every other block alone. */
  lemma StoreHolds(mem: Memory, blocks: map<int, Block>, p: int, v: int, h: int, b: Block)
    requires Holds(mem, blocks) && Separate(blocks[h := b])
    requires h <= p && p + 8 <= End(h, b)
    requires BlockOk(Store(mem, p, v), h, b)
    ensures Holds(Store(mem, p, v), blocks[h := b])
  {
    var blocks' := blocks[h := b];
    forall k | k in blocks'
      ensures BlockOk(Store(mem, p, v), k, blocks'[k])
    {
      if k != h {
        assert h in blocks' && k in blocks';
        BlockKept(mem, p, v, k, blocks[k]);
      }
    }
  }
}
