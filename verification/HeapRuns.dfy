/**
 Histories of the first-fit heap: any sequence of allocations, writes by owners and frees, each as
 the methods of `FirstFitHeap.Heap` promise it.
 */
module HeapRuns {
  import opened Bits
  import opened HeapHeader
  import opened HeapMemory
  import opened HeapLayout
  import opened HeapTheory
  import opened FirstFitHeap

  datatype State = State(blocks: Blocks, chain: seq<int>, list: int)

  /** A call that changes the heap; a failed allocation, or freeing null, leaves the state as it is. */
  datatype Event = Served(need: nat, h: int) | Wrote(h: int, data: Memory) | Freed(h: int)

  ghost predicate Sound(base: int, end: int, s: State) {
    Consistent(base, end, s.blocks, s.chain, s.list) && Coalesced(s.blocks)
  }

  ghost predicate Step(base: int, end: int, s: State, e: Event, s': State) {
    && Sound(base, end, s')
    && match e
       case Served(need, h) => Serves(base, end, s.blocks, need, h, s'.blocks)
       case Wrote(h, data) =>
         && h in Live(s.blocks)
         && Live(s'.blocks) == Live(s.blocks)[h := Allocation(Live(s.blocks)[h].size, data)]
       case Freed(h) => h in Live(s.blocks) && Live(s'.blocks) == Live(s.blocks) - {h}
  }

  /** The states a heap passes through from its construction on. */
  ghost predicate Run(base: int, end: int, states: seq<State>, events: seq<Event>) {
    && |states| == |events| + 1 && Sound(base, end, states[0]) && Live(states[0].blocks) == map[]
    && forall i | 0 <= i < |events| :: Step(base, end, states[i], events[i], states[i + 1])
  }

  /** The allocations a history leaves live, from its events alone. */
  ghost function Remaining(events: seq<Event>): set<int> {
    if events == [] then {}
    else
      var before := Remaining(events[..|events| - 1]);
      match events[|events| - 1]
      case Served(_, h) => before + {h}
      case Wrote(_, _) => before
      case Freed(h) => before - {h}
  }

  /** In every reachable state the invariant holds, and exactly what was served and not freed since is live. */
  lemma {:induction false} RunConserves(base: int, end: int, states: seq<State>, events: seq<Event>)
    requires Run(base, end, states, events)
    ensures Sound(base, end, states[|events|]) && Live(states[|events|].blocks).Keys == Remaining(events)
    decreases |events|
  {
    hide Sound, Live;
    if events != [] {
      var n := |events| - 1;
      assert Run(base, end, states[..n + 1], events[..n]);
      RunConserves(base, end, states[..n + 1], events[..n]);
      assert Step(base, end, states[n], events[n], states[n + 1]);
    }
  }

  /** Two histories that leave the same allocations, with the same contents, end in the same state. */
  lemma HistoriesAgree(base: int, end: int, states: seq<State>, events: seq<Event>,
                       states': seq<State>, events': seq<Event>)
    requires Run(base, end, states, events) && Run(base, end, states', events')
    requires Live(states[|events|].blocks) == Live(states'[|events'|].blocks)
    ensures states[|events|] == states'[|events'|]
  {
    hide Consistent, Coalesced, Live, Step;
    RunConserves(base, end, states, events);
    RunConserves(base, end, states', events');
    var s, s' := states[|events|], states'[|events'|];
    StateCanonical(base, end, s.blocks, s.chain, s.list, s'.blocks, s'.chain, s'.list);
  }

  /**
   Once everything is freed, in whatever order and between whatever other calls, the heap is the
   one it was at first: a single free block that takes up the region.
   */
  lemma AllReturned(base: int, end: int, states: seq<State>, events: seq<Event>)
    requires Run(base, end, states, events) && Remaining(events) == {}
    ensures var last := states[|events|];
            && last == states[0] && last.chain == [base]
            && last.blocks.Keys == {base} && last.blocks[base].isFree
            && last.blocks[base].size == end - base - HEADER
  {
    hide Consistent, Coalesced, Live;
    RunConserves(base, end, states, events);
    var last := states[|events|];
    assert Live(last.blocks) == map[];
    StateCanonical(base, end, last.blocks, last.chain, last.list, states[0].blocks, states[0].chain, states[0].list);
    OneBlock(base, end, last);
  }

  lemma OneBlock(base: int, end: int, s: State)
    requires Sound(base, end, s) && Live(s.blocks) == map[]
    ensures s.chain == [base] && s.blocks.Keys == {base} && s.blocks[base].isFree
    ensures s.blocks[base].size == end - base - HEADER
  {
    hide Live, Flagged, Linked, Kinds;
    AllFreed(base, end, s.blocks) by { assert Consistent(base, end, s.blocks, s.chain, s.list); }
    AscendingUnique(s.chain, [base]);
  }

  /** Frees alone, one for each live allocation, in any order. */
  ghost predicate FreesAll(s: State, events: seq<Event>) {
    && (forall i | 0 <= i < |events| :: events[i].Freed?)
    && (forall h | h in Live(s.blocks) :: Freed(h) in events)
  }

  /** From any reachable state, freeing everything in any order leads back to the state of the fresh heap. */
  lemma FreeingAll(base: int, end: int, states: seq<State>, events: seq<Event>, n: nat)
    requires Run(base, end, states, events) && n <= |events| && FreesAll(states[n], events[n..])
    ensures states[|events|] == states[0] && states[0].chain == [base]
    ensures base in states[0].blocks && states[0].blocks[base].size == end - base - HEADER
  {
    hide Sound, Live, Step;
    assert Run(base, end, states[..n + 1], events[..n]);
    RunConserves(base, end, states[..n + 1], events[..n]);
    RemainingFreed(events, n);
    assert states[..n + 1][|events[..n]|] == states[n];
    forall h ensures h !in Remaining(events) {
      assert h in Remaining(events[..n]) ==> h in Live(states[n].blocks);
    }
    AllReturned(base, end, states, events);
  }

  lemma {:induction false} RemainingFreed(events: seq<Event>, n: nat)
    requires n <= |events| && forall i | n <= i < |events| :: events[i].Freed?
    ensures forall h :: h in Remaining(events) <==> h in Remaining(events[..n]) && Freed(h) !in events[n..]
    decreases |events|
  {
    if n == |events| {
      assert events[..n] == events;
    } else {
      var m := |events| - 1;
      RemainingFreed(events[..m], n);
      assert events[..m][..n] == events[..n];
      assert events[n..] == events[..m][n..] + [events[m]];
    }
  }

  ghost function Snapshot(heap: Heap): State
    reads heap
  {
    State(heap.blocks, heap.chain, heap.list)
  }

  /** A heap together with its history: whatever calls a client makes, they are a run. */
  class RecordedHeap {
    const heap: Heap
    ghost var states: seq<State>
    ghost var events: seq<Event>

    ghost predicate Valid()
      reads this, heap
    {
      && heap.Valid() && Run(heap.base, heap.base + heap.size, states, events)
      && states[|events|] == Snapshot(heap)
    }

    constructor (base: int, size: int, contents: Memory)
      requires 0 < base && base % 16 == 0 && 32 <= size < FREE_BIT && base + size < WORD
      ensures Valid() && fresh(heap) && heap.base == base && heap.size == size && events == []
    {
      heap := new Heap(base, size, contents);
      new;
      events := [];
      states := [Snapshot(heap)];
    }

    /** A successful allocation is one more event, a failed one is none. */
    method Alloc(request: nat) returns (p: int)
      requires Valid() && request < WORD
      modifies this, heap
      ensures Valid()
      ensures events == old(events) + if p == NULL then [] else [Served(RequestSize(request), p - HEADER)]
    {
      hide Run, RequestSize, Serves, Consistent, Coalesced, Holds;
      p := heap.Alloc(request);
      if p != NULL {
        Record(Served(RequestSize(request), p - HEADER));
      }
    }

    method Free(p: nat)
      requires Valid() && p < WORD
      requires p != NULL && heap.base <= HeaderOf(p) < heap.base + heap.size ==> HeaderOf(p) in Live(heap.blocks)
      modifies this, heap
      ensures Valid()
      ensures events == old(events) + if HeaderOf(p) in old(Live(heap.blocks)) then [Freed(HeaderOf(p))] else []
    {
      hide Run, Consistent, Coalesced, Holds, Live, HeaderOf;
      ghost var was := heap.blocks;
      NotLive(heap.base, heap.base + heap.size, was, heap.chain, heap.list, HeaderOf(p));
      heap.Free(p);
      if HeaderOf(p) in Live(was) {
        Record(Freed(HeaderOf(p)));
      }
    }

    method Write(p: int, q: int, v: nat)
      requires Valid() && p - HEADER in Live(heap.blocks)
      requires p <= q && q + 8 <= p + Live(heap.blocks)[p - HEADER].size
      modifies this, heap
      ensures Valid()
      ensures p - HEADER in Live(heap.blocks)
      ensures events == old(events) + [Wrote(p - HEADER, Live(heap.blocks)[p - HEADER].data)]
    {
      hide Run, Consistent, Coalesced, Holds, Live;
      heap.Write(p, q, v);
      Record(Wrote(p - HEADER, Live(heap.blocks)[p - HEADER].data));
    }

    /** The heap has made the step e from the last recorded state. */
    ghost method Record(e: Event)
      requires Run(heap.base, heap.base + heap.size, states, events) && heap.Valid()
      requires Step(heap.base, heap.base + heap.size, states[|events|], e, Snapshot(heap))
      modifies this
      ensures Valid() && events == old(events) + [e]
    {
      hide Step, Sound, Live;
      states := states + [Snapshot(heap)];
      events := events + [e];
    }
  }
}
