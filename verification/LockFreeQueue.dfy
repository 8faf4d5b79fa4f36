/**
 The single-producer, single-consumer queue as a transition system. Every atomic load and store of
 a position and every access to a slot is one step, and the steps of the two contexts interleave
 in any way. `empty` and `full` load the two positions in either order.

 `pushed`, `log` and the counts kept in the program counters are history: no step depends on them.
 */
module LockFreeQueue {
  import opened Bits
  import opened Wrappers

  /** Where the producer is inside `push`. */
  datatype Producer<T> =
    | PIdle
      // inside full(); `seen` counts the removals at the time read_position was loaded
    | PCheck(elem: T, r: Option<nat>, w: Option<nat>, seen: nat)
    | PSlot(elem: T)
    | PWrite(elem: T, slot: nat)
    | PStore(elem: T, slot: nat)

  /** Why the consumer is inside `empty`. */
  datatype Purpose = GetCheck | FrontCheck | PopCheck

  /** Where the consumer is inside `get_and_pop` or `pop`; `val` is the value read by `front`. */
  datatype Consumer<T> =
    | CIdle
      // inside empty(); `seen` counts the insertions at the time write_position was loaded
    | CCheck(why: Purpose, val: Option<T>, r: Option<nat>, w: Option<nat>, seen: nat)
    | CFront
    | CRead(slot: nat)
    | CSlot(val: Option<T>)
    | CStore(val: Option<T>, slot: nat)
      // an assertion of the code failed
    | CFailed

  datatype Queue<T> = Queue(
    entryNum: nat,
    readPos: nat,
    writePos: nat,
    elements: seq<T>,
    prod: Producer<T>,
    cons: Consumer<T>,
    pushed: seq<T>,
    log: seq<Option<T>>)

  /** What a caller and the queue tell each other: the beginning of a call, and its answer. */
  datatype Label<T> =
    | Silent
    | PushCalled(elem: T)
    | Pushed(elem: T)
    | Full(elem: T)
    | GetCalled
    | PopCalled
      // get_and_pop returns a value
    | Got(val: T)
      // pop returns true
    | Dropped
      // get_and_pop returns nothing, or pop returns false
    | Empty

  function NextSlot(n: nat, slot: nat): nat {
    (slot + 1) % (n + 1)
  }

  /** The slot of the x-th element ever. */
  function Slot(n: nat, x: nat): nat {
    x % (n + 1)
  }

  ghost predicate Init<T>(s: Queue<T>) {
    && s.readPos == 0 && s.writePos == 0 && |s.elements| > s.entryNum
    && s.prod == PIdle && s.cons == CIdle && s.pushed == [] && s.log == []
  }

  ghost predicate ProducerStep<T(!new)>(s: Queue<T>, l: Label<T>, s': Queue<T>) {
    match s.prod
    case PIdle =>
      l.PushCalled? && s' == s.(prod := PCheck(l.elem, None, None, 0))
    case PCheck(elem, r, w, seen) =>
      || (r.None? && l == Silent && s' == s.(prod := s.prod.(r := Some(s.readPos), seen := |s.log|)))
      || (w.None? && l == Silent && s' == s.(prod := s.prod.(w := Some(s.writePos))))
      || (r.Some? && w.Some? &&
          if r.value == NextSlot(s.entryNum, w.value) then l == Full(elem) && s' == s.(prod := PIdle)
          else l == Silent && s' == s.(prod := PSlot(elem)))
    case PSlot(elem) =>
      l == Silent && s' == s.(prod := PWrite(elem, s.writePos))
    case PWrite(elem, slot) =>
      l == Silent && slot < |s.elements| && s' == s.(prod := PStore(elem, slot), elements := s.elements[slot := elem])
    case PStore(elem, slot) =>
      l == Pushed(elem) && s' == s.(prod := PIdle, writePos := NextSlot(s.entryNum, slot), pushed := s.pushed + [elem])
  }

  /** After `empty` has compared the positions. */
  function Checked<T>(s: Queue<T>, isEmpty: bool): Consumer<T>
    requires s.cons.CCheck?
  {
    match s.cons.why
    case GetCheck => if isEmpty then CIdle else CCheck(FrontCheck, None, None, None, 0)
    case FrontCheck => if isEmpty then CFailed else CFront
    case PopCheck => if isEmpty then (if s.cons.val.Some? then CFailed else CIdle) else CSlot(s.cons.val)
  }

  ghost predicate ConsumerStep<T>(s: Queue<T>, l: Label<T>, s': Queue<T>) {
    match s.cons
    case CIdle =>
      || (l == GetCalled && s' == s.(cons := CCheck(GetCheck, None, None, None, 0)))
      || (l == PopCalled && s' == s.(cons := CCheck(PopCheck, None, None, None, 0)))
    case CCheck(why, val, r, w, seen) =>
      || (r.None? && l == Silent && s' == s.(cons := s.cons.(r := Some(s.readPos))))
      || (w.None? && l == Silent && s' == s.(cons := s.cons.(w := Some(s.writePos), seen := |s.pushed|)))
      || (r.Some? && w.Some? && s' == s.(cons := Checked(s, r.value == w.value))
          && l == if r.value == w.value then Empty else Silent)
    case CFront =>
      l == Silent && s' == s.(cons := CRead(s.readPos))
    case CRead(slot) =>
      l == Silent && slot < |s.elements| && s' == s.(cons := CCheck(PopCheck, Some(s.elements[slot]), None, None, 0))
    case CSlot(val) =>
      l == Silent && s' == s.(cons := CStore(val, s.readPos))
    case CStore(val, slot) =>
      && l == (if val.Some? then Got(val.value) else Dropped)
      && s' == s.(cons := CIdle, readPos := NextSlot(s.entryNum, slot), log := s.log + [val])
    case CFailed => false
  }

  ghost predicate Next<T(!new)>(s: Queue<T>, l: Label<T>, s': Queue<T>) {
    ProducerStep(s, l, s') || ConsumerStep(s, l, s')
  }

  // ----- slots

  lemma SlotStep(n: nat, x: nat)
    ensures NextSlot(n, Slot(n, x)) == Slot(n, x + 1)
  {
    var m, q, r := n + 1, x / (n + 1), x % (n + 1);
    var p := q * m;
    assert x == p + r;
    if r + 1 < m {
      DivModUnique(x + 1, m, q, r + 1);
      DivModUnique(r + 1, m, 0, r + 1);
    } else {
      assert (q + 1) * m == p + m;
      DivModUnique(x + 1, m, q + 1, 0);
      DivModUnique(r + 1, m, 1, 0);
    }
  }

  /** Elements fewer than n + 1 apart use the same slot only if they are the same. */
  lemma SlotsDiffer(n: nat, x: nat, y: nat)
    requires x <= y <= x + n
    ensures Slot(n, x) == Slot(n, y) <==> x == y
  {
    var m := n + 1;
    if x % m == y % m {
      assert x == (x / m) * m + x % m && y == (y / m) * m + y % m;
      assert (y / m - x / m) * m == y - x;
      SmallMultiple(y / m - x / m, m);
    }
  }

  lemma SlotBound(n: nat, x: nat)
    ensures Slot(n, x) <= n
  {
  }

  // ----- the invariant

  /** Positions, contents and removal log agree with the history. */
  ghost predicate Shared<T>(s: Queue<T>) {
    && |s.elements| > s.entryNum
    && s.readPos == Slot(s.entryNum, |s.log|) && s.writePos == Slot(s.entryNum, |s.pushed|)
    && |s.log| <= |s.pushed| <= |s.log| + s.entryNum
    && (forall i | |s.log| <= i < |s.pushed| ::
          Slot(s.entryNum, i) < |s.elements| && s.elements[Slot(s.entryNum, i)] == s.pushed[i])
    && (forall i | 0 <= i < |s.log| :: s.log[i].Some? ==> s.log[i].value == s.pushed[i])
  }

  ghost predicate ProducerOk<T>(s: Queue<T>) {
    match s.prod
    case PIdle => true
    case PCheck(_, r, w, seen) =>
      && (r.Some? ==> r.value == Slot(s.entryNum, seen) && seen <= |s.log| && |s.pushed| <= seen + s.entryNum)
      && (w.Some? ==> w.value == s.writePos)
    case PSlot(_) => |s.pushed| < |s.log| + s.entryNum
    case PWrite(_, slot) => |s.pushed| < |s.log| + s.entryNum && slot == s.writePos
    case PStore(elem, slot) =>
      |s.pushed| < |s.log| + s.entryNum && slot == s.writePos && slot < |s.elements| && s.elements[slot] == elem
  }

  /** The value in hand, if any, is the oldest element, which is still in the queue. */
  ghost predicate Holds<T>(s: Queue<T>, val: Option<T>) {
    val.Some? ==> |s.log| < |s.pushed| && val.value == s.pushed[|s.log|]
  }

  ghost predicate ConsumerOk<T>(s: Queue<T>) {
    match s.cons
    case CIdle => true
    case CCheck(why, val, r, w, seen) =>
      && Holds(s, val) && (why != PopCheck ==> val.None?)
      && (why == FrontCheck ==> |s.log| < |s.pushed|)
      && (r.Some? ==> r.value == s.readPos)
      && (w.Some? ==> w.value == Slot(s.entryNum, seen) && |s.log| <= seen <= |s.pushed|)
      && (w.Some? && (why == FrontCheck || val.Some?) ==> |s.log| < seen)
    case CFront => |s.log| < |s.pushed|
    case CRead(slot) => |s.log| < |s.pushed| && slot == s.readPos
    case CSlot(val) => Holds(s, val) && |s.log| < |s.pushed|
    case CStore(val, slot) => Holds(s, val) && |s.log| < |s.pushed| && slot == s.readPos
    case CFailed => false
  }

  ghost predicate Inv<T>(s: Queue<T>) {
    Shared(s) && ProducerOk(s) && ConsumerOk(s)
  }

  lemma InitInv<T>(s: Queue<T>)
    requires Init(s)
    ensures Inv(s)
  {
  }

  /** n + 1 elements further on, the same slot is used again. */
  lemma WrapAround(n: nat, x: nat)
    ensures Slot(n, x + n + 1) == Slot(n, x)
  {
    var m := n + 1;
    assert x + m == (x / m + 1) * m + x % m;
    DivModUnique(x + m, m, x / m + 1, x % m);
  }

  /** `full` compares equal exactly if all slots were taken when read_position was loaded. */
  lemma FullMeans<T>(s: Queue<T>)
    requires Inv(s) && s.prod.PCheck? && s.prod.r.Some? && s.prod.w.Some?
    ensures s.prod.r.value == NextSlot(s.entryNum, s.prod.w.value) <==> |s.pushed| == s.prod.seen + s.entryNum
  {
    hide Slot, NextSlot;
    var n, seen, total := s.entryNum, s.prod.seen, |s.pushed|;
    SlotStep(n, total);
    if total < seen + n {
      SlotsDiffer(n, seen, total + 1);
    } else {
      WrapAround(n, seen);
    }
  }

  /** `empty` compares equal exactly if nothing was queued when write_position was loaded. */
  lemma EmptyMeans<T>(s: Queue<T>)
    requires Inv(s) && s.cons.CCheck? && s.cons.r.Some? && s.cons.w.Some?
    ensures s.cons.r.value == s.cons.w.value <==> s.cons.seen == |s.log|
  {
    hide Slot;
    SlotsDiffer(s.entryNum, |s.log|, s.cons.seen);
  }

  lemma ProducerWriteKeepsInv<T(!new)>(s: Queue<T>, l: Label<T>, s': Queue<T>)
    requires Inv(s) && ProducerStep(s, l, s') && s.prod.PWrite?
    ensures Inv(s')
  {
    hide Slot, NextSlot;
    forall i | |s.log| <= i < |s.pushed|
      ensures Slot(s.entryNum, i) != s.prod.slot
    {
      SlotsDiffer(s.entryNum, i, |s.pushed|);
    }
  }

  lemma ProducerKeepsInv<T(!new)>(s: Queue<T>, l: Label<T>, s': Queue<T>)
    requires Inv(s) && ProducerStep(s, l, s')
    ensures Inv(s')
  {
    hide Slot, NextSlot;
    if s.prod.PWrite? {
      ProducerWriteKeepsInv(s, l, s');
    } else if s.prod.PStore? {
      SlotStep(s.entryNum, |s.pushed|);
    } else if s.prod.PCheck? && s.prod.r.Some? && s.prod.w.Some? {
      FullMeans(s);
    }
  }

  lemma ConsumerCheckKeepsInv<T(!new)>(s: Queue<T>, l: Label<T>, s': Queue<T>)
    requires Inv(s) && ConsumerStep(s, l, s') && s.cons.CCheck?
    ensures Inv(s')
  {
    hide Slot, NextSlot;
    if s.cons.r.Some? && s.cons.w.Some? { EmptyMeans(s); }
  }

  lemma ConsumerKeepsInv<T(!new)>(s: Queue<T>, l: Label<T>, s': Queue<T>)
    requires Inv(s) && ConsumerStep(s, l, s')
    ensures Inv(s')
  {
    hide Slot, NextSlot;
    if s.cons.CCheck? {
      ConsumerCheckKeepsInv(s, l, s');
    } else if s.cons.CStore? {
      SlotStep(s.entryNum, |s.log|);
    }
  }

  // ----- what holds in every reachable state and in every run

  /** The values that are in the queue, oldest first. */
  function Contents<T>(s: Queue<T>): seq<T>
    requires |s.log| <= |s.pushed|
  {
    s.pushed[|s.log|..]
  }

  lemma NextKeepsInv<T(!new)>(s: Queue<T>, l: Label<T>, s': Queue<T>)
    requires Inv(s) && Next(s, l, s')
    ensures Inv(s')
  {
    hide Inv, ProducerStep, ConsumerStep;
    if ProducerStep(s, l, s') { ProducerKeepsInv(s, l, s'); } else { ConsumerKeepsInv(s, l, s'); }
  }

  /** How the labels and the history belong together. */
  lemma StepHistory<T(!new)>(s: Queue<T>, l: Label<T>, s': Queue<T>)
    requires Next(s, l, s')
    ensures s'.entryNum == s.entryNum
    ensures s'.pushed == if l.Pushed? then s.pushed + [l.elem] else s.pushed
    ensures s'.log == if l.Got? then s.log + [Some(l.val)] else if l.Dropped? then s.log + [None] else s.log
  {
    hide NextSlot;
  }

  /** Each step acts on the contents like the same operation of a bounded first-in first-out queue. */
  lemma StepRefines<T(!new)>(s: Queue<T>, l: Label<T>, s': Queue<T>)
    requires Inv(s) && Next(s, l, s')
    ensures Inv(s') && |Contents(s)| <= s.entryNum
    ensures match l
            case Pushed(elem) => |Contents(s)| < s.entryNum && Contents(s') == Contents(s) + [elem]
            case Got(val) => Contents(s) != [] && Contents(s) == [val] + Contents(s')
            case Dropped => Contents(s) != [] && Contents(s') == Contents(s)[1..]
            case _ => Contents(s') == Contents(s)
  {
    hide Slot, NextSlot, Next, ProducerOk, ConsumerOk;
    NextKeepsInv(s, l, s');
    StepHistory(s, l, s');
    PoppedOldest(s, l, s');
  }

  lemma PoppedOldest<T(!new)>(s: Queue<T>, l: Label<T>, s': Queue<T>)
    requires Inv(s) && Next(s, l, s')
    ensures l.Got? ==> |s.log| < |s.pushed| && l.val == s.pushed[|s.log|]
  {
    hide Slot, NextSlot;
  }

  /** `push` reports a full queue only if it was full when read_position was loaded, `pop` likewise. */
  lemma FailureJustified<T(!new)>(s: Queue<T>, l: Label<T>, s': Queue<T>)
    requires Inv(s) && Next(s, l, s')
    ensures l.Full? ==> s.prod.PCheck? && |s.pushed| == s.prod.seen + s.entryNum
    ensures l.Empty? ==> s.cons.CCheck? && s.cons.seen == |s.log|
  {
    hide Slot, NextSlot, Shared, ProducerOk, ConsumerOk;
    if l.Full? { FullMeans(s); }
    if l.Empty? { EmptyMeans(s); }
  }

  /** The consumer is about to read the oldest element or holds the reference `front` returned. */
  predicate UsesFront<T>(c: Consumer<T>) {
    || (c.CCheck? && (c.why == FrontCheck || c.val.Some?))
    || c.CFront? || c.CRead? || c.CSlot? || c.CStore?
  }

  /** The producer never writes the slot the consumer may be reading. */
  lemma NoRace<T>(s: Queue<T>)
    requires Inv(s) && s.prod.PWrite? && UsesFront(s.cons)
    ensures s.prod.slot != s.readPos
    ensures s.cons.CRead? ==> s.cons.slot == s.readPos
  {
    hide Slot;
    SlotsDiffer(s.entryNum, |s.log|, |s.pushed|);
  }

  /** No step is ever blocked by an index out of range, and no assertion of the code fails. */
  lemma NeverStuck<T(!new)>(s: Queue<T>)
    requires Inv(s)
    ensures !s.cons.CFailed?
    ensures s.prod.PWrite? ==> s.prod.slot < |s.elements|
    ensures s.cons.CRead? ==> s.cons.slot < |s.elements|
  {
    SlotBound(s.entryNum, |s.pushed|);
    SlotBound(s.entryNum, |s.log|);
  }

  ghost predicate Run<T(!new)>(states: seq<Queue<T>>, labels: seq<Label<T>>) {
    && |states| == |labels| + 1 && Init(states[0])
    && forall i | 0 <= i < |labels| :: Next(states[i], labels[i], states[i + 1])
  }

  /** The values whose `push` returned true. */
  function PushedValues<T>(labels: seq<Label<T>>): seq<T> {
    if labels == [] then []
    else
      var before, l := PushedValues(labels[..|labels| - 1]), labels[|labels| - 1];
      if l.Pushed? then before + [l.elem] else before
  }

  /** What the consumer took, one entry for each element removed; None where `pop` dropped it. */
  function TakenValues<T>(labels: seq<Label<T>>): seq<Option<T>> {
    if labels == [] then []
    else
      var before, l := TakenValues(labels[..|labels| - 1]), labels[|labels| - 1];
      if l.Got? then before + [Some(l.val)] else if l.Dropped? then before + [None] else before
  }

  lemma InitHistory<T>(s: Queue<T>)
    requires Init(s)
    ensures s.pushed == [] && s.log == []
  {
  }

  lemma {:induction false} RunInv<T(!new)>(states: seq<Queue<T>>, labels: seq<Label<T>>)
    requires Run(states, labels)
    ensures var last := states[|labels|];
            && Inv(last) && last.entryNum == states[0].entryNum
            && last.pushed == PushedValues(labels) && last.log == TakenValues(labels)
  {
    hide Inv, Next, Init;
    if labels == [] {
      InitInv(states[0]);
      InitHistory(states[0]);
    } else {
      var n := |labels| - 1;
      assert Run(states[..n + 1], labels[..n]);
      RunInv(states[..n + 1], labels[..n]);
      assert Next(states[n], labels[n], states[n + 1]);
      NextKeepsInv(states[n], labels[n], states[n + 1]);
      StepHistory(states[n], labels[n], states[n + 1]);
    }
  }

  /**
   First in, first out, over every run: the k-th element removed is the k-th one pushed. A get returns
   it and a pop drops it, and the queue never holds more than its capacity.
   */
  lemma FirstInFirstOut<T(!new)>(states: seq<Queue<T>>, labels: seq<Label<T>>)
    requires Run(states, labels)
    ensures var ins, outs := PushedValues(labels), TakenValues(labels);
            && |outs| <= |ins| <= |outs| + states[0].entryNum
            && forall i | 0 <= i < |outs| :: outs[i].Some? ==> outs[i].value == ins[i]
  {
    hide ProducerOk, ConsumerOk, Run, PushedValues, TakenValues;
    RunInv(states, labels);
  }

  /** The answer to a get is the oldest value that was pushed and not removed before. */
  lemma GetsOldest<T(!new)>(states: seq<Queue<T>>, labels: seq<Label<T>>, k: nat)
    requires Run(states, labels) && k < |labels| && labels[k].Got?
    ensures var ins, outs := PushedValues(labels[..k]), TakenValues(labels[..k]);
            |outs| < |ins| && labels[k].val == ins[|outs|]
  {
    hide Inv, Next, Init, PushedValues, TakenValues;
    assert Run(states[..k + 1], labels[..k]);
    RunInv(states[..k + 1], labels[..k]);
    assert Next(states[k], labels[k], states[k + 1]);
    PoppedOldest(states[k], labels[k], states[k + 1]);
  }
}
