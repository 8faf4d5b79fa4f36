/** The calls of the lock-free queue: each is answered as it should be, and each ends. */
module LockFreeQueueCalls {
  import opened Wrappers
  import opened LockFreeQueue

  // ----- calls and their answers

  /** What the producer is waiting for, from the labels alone. */
  function PendingPush<T>(labels: seq<Label<T>>): Option<T> {
    if labels == [] then None
    else
      var l := labels[|labels| - 1];
      if l.PushCalled? then Some(l.elem)
      else if l.Pushed? || l.Full? then None
      else PendingPush(labels[..|labels| - 1])
  }

  /** What the consumer is waiting for, from the labels alone. */
  datatype Waiting = Nothing | ForGet | ForPop

  function PendingTake<T>(labels: seq<Label<T>>): Waiting {
    if labels == [] then Nothing
    else
      var l := labels[|labels| - 1];
      if l.GetCalled? then ForGet
      else if l.PopCalled? then ForPop
      else if l.Got? || l.Dropped? || l.Empty? then Nothing
      else PendingTake(labels[..|labels| - 1])
  }

  /** A label that fits the calls in progress: no call inside another, and each answer to its own call. */
  ghost predicate Fits<T>(push: Option<T>, take: Waiting, l: Label<T>) {
    match l
    case Silent => true
    case PushCalled(_) => push == None
    case Pushed(elem) => push == Some(elem)
    case Full(elem) => push == Some(elem)
    case GetCalled => take == Nothing
    case PopCalled => take == Nothing
    case Got(_) => take == ForGet
    case Dropped => take == ForPop
    case Empty => take != Nothing
  }

  /** The program counters tell which calls are in progress; a get that has read its element holds it. */
  ghost predicate InCall<T>(s: Queue<T>, push: Option<T>, take: Waiting) {
    && push == (if s.prod.PIdle? then None else Some(s.prod.elem))
    && match s.cons
       case CIdle => take == Nothing
       case CCheck(why, val, _, _, _) =>
         if why == PopCheck then take == if val.Some? then ForGet else ForPop else take == ForGet
       case CFront => take == ForGet
       case CRead(_) => take == ForGet
       case CSlot(val) => take == if val.Some? then ForGet else ForPop
       case CStore(val, _) => take == if val.Some? then ForGet else ForPop
       case CFailed => false
  }

  lemma StepFits<T(!new)>(s: Queue<T>, l: Label<T>, s': Queue<T>, labels: seq<Label<T>>)
    requires Inv(s) && Next(s, l, s') && InCall(s, PendingPush(labels), PendingTake(labels))
    ensures Fits(PendingPush(labels), PendingTake(labels), l)
    ensures InCall(s', PendingPush(labels + [l]), PendingTake(labels + [l]))
  {
    hide Inv, ProducerStep, ConsumerStep, InCall, Fits;
    if ProducerStep(s, l, s') {
      ProducerFits(s, l, s', labels);
    } else {
      ConsumerFits(s, l, s', labels);
    }
  }

  lemma ProducerFits<T(!new)>(s: Queue<T>, l: Label<T>, s': Queue<T>, labels: seq<Label<T>>)
    requires ProducerStep(s, l, s') && InCall(s, PendingPush(labels), PendingTake(labels))
    ensures Fits(PendingPush(labels), PendingTake(labels), l)
    ensures InCall(s', PendingPush(labels + [l]), PendingTake(labels + [l]))
  {
    hide NextSlot;
    assert (labels + [l])[..|labels|] == labels;
  }

  lemma ConsumerFits<T(!new)>(s: Queue<T>, l: Label<T>, s': Queue<T>, labels: seq<Label<T>>)
    requires Inv(s) && ConsumerStep(s, l, s') && InCall(s, PendingPush(labels), PendingTake(labels))
    ensures Fits(PendingPush(labels), PendingTake(labels), l)
    ensures InCall(s', PendingPush(labels + [l]), PendingTake(labels + [l]))
  {
    hide Inv, NextSlot;
    assert (labels + [l])[..|labels|] == labels;
    if l.Empty? {
      NotEmptyInside(s, l, s');
    }
  }

  /** Only the first check of a call can find the queue empty. */
  lemma NotEmptyInside<T(!new)>(s: Queue<T>, l: Label<T>, s': Queue<T>)
    requires Inv(s) && Next(s, l, s') && l.Empty?
    ensures s.cons.CCheck? && s.cons.why != FrontCheck && s.cons.val.None? && s'.cons == CIdle
  {
    hide Slot, NextSlot, Shared, ProducerOk;
    EmptyMeans(s);
  }

  /**
   In every run calls and answers alternate: a push is answered by `Pushed` or `Full` with its own
   element, a get by a value or by nothing, a pop by true or false; and a context is idle exactly when
   it has no call that waits for its answer.
   */
  lemma {:induction false} CallsAnswered<T(!new)>(states: seq<Queue<T>>, labels: seq<Label<T>>)
    requires Run(states, labels)
    ensures forall k | 0 <= k < |labels| :: Fits(PendingPush(labels[..k]), PendingTake(labels[..k]), labels[k])
    ensures InCall(states[|labels|], PendingPush(labels), PendingTake(labels))
  {
    hide Inv, Next, Init, Fits, InCall, PendingPush, PendingTake;
    if labels == [] {
      InitIdle(states[0], labels);
    } else {
      var n := |labels| - 1;
      var before := labels[..n];
      assert Run(states[..n + 1], before);
      CallsAnswered(states[..n + 1], before);
      RunInv(states[..n + 1], before);
      assert Next(states[n], labels[n], states[n + 1]);
      StepFits(states[n], labels[n], states[n + 1], before);
      assert labels == before + [labels[n]];
      assert forall k | 0 <= k < n :: labels[..k] == before[..k];
    }
  }

  lemma InitIdle<T>(s: Queue<T>, labels: seq<Label<T>>)
    requires Init(s) && labels == []
    ensures InCall(s, PendingPush(labels), PendingTake(labels))
  {
  }

  // ----- every call ends

  /** How many more steps of its own the producer takes at most before it is idle. */
  function ProducerRank<T>(p: Producer<T>): nat {
    match p
    case PIdle => 0
    case PStore(_, _) => 1
    case PWrite(_, _) => 2
    case PSlot(_) => 3
    case PCheck(_, r, w, _) => 4 + (if r.None? then 1 else 0) + (if w.None? then 1 else 0)
  }

  /** The same for the consumer. */
  function ConsumerRank<T>(c: Consumer<T>): nat {
    match c
    case CIdle => 0
    case CFailed => 0
    case CStore(_, _) => 1
    case CSlot(_) => 2
    case CCheck(why, _, r, w, _) =>
      (if why == PopCheck then 3 else if why == FrontCheck then 8 else 11)
      + (if r.None? then 1 else 0) + (if w.None? then 1 else 0)
    case CRead(_) => 6
    case CFront => 7
  }

  /**
   No context ever has to wait: in every reachable state each has a step, and a step inside a call brings
   it nearer to its end. A push takes at most six steps and a get at most thirteen, whatever the other does.
   */
  lemma WaitFree<T(!new)>(s: Queue<T>, elem: T)
    requires Inv(s)
    ensures exists l, s' :: ProducerStep(s, l, s')
    ensures exists l, s' :: ConsumerStep(s, l, s')
    ensures forall l, s' | ProducerStep(s, l, s') ::
              if s.prod.PIdle? then ProducerRank(s'.prod) == 6 else ProducerRank(s'.prod) < ProducerRank(s.prod)
    ensures forall l, s' | ConsumerStep(s, l, s') ::
              if s.cons.CIdle? then ConsumerRank(s'.cons) <= 13 else ConsumerRank(s'.cons) < ConsumerRank(s.cons)
  {
    hide Inv, Slot, NextSlot;
    NeverStuck(s);
    var p, q := ProducerNext(s, elem);
    var c, d := ConsumerNext(s);
  }

  lemma ProducerNext<T(!new)>(s: Queue<T>, elem: T) returns (l: Label<T>, s': Queue<T>)
    requires s.prod.PWrite? ==> s.prod.slot < |s.elements|
    ensures ProducerStep(s, l, s')
  {
    hide NextSlot;
    l := Silent;
    match s.prod
    case PIdle =>
      l, s' := PushCalled(elem), s.(prod := PCheck(elem, None, None, 0));
    case PCheck(e, r, w, _) =>
      if r.None? {
        s' := s.(prod := s.prod.(r := Some(s.readPos), seen := |s.log|));
      } else if w.None? {
        s' := s.(prod := s.prod.(w := Some(s.writePos)));
      } else if r.value == NextSlot(s.entryNum, w.value) {
        l, s' := Full(e), s.(prod := PIdle);
      } else {
        s' := s.(prod := PSlot(e));
      }
    case PSlot(e) =>
      s' := s.(prod := PWrite(e, s.writePos));
    case PWrite(e, slot) =>
      s' := s.(prod := PStore(e, slot), elements := s.elements[slot := e]);
    case PStore(e, slot) =>
      l, s' := Pushed(e), s.(prod := PIdle, writePos := NextSlot(s.entryNum, slot), pushed := s.pushed + [e]);
  }

  lemma ConsumerNext<T>(s: Queue<T>) returns (l: Label<T>, s': Queue<T>)
    requires !s.cons.CFailed? && (s.cons.CRead? ==> s.cons.slot < |s.elements|)
    ensures ConsumerStep(s, l, s')
  {
    hide NextSlot, Checked;
    l := Silent;
    match s.cons
    case CIdle =>
      l, s' := GetCalled, s.(cons := CCheck(GetCheck, None, None, None, 0));
    case CCheck(_, _, r, w, _) =>
      if r.None? {
        s' := s.(cons := s.cons.(r := Some(s.readPos)));
      } else if w.None? {
        s' := s.(cons := s.cons.(w := Some(s.writePos), seen := |s.pushed|));
      } else {
        l := if r.value == w.value then Empty else Silent;
        s' := s.(cons := Checked(s, r.value == w.value));
      }
    case CFront =>
      s' := s.(cons := CRead(s.readPos));
    case CRead(slot) =>
      s' := s.(cons := CCheck(PopCheck, Some(s.elements[slot]), None, None, 0));
    case CSlot(val) =>
      s' := s.(cons := CStore(val, s.readPos));
    case CStore(val, slot) =>
      l := if val.Some? then Got(val.value) else Dropped;
      s' := s.(cons := CIdle, readPos := NextSlot(s.entryNum, slot), log := s.log + [val]);
  }
}
