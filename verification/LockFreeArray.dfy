/**
 The fixed-size array of atomics as a transition system. Any number of threads run `insert` and,
 in the variant that has it, `remove`; each compare-exchange is one step and the steps interleave
 in any way. `placed`, `inserted` and `removed` are history.
 */
module LockFreeArray {
  import opened Wrappers

  /** A call in progress: the next slot it will try. */
  datatype Call<T> = Inserting(value: T, at: nat) | Removing(value: T, at: nat)

  datatype Placement<T> = Placement(index: nat, value: T)

  datatype Array<T> = Array(
    invalid: T,
    slots: seq<T>,
    calls: map<nat, Call<T>>,
    placed: seq<Placement<T>>,
    inserted: multiset<T>,
    removed: multiset<T>)

  /** What a thread and the array tell each other: the beginning of a call, and its answer. */
  datatype Label<T> =
    | Silent
    | Called(call: Call<T>)
    | InsertedAt(value: T, index: nat)
    | InsertFailed(value: T)
    | RemovedFrom(value: T, index: nat)
    | RemoveFailed(value: T)

  ghost predicate Init<T>(s: Array<T>) {
    && (forall i | 0 <= i < |s.slots| :: s.slots[i] == s.invalid)
    && s.calls == map[] && s.placed == [] && s.inserted == multiset{} && s.removed == multiset{}
  }

  ghost predicate InsertStep<T>(s: Array<T>, t: nat, l: Label<T>, s': Array<T>)
    requires t in s.calls && s.calls[t].Inserting?
  {
    var Inserting(value, at) := s.calls[t];
    if at >= |s.slots| then
      l == InsertFailed(value) && s' == s.(calls := s.calls - {t})
    else if s.slots[at] == s.invalid then
      && l == InsertedAt(value, at)
      && s' == s.(slots := s.slots[at := value], calls := s.calls - {t},
                  placed := s.placed + [Placement(at, value)], inserted := s.inserted + multiset{value})
    else
      l == Silent && s' == s.(calls := s.calls[t := Inserting(value, at + 1)])
  }

  ghost predicate RemoveStep<T>(s: Array<T>, t: nat, l: Label<T>, s': Array<T>)
    requires t in s.calls && s.calls[t].Removing?
  {
    var Removing(value, at) := s.calls[t];
    if at >= |s.slots| then
      l == RemoveFailed(value) && s' == s.(calls := s.calls - {t})
    else if s.slots[at] == value then
      && l == RemovedFrom(value, at)
      && s' == s.(slots := s.slots[at := s.invalid], calls := s.calls - {t}, removed := s.removed + multiset{value})
    else
      l == Silent && s' == s.(calls := s.calls[t := Removing(value, at + 1)])
  }

  /** Thread t begins a call; `remove` of the invalid element fails at once. */
  ghost predicate Begin<T>(s: Array<T>, t: nat, withRemove: bool, l: Label<T>, s': Array<T>)
    requires t !in s.calls
  {
    || (&& l.Called? && l.call.at == 0 && l.call.value != s.invalid && (withRemove || l.call.Inserting?)
        && s' == s.(calls := s.calls[t := l.call]))
    || (withRemove && l == RemoveFailed(s.invalid) && s' == s)
  }

  ghost predicate Next<T(!new)>(s: Array<T>, t: nat, withRemove: bool, l: Label<T>, s': Array<T>) {
    if t !in s.calls then Begin(s, t, withRemove, l, s')
    else if s.calls[t].Inserting? then InsertStep(s, t, l, s')
    else RemoveStep(s, t, l, s')
  }

  // ----- insert only

  /** A running insert has left only occupied slots behind it. */
  ghost predicate CallOk<T>(invalid: T, slots: seq<T>, c: Call<T>) {
    && c.Inserting? && c.value != invalid && c.at <= |slots|
    && forall i | 0 <= i < c.at :: slots[i] != invalid
  }

  ghost predicate CallsOk<T>(s: Array<T>) {
    forall t | t in s.calls :: CallOk(s.invalid, s.slots, s.calls[t])
  }

  /** The occupied slots form a prefix, and each holds the value of the one insert that placed it. */
  ghost predicate InsertOnly<T>(s: Array<T>) {
    && CallsOk(s)
    && |s.placed| <= |s.slots|
    && (forall i | 0 <= i < |s.slots| :: s.slots[i] != s.invalid <==> i < |s.placed|)
    && (forall j | 0 <= j < |s.placed| :: s.placed[j].index == j && s.placed[j].value == s.slots[j])
  }

  lemma InitInsertOnly<T>(s: Array<T>)
    requires Init(s)
    ensures InsertOnly(s)
  {
  }

  lemma CallsKept<T(!new)>(s: Array<T>, t: nat, l: Label<T>, s': Array<T>)
    requires CallsOk(s) && Next(s, t, false, l, s')
    ensures CallsOk(s')
  {
    forall u | u in s'.calls
      ensures CallOk(s'.invalid, s'.slots, s'.calls[u])
    {
      if u in s.calls { assert CallOk(s.invalid, s.slots, s.calls[u]); }
      if t in s.calls { assert CallOk(s.invalid, s.slots, s.calls[t]); }
    }
  }

  lemma InsertOnlyKept<T(!new)>(s: Array<T>, t: nat, l: Label<T>, s': Array<T>)
    requires InsertOnly(s) && Next(s, t, false, l, s')
    ensures InsertOnly(s')
  {
    CallsKept(s, t, l, s');
    if t in s.calls {
      assert CallOk(s.invalid, s.slots, s.calls[t]);
      var at := s.calls[t].at;
      assert at > 0 ==> s.slots[at - 1] != s.invalid;
    }
  }

  /** An insert fails only when the array is full. */
  lemma FailsOnlyWhenFull<T(!new)>(s: Array<T>, t: nat, l: Label<T>, s': Array<T>)
    requires InsertOnly(s) && Next(s, t, false, l, s') && l.InsertFailed?
    ensures |s.placed| == |s.slots| && s.invalid !in s.slots
  {
    assert CallOk(s.invalid, s.slots, s.calls[t]);
    assert |s.slots| > 0 ==> s.slots[|s.slots| - 1] != s.invalid;
  }

  /** A successful insert gets an index no other insert has had, and earlier ones keep theirs. */
  lemma FreshIndex<T(!new)>(s: Array<T>, t: nat, l: Label<T>, s': Array<T>)
    requires InsertOnly(s) && Next(s, t, false, l, s')
    ensures s.placed <= s'.placed
    ensures l.InsertedAt? ==>
              && s'.placed == s.placed + [Placement(l.index, l.value)] && s'.slots[l.index] == l.value
              && forall j | 0 <= j < |s.placed| :: s.placed[j].index != l.index
  {
    InsertOnlyKept(s, t, l, s');
  }

  ghost predicate Run<T(!new)>(states: seq<Array<T>>, threads: seq<nat>, withRemove: bool, labels: seq<Label<T>>) {
    && |states| == |labels| + 1 && |threads| == |labels| && Init(states[0])
    && forall i | 0 <= i < |labels| :: Next(states[i], threads[i], withRemove, labels[i], states[i + 1])
  }

  /** The successful inserts of a run, in order. */
  function Placements<T>(labels: seq<Label<T>>): seq<Placement<T>> {
    if labels == [] then []
    else
      var before, l := Placements(labels[..|labels| - 1]), labels[|labels| - 1];
      if l.InsertedAt? then before + [Placement(l.index, l.value)] else before
  }

  lemma StepPlaces<T(!new)>(s: Array<T>, t: nat, withRemove: bool, l: Label<T>, s': Array<T>)
    requires Next(s, t, withRemove, l, s')
    ensures s'.placed == if l.InsertedAt? then s.placed + [Placement(l.index, l.value)] else s.placed
    ensures |s'.slots| == |s.slots| && s'.invalid == s.invalid
  {
  }

  /**
   In every run without removals, the k-th successful insert occupies slot k and its value stays
   there; all other slots are free.
   */
  lemma {:induction false} SlotsFilledInOrder<T(!new)>(states: seq<Array<T>>, threads: seq<nat>, labels: seq<Label<T>>)
    requires Run(states, threads, false, labels)
    ensures var last, done := states[|labels|], Placements(labels);
            && InsertOnly(last) && last.placed == done && |done| <= |last.slots|
            && (forall k | 0 <= k < |done| :: done[k].index == k && last.slots[k] == done[k].value)
            && (forall k | |done| <= k < |last.slots| :: last.slots[k] == last.invalid)
  {
    hide Init, Next;
    if labels == [] {
      InitInsertOnly(states[0]);
      InitPlaced(states[0]);
    } else {
      var n := |labels| - 1;
      assert Run(states[..n + 1], threads[..n], false, labels[..n]);
      SlotsFilledInOrder(states[..n + 1], threads[..n], labels[..n]);
      assert Next(states[n], threads[n], false, labels[n], states[n + 1]);
      InsertOnlyKept(states[n], threads[n], labels[n], states[n + 1]);
      StepPlaces(states[n], threads[n], false, labels[n], states[n + 1]);
    }
  }

  lemma InitPlaced<T>(s: Array<T>)
    requires Init(s)
    ensures s.placed == []
  {
  }

  // ----- with remove

  /** The values stored, invalid slots left out. */
  ghost function Stored<T>(s: Array<T>): multiset<T> {
    multiset(s.slots)[s.invalid := 0]
  }

  /** Stored values are the inserted ones that have not been removed. */
  ghost predicate Balanced<T>(s: Array<T>) {
    && (forall t | t in s.calls :: s.calls[t].value != s.invalid)
    && Stored(s) + s.removed == s.inserted
  }

  lemma StoreMultiset<T>(slots: seq<T>, i: nat, v: T)
    requires i < |slots|
    ensures multiset(slots[i := v]) + multiset{slots[i]} == multiset(slots) + multiset{v}
  {
    assert slots == slots[..i] + [slots[i]] + slots[i + 1..];
    assert slots[i := v] == slots[..i] + [v] + slots[i + 1..];
  }

  lemma InsertBalances<T>(s: Array<T>, at: nat, v: T)
    requires at < |s.slots| && s.slots[at] == s.invalid && v != s.invalid
    ensures Stored(s.(slots := s.slots[at := v])) == Stored(s) + multiset{v}
  {
    StoreMultiset(s.slots, at, v);
  }

  lemma RemoveBalances<T>(s: Array<T>, at: nat)
    requires at < |s.slots| && s.slots[at] != s.invalid
    ensures Stored(s.(slots := s.slots[at := s.invalid])) + multiset{s.slots[at]} == Stored(s)
  {
    StoreMultiset(s.slots, at, s.invalid);
  }

  lemma SameStored<T>(s: Array<T>, s': Array<T>)
    requires s.slots == s'.slots && s.invalid == s'.invalid
    ensures Stored(s) == Stored(s')
  {
  }

  lemma BalancedKept<T(!new)>(s: Array<T>, t: nat, withRemove: bool, l: Label<T>, s': Array<T>)
    requires Balanced(s) && Next(s, t, withRemove, l, s')
    ensures Balanced(s')
  {
    hide Stored;
    if l.InsertedAt? {
      InsertBalances(s, l.index, l.value);
      SameStored(s.(slots := s.slots[l.index := l.value]), s');
    } else if l.RemovedFrom? {
      RemoveBalances(s, l.index);
      SameStored(s.(slots := s.slots[l.index := s.invalid]), s');
    } else {
      SameStored(s, s');
    }
  }

  lemma InitBalanced<T>(s: Array<T>)
    requires Init(s)
    ensures Balanced(s)
  {
    assert forall v :: v in multiset(s.slots) ==> v == s.invalid;
  }

  function InsertedValues<T>(labels: seq<Label<T>>): multiset<T> {
    if labels == [] then multiset{}
    else
      var before, l := InsertedValues(labels[..|labels| - 1]), labels[|labels| - 1];
      if l.InsertedAt? then before + multiset{l.value} else before
  }

  function RemovedValues<T>(labels: seq<Label<T>>): multiset<T> {
    if labels == [] then multiset{}
    else
      var before, l := RemovedValues(labels[..|labels| - 1]), labels[|labels| - 1];
      if l.RemovedFrom? then before + multiset{l.value} else before
  }

  lemma StepCounts<T(!new)>(s: Array<T>, t: nat, withRemove: bool, l: Label<T>, s': Array<T>)
    requires Next(s, t, withRemove, l, s')
    ensures s'.inserted == if l.InsertedAt? then s.inserted + multiset{l.value} else s.inserted
    ensures s'.removed == if l.RemovedFrom? then s.removed + multiset{l.value} else s.removed
  {
  }

  /** Conservation: in every run the stored values are the successful inserts minus the successful removes. */
  lemma StoredIsBalance<T(!new)>(states: seq<Array<T>>, threads: seq<nat>, withRemove: bool, labels: seq<Label<T>>)
    requires Run(states, threads, withRemove, labels)
    ensures var last := states[|labels|];
            && Balanced(last) && last.inserted == InsertedValues(labels) && last.removed == RemovedValues(labels)
            && RemovedValues(labels) <= InsertedValues(labels)
            && Stored(last) == InsertedValues(labels) - RemovedValues(labels)
  {
    RunBalanced(states, threads, withRemove, labels);
  }

  lemma {:induction false} RunBalanced<T(!new)>(states: seq<Array<T>>, threads: seq<nat>, withRemove: bool,
                                                labels: seq<Label<T>>)
    requires Run(states, threads, withRemove, labels)
    ensures var last := states[|labels|];
            Balanced(last) && last.inserted == InsertedValues(labels) && last.removed == RemovedValues(labels)
  {
    hide Init, Next, Stored, Balanced;
    if labels == [] {
      InitBalanced(states[0]);
      InitCounts(states[0]);
    } else {
      var n := |labels| - 1;
      assert Run(states[..n + 1], threads[..n], withRemove, labels[..n]);
      RunBalanced(states[..n + 1], threads[..n], withRemove, labels[..n]);
      assert Next(states[n], threads[n], withRemove, labels[n], states[n + 1]);
      BalancedKept(states[n], threads[n], withRemove, labels[n], states[n + 1]);
      StepCounts(states[n], threads[n], withRemove, labels[n], states[n + 1]);
    }
  }

  lemma InitCounts<T>(s: Array<T>)
    requires Init(s)
    ensures s.inserted == multiset{} && s.removed == multiset{}
  {
  }

  // ----- what happens to a slot

  /** A stretch of a run, from any state on. */
  ghost predicate Steps<T(!new)>(states: seq<Array<T>>, threads: seq<nat>, labels: seq<Label<T>>) {
    && |threads| == |labels| && |states| == |labels| + 1
    && forall i | 0 <= i < |labels| :: Next(states[i], threads[i], true, labels[i], states[i + 1])
  }

  predicate Vacates<T>(l: Label<T>, i: nat) {
    l.RemovedFrom? && l.index == i
  }

  predicate Fills<T>(l: Label<T>, i: nat) {
    l.InsertedAt? && l.index == i
  }

  /** Slot i was vacated at or after step j and has not been filled again up to state n. */
  ghost predicate Vacated<T>(labels: seq<Label<T>>, i: nat, j: nat, n: nat)
    requires n <= |labels|
  {
    exists k | j <= k < n :: Vacates(labels[k], i) && forall m | k < m < n :: !Fills(labels[m], i)
  }

  /** Slot i was filled with v at or after step j and has not been vacated up to state n. */
  ghost predicate Filled<T>(labels: seq<Label<T>>, i: nat, v: T, j: nat, n: nat)
    requires n <= |labels|
  {
    exists k | j <= k < n :: labels[k] == InsertedAt(v, i) && forall m | k < m < n :: !Vacates(labels[m], i)
  }

  lemma SlotStep<T(!new)>(s: Array<T>, u: nat, l: Label<T>, s': Array<T>, i: nat)
    requires Balanced(s) && Next(s, u, true, l, s') && i < |s.slots|
    ensures |s'.slots| == |s.slots| && s'.invalid == s.invalid
    ensures s'.slots[i] == s'.invalid <==> Vacates(l, i) || (s.slots[i] == s.invalid && !Fills(l, i))
    ensures forall v | v != s.invalid ::
              s'.slots[i] == v <==> l == InsertedAt(v, i) || (s.slots[i] == v && !Vacates(l, i))
  {
    hide Stored;
  }

  lemma VacatedStep<T>(labels: seq<Label<T>>, i: nat, j: nat, n: nat)
    requires j <= n < |labels|
    ensures Vacated(labels, i, j, n + 1) <==>
            Vacates(labels[n], i) || (Vacated(labels, i, j, n) && !Fills(labels[n], i))
  {
    if Vacated(labels, i, j, n) && !Fills(labels[n], i) {
      var k :| j <= k < n && Vacates(labels[k], i) && forall m | k < m < n :: !Fills(labels[m], i);
      assert forall m | k < m < n + 1 :: !Fills(labels[m], i);
    }
  }

  lemma FilledStep<T>(labels: seq<Label<T>>, i: nat, v: T, j: nat, n: nat)
    requires j <= n < |labels|
    ensures Filled(labels, i, v, j, n + 1) <==>
            labels[n] == InsertedAt(v, i) || (Filled(labels, i, v, j, n) && !Vacates(labels[n], i))
  {
    if Filled(labels, i, v, j, n) && !Vacates(labels[n], i) {
      var k :| j <= k < n && labels[k] == InsertedAt(v, i) && forall m | k < m < n :: !Vacates(labels[m], i);
      assert forall m | k < m < n + 1 :: !Vacates(labels[m], i);
    }
  }

  lemma NothingYet<T>(labels: seq<Label<T>>, i: nat, v: T, n: nat)
    requires n <= |labels|
    ensures !Vacated(labels, i, n, n) && !Filled(labels, i, v, n, n)
  {
  }

  lemma {:induction false} StaysBalanced<T(!new)>(states: seq<Array<T>>, threads: seq<nat>, labels: seq<Label<T>>,
                                                  j: nat, n: nat)
    requires Steps(states, threads, labels) && j <= n <= |labels| && Balanced(states[j])
    ensures Balanced(states[n])
    decreases n
  {
    hide Balanced, Next;
    if j < n {
      StaysBalanced(states, threads, labels, j, n - 1);
      assert Next(states[n - 1], threads[n - 1], true, labels[n - 1], states[n - 1 + 1]);
      BalancedKept(states[n - 1], threads[n - 1], true, labels[n - 1], states[n]);
    }
  }

  /**
   A slot that is taken in state j is free in state n if and only if it was vacated in between and not
   filled since; one that does not hold v holds it if and only if it was filled with it and not vacated since.
   */
  lemma {:induction false} SlotHistory<T(!new)>(states: seq<Array<T>>, threads: seq<nat>, labels: seq<Label<T>>,
                                                i: nat, v: T, j: nat, n: nat)
    requires Steps(states, threads, labels) && j <= n <= |labels| && Balanced(states[j])
    requires i < |states[j].slots| && v != states[j].invalid
    ensures |states[n].slots| == |states[j].slots| && states[n].invalid == states[j].invalid
    ensures states[j].slots[i] != states[j].invalid ==>
              (states[n].slots[i] == states[n].invalid <==> Vacated(labels, i, j, n))
    ensures states[j].slots[i] != v ==> (states[n].slots[i] == v <==> Filled(labels, i, v, j, n))
    decreases n
  {
    hide Balanced, Next, Vacated, Filled, Vacates, Fills;
    if j == n {
      NothingYet(labels, i, v, n);
    } else {
      SlotHistory(states, threads, labels, i, v, j, n - 1);
      StaysBalanced(states, threads, labels, j, n - 1);
      assert Next(states[n - 1], threads[n - 1], true, labels[n - 1], states[n - 1 + 1]);
      SlotStep(states[n - 1], threads[n - 1], labels[n - 1], states[n], i);
      VacatedStep(labels, i, j, n - 1);
      FilledStep(labels, i, v, j, n - 1);
    }
  }

  // ----- with remove, when a call fails

  /** Thread t begins a call in the first state and is inside it up to state n. */
  ghost predicate Window<T(!new)>(states: seq<Array<T>>, threads: seq<nat>, labels: seq<Label<T>>, t: nat, n: nat) {
    && Steps(states, threads, labels) && n <= |labels| && Balanced(states[0])
    && (forall i | 0 <= i <= n :: t in states[i].calls)
    && states[0].calls[t].at == 0
  }

  /** The call of thread t is about to try slot i. */
  predicate Tries<T>(s: Array<T>, t: nat, i: nat) {
    t in s.calls && s.calls[t].at == i < |s.slots|
  }

  /** What a call looks for in a slot: an insert for nothing, a remove for its value. */
  function Wanted<T>(s: Array<T>, c: Call<T>): T {
    if c.Inserting? then s.invalid else c.value
  }

  /** A call that goes on either waits or has just passed the slot it tried. */
  lemma CallStep<T(!new)>(s: Array<T>, u: nat, l: Label<T>, s': Array<T>, t: nat)
    requires Next(s, u, true, l, s') && t in s.calls && t in s'.calls
    ensures s'.calls[t] == s.calls[t].(at := s'.calls[t].at) && s'.invalid == s.invalid
    ensures u != t ==> s'.calls[t].at == s.calls[t].at
    ensures u == t ==> Tries(s, t, s.calls[t].at) && s.slots[s.calls[t].at] != Wanted(s, s.calls[t])
    ensures u == t ==> s'.calls[t].at == s.calls[t].at + 1
  {
  }

  /** Every slot before the next one to try was tried, and did not hold what was wanted then. */
  lemma {:induction false} TriedBefore<T(!new)>(states: seq<Array<T>>, threads: seq<nat>, labels: seq<Label<T>>,
                                                t: nat, n: nat, i: nat) returns (j: nat)
    requires Window(states, threads, labels, t, n)
    ensures states[n].calls[t] == states[0].calls[t].(at := states[n].calls[t].at)
    ensures states[n].invalid == states[0].invalid
    ensures i < states[n].calls[t].at ==>
              && j < n && threads[j] == t && Tries(states[j], t, i)
              && states[j].slots[i] != Wanted(states[0], states[0].calls[t])
    decreases n
  {
    hide Balanced, Next, Tries;
    j := 0;
    if n > 0 {
      j := TriedBefore(states, threads, labels, t, n - 1, i);
      assert Next(states[n - 1], threads[n - 1], true, labels[n - 1], states[n - 1 + 1]);
      CallStep(states[n - 1], threads[n - 1], labels[n - 1], states[n], t);
      if threads[n - 1] == t && states[n - 1].calls[t].at == i {
        j := n - 1;
      }
    }
  }

  /** A try inside the window finds a slot that does not hold what is wanted. */
  lemma TryFails<T(!new)>(states: seq<Array<T>>, threads: seq<nat>, labels: seq<Label<T>>, t: nat, n: nat, j: nat)
    requires Window(states, threads, labels, t, n) && j < n && threads[j] == t
    ensures Balanced(states[j]) && Tries(states[j], t, states[j].calls[t].at)
    ensures states[j].slots[states[j].calls[t].at] != Wanted(states[0], states[0].calls[t])
    ensures states[j].invalid == states[0].invalid && states[0].calls[t].value != states[0].invalid
  {
    hide Next, Stored;
    assert Next(states[j], threads[j], true, labels[j], states[j + 1]);
    CallStep(states[j], t, labels[j], states[j + 1], t);
    var k := TriedBefore(states, threads, labels, t, j, 0);
    StaysBalanced(states, threads, labels, 0, j);
  }

  /** Slot i, which thread t tried at some step, stands vacated in state n. */
  ghost predicate StandsVacated<T(!new)>(states: seq<Array<T>>, threads: seq<nat>, labels: seq<Label<T>>,
                                         t: nat, n: nat, i: nat)
    requires n <= |labels| == |threads| && |states| == |labels| + 1
  {
    exists j | 0 <= j < n :: threads[j] == t && Tries(states[j], t, i) && Vacated(labels, i, j, n)
  }

  /** Slot i, which thread t tried at some step, stands filled with v in state n. */
  ghost predicate StandsFilled<T(!new)>(states: seq<Array<T>>, threads: seq<nat>, labels: seq<Label<T>>,
                                        t: nat, n: nat, i: nat, v: T)
    requires n <= |labels| == |threads| && |states| == |labels| + 1
  {
    exists j | 0 <= j < n :: threads[j] == t && Tries(states[j], t, i) && Filled(labels, i, v, j, n)
  }

  /** Slot i in state n, in terms of a try at step j. */
  lemma TriedSlot<T(!new)>(states: seq<Array<T>>, threads: seq<nat>, labels: seq<Label<T>>,
                           t: nat, n: nat, i: nat, j: nat)
    requires Window(states, threads, labels, t, n) && j < n && threads[j] == t && Tries(states[j], t, i)
    ensures i < |states[n].slots|
    ensures states[0].calls[t].Inserting? ==>
              (states[n].slots[i] == states[n].invalid <==> Vacated(labels, i, j, n))
    ensures states[0].calls[t].Removing? ==>
              var v := states[0].calls[t].value;
              (states[n].slots[i] == v <==> Filled(labels, i, v, j, n))
  {
    hide Balanced, Next, Vacated, Filled;
    TryFails(states, threads, labels, t, n, j);
    SlotHistory(states, threads, labels, i, states[0].calls[t].value, j, n);
  }

  /** While a call goes on, a slot it tried holds what it wants if and only if that came about after the try. */
  lemma PassedSlotIff<T(!new)>(states: seq<Array<T>>, threads: seq<nat>, labels: seq<Label<T>>, t: nat, n: nat, i: nat)
    requires Window(states, threads, labels, t, n) && i < states[n].calls[t].at && i < |states[n].slots|
    ensures states[0].calls[t].Inserting? ==>
              (states[n].slots[i] == states[n].invalid <==> StandsVacated(states, threads, labels, t, n, i))
    ensures states[0].calls[t].Removing? ==>
              var v := states[0].calls[t].value;
              (states[n].slots[i] == v <==> StandsFilled(states, threads, labels, t, n, i, v))
  {
    hide Balanced, Next, Vacated, Filled, Tries;
    var v := states[0].calls[t].value;
    var k := TriedBefore(states, threads, labels, t, n, i);
    TriedSlot(states, threads, labels, t, n, i, k);
    if j :| 0 <= j < n && threads[j] == t && Tries(states[j], t, i) && Vacated(labels, i, j, n) {
      TriedSlot(states, threads, labels, t, n, i, j);
    }
    if j :| 0 <= j < n && threads[j] == t && Tries(states[j], t, i) && Filled(labels, i, v, j, n) {
      TriedSlot(states, threads, labels, t, n, i, j);
    }
  }

  lemma FailedStep<T(!new)>(s: Array<T>, t: nat, l: Label<T>, s': Array<T>)
    requires Next(s, t, true, l, s') && t in s.calls && (l.InsertFailed? || l.RemoveFailed?)
    ensures s.calls[t].at >= |s.slots| && l.value == s.calls[t].value
    ensures l.InsertFailed? <==> s.calls[t].Inserting?
  {
  }

  /** At a failing step every slot has been tried. */
  lemma AllTried<T(!new)>(states: seq<Array<T>>, threads: seq<nat>, labels: seq<Label<T>>, t: nat, n: nat)
    requires Window(states, threads, labels, t, n) && n < |labels| && threads[n] == t
    requires labels[n].InsertFailed? || labels[n].RemoveFailed?
    ensures states[n].calls[t].at >= |states[n].slots| && labels[n].value == states[0].calls[t].value
    ensures labels[n].InsertFailed? <==> states[0].calls[t].Inserting?
  {
    hide Balanced, Next;
    assert Next(states[n], threads[n], true, labels[n], states[n + 1]);
    FailedStep(states[n], t, labels[n], states[n + 1]);
    var j := TriedBefore(states, threads, labels, t, n, 0);
  }

  /**
   When an insert fails, a slot is free if and only if it was vacated after the insert had passed it
   and not filled since; so the array is full if and only if no slot stands vacated.
   */
  lemma FailsFullIff<T(!new)>(states: seq<Array<T>>, threads: seq<nat>, labels: seq<Label<T>>, t: nat, n: nat)
    requires Window(states, threads, labels, t, n) && n < |labels| && threads[n] == t && labels[n].InsertFailed?
    ensures forall i: nat | i < |states[n].slots| ::
              states[n].slots[i] == states[n].invalid <==> StandsVacated(states, threads, labels, t, n, i)
    ensures states[n].invalid !in states[n].slots <==>
            forall i: nat | i < |states[n].slots| :: !StandsVacated(states, threads, labels, t, n, i)
  {
    hide Balanced, StandsVacated, StandsFilled, Next;
    AllTried(states, threads, labels, t, n);
    forall i: nat | i < |states[n].slots|
      ensures states[n].slots[i] == states[n].invalid <==> StandsVacated(states, threads, labels, t, n, i)
    {
      PassedSlotIff(states, threads, labels, t, n, i);
    }
  }

  /**
   When a remove fails, a slot holds the value if and only if it was filled with it after the remove had
   passed it and not vacated since; so the value is absent if and only if no slot stands filled with it.
   */
  lemma FailsAbsentIff<T(!new)>(states: seq<Array<T>>, threads: seq<nat>, labels: seq<Label<T>>, t: nat, n: nat)
    requires Window(states, threads, labels, t, n) && n < |labels| && threads[n] == t && labels[n].RemoveFailed?
    ensures forall i: nat | i < |states[n].slots| ::
              states[n].slots[i] == labels[n].value <==>
              StandsFilled(states, threads, labels, t, n, i, labels[n].value)
    ensures labels[n].value !in states[n].slots <==>
            forall i: nat | i < |states[n].slots| :: !StandsFilled(states, threads, labels, t, n, i, labels[n].value)
  {
    hide Balanced, StandsVacated, StandsFilled, Next;
    AllTried(states, threads, labels, t, n);
    forall i: nat | i < |states[n].slots|
      ensures states[n].slots[i] == labels[n].value <==>
              StandsFilled(states, threads, labels, t, n, i, labels[n].value)
    {
      PassedSlotIff(states, threads, labels, t, n, i);
    }
  }

  /** In particular, an insert during which nothing is removed fails only when the array is full. */
  lemma FailsOnlyWhenFullOrVacated<T(!new)>(states: seq<Array<T>>, threads: seq<nat>, labels: seq<Label<T>>,
                                            t: nat, n: nat)
    requires Window(states, threads, labels, t, n) && n < |labels|
    requires forall i | 0 <= i < n :: !labels[i].RemovedFrom?
    ensures threads[n] == t && labels[n].InsertFailed? ==> states[n].invalid !in states[n].slots
  {
    hide Next, Balanced, Tries;
    if threads[n] == t && labels[n].InsertFailed? {
      FailsFullIff(states, threads, labels, t, n);
    }
  }

  // ----- calls and their answers

  /** The call of thread t that waits for its answer, from the labels alone. */
  function Pending<T>(threads: seq<nat>, labels: seq<Label<T>>, t: nat): Option<Call<T>>
    requires |threads| == |labels|
  {
    if labels == [] then None
    else
      var n := |labels| - 1;
      if threads[n] != t || labels[n].Silent? then Pending(threads[..n], labels[..n], t)
      else if labels[n].Called? then Some(labels[n].call)
      else None
  }

  /** A label that fits the thread's call in progress: each answer belongs to the call and carries its value. */
  ghost predicate Fits<T>(pending: Option<Call<T>>, invalid: T, l: Label<T>) {
    match l
    case Silent => pending.Some?
    case Called(_) => pending == None
    case InsertedAt(v, _) => pending == Some(Inserting(v, 0))
    case InsertFailed(v) => pending == Some(Inserting(v, 0))
    case RemovedFrom(v, _) => pending == Some(Removing(v, 0))
    case RemoveFailed(v) => pending == Some(Removing(v, 0)) || (pending == None && v == invalid)
  }

  /** The state of a thread's call is what it began with, up to the slot it has come to. */
  ghost predicate InCall<T>(s: Array<T>, t: nat, pending: Option<Call<T>>) {
    if t in s.calls then pending == Some(s.calls[t].(at := 0)) else pending == None
  }

  lemma StepFits<T(!new)>(s: Array<T>, u: nat, withRemove: bool, l: Label<T>, s': Array<T>,
                          threads: seq<nat>, labels: seq<Label<T>>, t: nat)
    requires Next(s, u, withRemove, l, s') && |threads| == |labels| && InCall(s, t, Pending(threads, labels, t))
    ensures t == u ==> Fits(Pending(threads, labels, t), s.invalid, l)
    ensures InCall(s', t, Pending(threads + [u], labels + [l], t))
  {
    assert (threads + [u])[..|labels|] == threads && (labels + [l])[..|labels|] == labels;
  }

  /**
   In every run, calls and answers of each thread alternate, and an answer carries the value with which
   its call began: an insert stores that value or fails with it, a remove takes that value out or fails.
   */
  lemma {:induction false} CallsAnswered<T(!new)>(states: seq<Array<T>>, threads: seq<nat>, withRemove: bool,
                                                  labels: seq<Label<T>>)
    requires Run(states, threads, withRemove, labels)
    ensures forall k | 0 <= k < |labels| ::
              Fits(Pending(threads[..k], labels[..k], threads[k]), states[0].invalid, labels[k])
    ensures forall t: nat :: InCall(states[|labels|], t, Pending(threads, labels, t))
    ensures states[|labels|].invalid == states[0].invalid
    decreases |labels|
  {
    hide Next, Fits, InCall, Pending, Init;
    if labels == [] {
      InitIdle(states[0], threads, labels);
    } else {
      var n := |labels| - 1;
      var ts, ls := threads[..n], labels[..n];
      assert Run(states[..n + 1], ts, withRemove, ls);
      CallsAnswered(states[..n + 1], ts, withRemove, ls);
      assert Next(states[n], threads[n], withRemove, labels[n], states[n + 1]);
      StepPlaces(states[n], threads[n], withRemove, labels[n], states[n + 1]);
      assert threads == ts + [threads[n]] && labels == ls + [labels[n]];
      StepFits(states[n], threads[n], withRemove, labels[n], states[n + 1], ts, ls, threads[n]);
      forall t: nat ensures InCall(states[n + 1], t, Pending(threads, labels, t)) {
        StepFits(states[n], threads[n], withRemove, labels[n], states[n + 1], ts, ls, t);
      }
      assert forall k | 0 <= k < n :: threads[..k] == ts[..k] && labels[..k] == ls[..k];
    }
  }

  lemma InitIdle<T>(s: Array<T>, threads: seq<nat>, labels: seq<Label<T>>)
    requires Init(s) && labels == [] && threads == []
    ensures forall t: nat :: InCall(s, t, Pending(threads, labels, t))
  {
  }

  /** A call is never blocked, and ends within one step more than there are slots, whatever other threads do. */
  lemma WaitFree<T(!new)>(s: Array<T>, t: nat)
    requires t in s.calls && s.calls[t].at <= |s.slots|
    ensures exists l, s' :: Next(s, t, true, l, s')
    ensures forall l, s' | Next(s, t, true, l, s') && t in s'.calls ::
              s.calls[t].at < s'.calls[t].at <= |s'.slots| == |s.slots|
  {
    var l, s' := StepOf(s, t);
  }

  lemma StepOf<T(!new)>(s: Array<T>, t: nat) returns (l: Label<T>, s': Array<T>)
    requires t in s.calls
    ensures Next(s, t, true, l, s')
  {
    var c := s.calls[t];
    if c.at >= |s.slots| {
      l := if c.Inserting? then InsertFailed(c.value) else RemoveFailed(c.value);
      s' := s.(calls := s.calls - {t});
    } else if s.slots[c.at] != Wanted(s, c) {
      l, s' := Silent, s.(calls := s.calls[t := c.(at := c.at + 1)]);
    } else if c.Inserting? {
      l := InsertedAt(c.value, c.at);
      s' := s.(slots := s.slots[c.at := c.value], calls := s.calls - {t},
               placed := s.placed + [Placement(c.at, c.value)], inserted := s.inserted + multiset{c.value});
    } else {
      l := RemovedFrom(c.value, c.at);
      s' := s.(slots := s.slots[c.at := s.invalid], calls := s.calls - {t}, removed := s.removed + multiset{c.value});
    }
  }
}
