/** Two runs of the lock-free array in which a call fails although it could have been served at every moment. */
module LockFreeArrayRuns {
  import opened LockFreeArray

  // ----- with remove, an insert may fail although the array is never full

  /** The first half of the run: thread 0 inserts 7, threads 1 and 2 pass its slot. */
  function Filling(i: nat): Array<int> {
    var p := [Placement(0, 7)];
    if i == 0 then Array(0, [0, 0], map[], [], multiset{}, multiset{})
    else if i == 1 then Array(0, [0, 0], map[0 := Inserting(7, 0)], [], multiset{}, multiset{})
    else if i == 2 then Array(0, [7, 0], map[], p, multiset{7}, multiset{})
    else if i == 3 then Array(0, [7, 0], map[1 := Inserting(8, 0)], p, multiset{7}, multiset{})
    else if i == 4 then Array(0, [7, 0], map[1 := Inserting(8, 1)], p, multiset{7}, multiset{})
    else if i == 5 then Array(0, [7, 0], map[1 := Inserting(8, 1), 2 := Inserting(9, 0)], p, multiset{7}, multiset{})
    else Array(0, [7, 0], map[1 := Inserting(8, 1), 2 := Inserting(9, 1)], p, multiset{7}, multiset{})
  }

  /** The second half: thread 3 removes 7, thread 2 takes slot 1 and thread 1 finds nothing. */
  function Failing(i: nat): Array<int> {
    var p := [Placement(0, 7), Placement(1, 9)];
    var c1, c2 := Inserting(8, 1), Inserting(9, 1);
    if i == 0 then Array(0, [7, 0], map[1 := c1, 2 := c2, 3 := Removing(7, 0)], p[..1], multiset{7}, multiset{})
    else if i == 1 then Array(0, [0, 0], map[1 := c1, 2 := c2], p[..1], multiset{7}, multiset{7})
    else if i == 2 then Array(0, [0, 9], map[1 := c1], p, multiset{7, 9}, multiset{7})
    else if i == 3 then Array(0, [0, 9], map[1 := Inserting(8, 2)], p, multiset{7, 9}, multiset{7})
    else Array(0, [0, 9], map[], p, multiset{7, 9}, multiset{7})
  }

  const FILLING: seq<Label<int>> :=
    [Called(Inserting(7, 0)), InsertedAt(7, 0), Called(Inserting(8, 0)), Silent, Called(Inserting(9, 0)), Silent]

  lemma FillingSteps(i: nat)
    requires i < 6
    ensures Next(Filling(i), [0, 0, 1, 1, 2, 2][i], true, FILLING[i], Filling(i + 1))
  {
  }

  lemma FailingStarts()
    ensures Next(Filling(6), 3, true, Called(Removing(7, 0)), Failing(0))
  {
    var s, s' := Filling(6), Failing(0);
    assert s' == s.(calls := s.calls[3 := Removing(7, 0)]);
  }

  lemma FailingRemoves()
    ensures Next(Failing(0), 3, true, RemovedFrom(7, 0), Failing(1))
  {
  }

  lemma FailingTakes()
    ensures Next(Failing(1), 2, true, InsertedAt(9, 1), Failing(2))
  {
  }

  lemma FailingPasses()
    ensures Next(Failing(2), 1, true, Silent, Failing(3)) && Next(Failing(3), 1, true, InsertFailed(8), Failing(4))
  {
  }

  lemma FailingSteps(i: nat)
    requires i < 4
    ensures Next(Failing(i), [3, 2, 1, 1][i], true,
                 [RemovedFrom(7, 0), InsertedAt(9, 1), Silent, InsertFailed(8)][i], Failing(i + 1))
  {
    hide Next, Failing;
    FailingRemoves();
    FailingTakes();
    FailingPasses();
  }

  /**
   Threads 1 and 2 both pass slot 0 while it is taken; then its value is removed and thread 2 takes
   slot 1. Thread 1 fails, although one of the two slots was free at every moment.
   */
  lemma FailsWithRoom() returns (states: seq<Array<int>>, threads: seq<nat>, labels: seq<Label<int>>)
    ensures Run(states, threads, true, labels)
    ensures labels != [] && labels[|labels| - 1] == InsertFailed(8)
    ensures forall i | 0 <= i < |states| :: |states[i].slots| == 2 && 0 in states[i].slots
  {
    hide Next;
    states := seq(12, i requires 0 <= i < 12 => if i < 7 then Filling(i) else Failing(i - 7));
    threads := [0, 0, 1, 1, 2, 2] + [3] + [3, 2, 1, 1];
    labels := FILLING + [Called(Removing(7, 0))] + [RemovedFrom(7, 0), InsertedAt(9, 1), Silent, InsertFailed(8)];
    forall i | 0 <= i < |labels|
      ensures Next(states[i], threads[i], true, labels[i], states[i + 1])
    {
      if i < 6 { FillingSteps(i); } else if i == 6 { FailingStarts(); } else { FailingSteps(i - 7); }
    }
  }

  // ----- a remove may fail although the value is always there

  /** Thread 0 stores 8 and 7. */
  function Storing(i: nat): Array<int> {
    var p := [Placement(0, 8), Placement(1, 7)];
    if i == 0 then Array(0, [0, 0], map[], [], multiset{}, multiset{})
    else if i == 1 then Array(0, [0, 0], map[0 := Inserting(8, 0)], [], multiset{}, multiset{})
    else if i == 2 then Array(0, [8, 0], map[], p[..1], multiset{8}, multiset{})
    else if i == 3 then Array(0, [8, 0], map[0 := Inserting(7, 0)], p[..1], multiset{8}, multiset{})
    else if i == 4 then Array(0, [8, 0], map[0 := Inserting(7, 1)], p[..1], multiset{8}, multiset{})
    else Array(0, [8, 7], map[], p, multiset{8, 7}, multiset{})
  }

  /** Threads 1 and 2, which look for 7, pass slot 0, and thread 3 removes 8 from it. */
  function Passing(i: nat): Array<int> {
    var p := [Placement(0, 8), Placement(1, 7)];
    var c1, c2 := Removing(7, 1), Removing(7, 1);
    if i == 0 then Array(0, [8, 7], map[1 := Removing(7, 0)], p, multiset{8, 7}, multiset{})
    else if i == 1 then Array(0, [8, 7], map[1 := c1], p, multiset{8, 7}, multiset{})
    else if i == 2 then Array(0, [8, 7], map[1 := c1, 2 := Removing(7, 0)], p, multiset{8, 7}, multiset{})
    else if i == 3 then Array(0, [8, 7], map[1 := c1, 2 := c2], p, multiset{8, 7}, multiset{})
    else if i == 4 then Array(0, [8, 7], map[1 := c1, 2 := c2, 3 := Removing(8, 0)], p, multiset{8, 7}, multiset{})
    else Array(0, [0, 7], map[1 := c1, 2 := c2], p, multiset{8, 7}, multiset{8})
  }

  /** Thread 3 stores 7 in slot 0, thread 2 removes the one in slot 1, and thread 1 finds nothing. */
  function Missing(i: nat): Array<int> {
    var p := [Placement(0, 8), Placement(1, 7), Placement(0, 7)];
    var c1, c2 := Removing(7, 1), Removing(7, 1);
    if i == 0 then Array(0, [0, 7], map[1 := c1, 2 := c2, 3 := Inserting(7, 0)], p[..2], multiset{8, 7}, multiset{8})
    else if i == 1 then Array(0, [7, 7], map[1 := c1, 2 := c2], p, multiset{8, 7, 7}, multiset{8})
    else if i == 2 then Array(0, [7, 0], map[1 := c1], p, multiset{8, 7, 7}, multiset{8, 7})
    else if i == 3 then Array(0, [7, 0], map[1 := Removing(7, 2)], p, multiset{8, 7, 7}, multiset{8, 7})
    else Array(0, [7, 0], map[], p, multiset{8, 7, 7}, multiset{8, 7})
  }

  const STORING: seq<Label<int>> :=
    [Called(Inserting(8, 0)), InsertedAt(8, 0), Called(Inserting(7, 0)), Silent, InsertedAt(7, 1)]

  const PASSING: seq<Label<int>> :=
    [Silent, Called(Removing(7, 0)), Silent, Called(Removing(8, 0)), RemovedFrom(8, 0)]

  lemma StoringFirst()
    ensures Next(Storing(0), 0, true, Called(Inserting(8, 0)), Storing(1))
    ensures Next(Storing(1), 0, true, InsertedAt(8, 0), Storing(2))
  {
    var s := Storing(0);
    assert Storing(1) == s.(calls := s.calls[0 := Inserting(8, 0)]);
  }

  lemma StoringSecond()
    ensures Next(Storing(2), 0, true, Called(Inserting(7, 0)), Storing(3))
    ensures Next(Storing(3), 0, true, Silent, Storing(4))
    ensures Next(Storing(4), 0, true, InsertedAt(7, 1), Storing(5))
  {
    var s := Storing(2);
    assert Storing(3) == s.(calls := s.calls[0 := Inserting(7, 0)]);
  }

  lemma StoringSteps(i: nat)
    requires i < 5
    ensures Next(Storing(i), 0, true, STORING[i], Storing(i + 1))
  {
    hide Next, Storing;
    StoringFirst();
    StoringSecond();
  }

  lemma PassingStarts()
    ensures Next(Storing(5), 1, true, Called(Removing(7, 0)), Passing(0))
  {
    var s := Storing(5);
    assert Passing(0) == s.(calls := s.calls[1 := Removing(7, 0)]);
  }

  lemma PassingBegins()
    ensures Next(Passing(1), 2, true, Called(Removing(7, 0)), Passing(2))
    ensures Next(Passing(3), 3, true, Called(Removing(8, 0)), Passing(4))
  {
    var s, s' := Passing(1), Passing(3);
    assert Passing(2) == s.(calls := s.calls[2 := Removing(7, 0)]);
    assert Passing(4) == s'.(calls := s'.calls[3 := Removing(8, 0)]);
  }

  lemma PassingMoves()
    ensures Next(Passing(0), 1, true, Silent, Passing(1)) && Next(Passing(2), 2, true, Silent, Passing(3))
    ensures Next(Passing(4), 3, true, RemovedFrom(8, 0), Passing(5))
  {
  }

  lemma PassingSteps(i: nat)
    requires i < 5
    ensures Next(Passing(i), [1, 2, 2, 3, 3][i], true, PASSING[i], Passing(i + 1))
  {
    hide Next, Passing;
    PassingBegins();
    PassingMoves();
  }

  lemma MissingStarts()
    ensures Next(Passing(5), 3, true, Called(Inserting(7, 0)), Missing(0))
  {
    var s := Passing(5);
    assert Missing(0) == s.(calls := s.calls[3 := Inserting(7, 0)]);
  }

  lemma MissingTakes()
    ensures Next(Missing(0), 3, true, InsertedAt(7, 0), Missing(1))
    ensures Next(Missing(1), 2, true, RemovedFrom(7, 1), Missing(2))
  {
  }

  lemma MissingPasses()
    ensures Next(Missing(2), 1, true, Silent, Missing(3)) && Next(Missing(3), 1, true, RemoveFailed(7), Missing(4))
  {
  }

  lemma MissingSteps(i: nat)
    requires i < 4
    ensures Next(Missing(i), [3, 2, 1, 1][i], true,
                 [InsertedAt(7, 0), RemovedFrom(7, 1), Silent, RemoveFailed(7)][i], Missing(i + 1))
  {
    hide Next, Missing;
    MissingTakes();
    MissingPasses();
  }

  /**
   Threads 1 and 2 look for 7 and both pass slot 0; then another 7 is stored there and thread 2 removes
   the first one. Thread 1 fails, although a 7 was stored from before its call to after it.
   */
  lemma RemoveMisses() returns (states: seq<Array<int>>, threads: seq<nat>, labels: seq<Label<int>>)
    ensures Run(states, threads, true, labels)
    ensures |labels| == 16 && labels[15] == RemoveFailed(7) && threads[15] == 1
    ensures 1 !in states[5].calls && forall i | 6 <= i <= 15 :: 1 in states[i].calls
    ensures forall i | 5 <= i <= 16 :: 7 in states[i].slots
  {
    hide Next;
    states := seq(17, i requires 0 <= i < 17 =>
                    if i < 6 then Storing(i) else if i < 12 then Passing(i - 6) else Missing(i - 12));
    threads := [0, 0, 0, 0, 0] + [1] + [1, 2, 2, 3, 3] + [3] + [3, 2, 1, 1];
    labels := STORING + [Called(Removing(7, 0))] + PASSING + [Called(Inserting(7, 0))]
              + [InsertedAt(7, 0), RemovedFrom(7, 1), Silent, RemoveFailed(7)];
    forall i | 0 <= i < |labels|
      ensures Next(states[i], threads[i], true, labels[i], states[i + 1])
    {
      if i < 5 {
        StoringSteps(i);
      } else if i == 5 {
        PassingStarts();
      } else if i < 11 {
        PassingSteps(i - 6);
      } else if i == 11 {
        MissingStarts();
      } else {
        MissingSteps(i - 12);
      }
    }
    forall i | 5 <= i <= 16
      ensures 7 in states[i].slots && (6 <= i <= 15 ==> 1 in states[i].calls)
    {
      HoldsSeven(if i < 12 then if i < 6 then 0 else i - 6 else i - 12);
    }
  }

  lemma HoldsSeven(i: nat)
    ensures 7 in Storing(5).slots && 7 in Passing(i).slots && 7 in Missing(i).slots
    ensures i < 6 ==> 1 in Passing(i).calls
    ensures i < 4 ==> 1 in Missing(i).calls
  {
    assert Storing(5).slots[1] == 7 && (i < 6 ==> Passing(i).slots[1] == 7);
    assert if i < 2 then Missing(i).slots[1] == 7 else Missing(i).slots[0] == 7;
  }
}
