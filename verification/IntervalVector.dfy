/**
 A total function from 64-bit keys to values, kept as a sorted vector of (start, value) pairs:
 each value holds from its start up to the next one.
 */
module IntervalVector {
  import opened Seqs

  /** The largest key; intervals end at it at the latest and it belongs to none. */
  const LAST: nat := 0xFFFF_FFFF_FFFF_FFFF

  datatype Entry<V> = Entry(start: nat, val: V)

  type Entries<V> = seq<Entry<V>>

  ghost predicate Sorted<V>(m: Entries<V>) {
    && m != [] && m[0].start == 0
    && (forall i, j | 0 <= i < j < |m| :: m[i].start < m[j].start)
    && (forall i | 0 <= i < |m| :: m[i].start < LAST)
  }

  /** Neighbouring intervals have different values. */
  ghost predicate Merged<V>(m: Entries<V>) {
    forall i, j | 0 <= i && j == i + 1 && j < |m| :: m[i].val != m[j].val
  }

  ghost predicate Canonical<V>(m: Entries<V>) {
    Sorted(m) && Merged(m)
  }

  /** Number of starts that are less than or equal to the point. */
  function UpperBound<V>(m: Entries<V>, point: nat): (r: nat)
    ensures r <= |m|
    ensures Sorted(m) ==> forall i | 0 <= i < |m| :: m[i].start <= point <==> i < r
  {
    if m == [] then 0
    else if m[|m| - 1].start <= point then |m|
    else
      var init := m[..|m| - 1];
      assert Sorted(m) && init != [] ==> Sorted(init);
      UpperBound(init, point)
  }

  /** Number of starts that are less than the point. */
  function LowerBound<V>(m: Entries<V>, point: nat): (r: nat)
    ensures r <= |m|
    ensures Sorted(m) ==> forall i | 0 <= i < |m| :: m[i].start < point <==> i < r
  {
    if point == 0 then 0 else UpperBound(m, point - 1)
  }

  /** The value at a key. */
  function At<V>(m: Entries<V>, key: nat): V
    requires Sorted(m)
  {
    m[UpperBound(m, key) - 1].val
  }

  /** Entry i covers the key. */
  ghost predicate Covers<V>(m: Entries<V>, i: int, key: nat)
    requires 0 <= i < |m|
  {
    m[i].start <= key && (i + 1 < |m| ==> key < m[i + 1].start)
  }

  lemma AtEntry<V>(m: Entries<V>, key: nat, i: int)
    requires Sorted(m) && 0 <= i < |m|
    ensures Covers(m, i, key) ==> At(m, key) == m[i].val && UpperBound(m, key) == i + 1
  {
  }

  lemma AtCovers<V>(m: Entries<V>, key: nat) returns (i: nat)
    requires Sorted(m)
    ensures i < |m| && Covers(m, i, key) && At(m, key) == m[i].val && i + 1 == UpperBound(m, key)
  {
    i := UpperBound(m, key) - 1;
  }

  /** Two vectors give the same value everywhere. */
  ghost predicate SameMap<V>(m: Entries<V>, m': Entries<V>)
    requires Sorted(m) && Sorted(m')
  {
    forall key: nat | key < LAST :: At(m, key) == At(m', key)
  }

  /** Where one vector changes value the other cannot still hold the old one. */
  lemma NextStart<V>(m: Entries<V>, m': Entries<V>, i: nat)
    requires Canonical(m) && Canonical(m') && SameMap(m, m') && 0 < i < |m| && i < |m'| && m[i - 1] == m'[i - 1]
    ensures m'[i].start <= m[i].start
  {
    var key := m[i].start;
    AtEntry(m, key, i);
    AtEntry(m', key, i - 1);
    assert m[i - 1].val != m[i].val;
  }

  lemma {:induction false} EntryAgrees<V>(m: Entries<V>, m': Entries<V>, i: nat)
    requires Canonical(m) && Canonical(m') && SameMap(m, m') && i < |m| && i < |m'|
    ensures m[i] == m'[i]
  {
    if i > 0 {
      EntryAgrees(m, m', i - 1);
      NextStart(m, m', i);
      NextStart(m', m, i);
    }
    AtEntry(m, m[i].start, i);
    AtEntry(m', m[i].start, i);
  }

  lemma SameLength<V>(m: Entries<V>, m': Entries<V>)
    requires Canonical(m) && Canonical(m') && SameMap(m, m')
    ensures |m| <= |m'|
  {
    hide At, UpperBound;
    var n := |m'|;
    if n < |m| {
      EntryAgrees(m, m', n - 1);
      AtEntry(m, m[n].start, n);
      AtEntry(m', m[n].start, n - 1);
    }
  }

  /** Canonicity: the vector is determined by the function it represents. */
  lemma CanonicalUnique<V>(m: Entries<V>, m': Entries<V>)
    requires Canonical(m) && Canonical(m') && SameMap(m, m')
    ensures m == m'
  {
    SameLength(m, m');
    SameLength(m', m);
    forall i | 0 <= i < |m|
      ensures m[i] == m'[i]
    {
      EntryAgrees(m, m', i);
    }
  }

  // ----- merging equal neighbours

  /** `merge`: entry i is joined with an equal predecessor, then with an equal successor. */
  function MergeAt<V(==)>(m: Entries<V>, i: nat): Entries<V>
    requires i <= |m|
  {
    if i == |m| then m
    else if i > 0 && m[i].val == m[i - 1].val then JoinNext(Without(m, i), i - 1)
    else JoinNext(m, i)
  }

  function JoinNext<V(==)>(m: Entries<V>, i: nat): Entries<V>
    requires i < |m|
  {
    if i + 1 < |m| && m[i].val == m[i + 1].val then Without(m, i + 1) else m
  }

  /** Dropping an entry that repeats its predecessor's value does not change the function. */
  lemma DropSameMap<V>(m: Entries<V>, i: nat)
    requires Sorted(m) && 0 < i < |m| && m[i - 1].val == m[i].val
    ensures Sorted(Without(m, i)) && SameMap(m, Without(m, i))
  {
    hide UpperBound, At;
    var m' := Without(m, i);
    forall key: nat | key < LAST
      ensures At(m, key) == At(m', key)
    {
      var j := AtCovers(m, key);
      AtEntry(m', key, if j < i then j else j - 1);
    }
  }

  /** Equal neighbours occur only at entry i. */
  ghost predicate EqualOnlyAt<V>(m: Entries<V>, i: int) {
    forall j, k | 0 <= j && k == j + 1 && k < |m| && m[j].val == m[k].val :: j == i || k == i
  }

  ghost predicate EqualOnlyAfter<V>(m: Entries<V>, i: int) {
    forall j, k | 0 <= j && k == j + 1 && k < |m| && m[j].val == m[k].val :: j == i
  }

  lemma JoinNextCanonical<V>(m: Entries<V>, i: nat)
    requires Sorted(m) && i < |m| && EqualOnlyAfter(m, i)
    ensures Canonical(JoinNext(m, i)) && SameMap(m, JoinNext(m, i))
  {
    hide At;
    if i + 1 < |m| && m[i].val == m[i + 1].val { DropSameMap(m, i + 1); }
  }

  lemma MergeCanonical<V>(m: Entries<V>, i: nat)
    requires Sorted(m) && i < |m| && EqualOnlyAt(m, i)
    ensures Canonical(MergeAt(m, i)) && SameMap(m, MergeAt(m, i))
  {
    hide At, JoinNext;
    if i > 0 && m[i].val == m[i - 1].val {
      DropSameMap(m, i);
      assert EqualOnlyAfter(Without(m, i), i - 1);
      JoinNextCanonical(Without(m, i), i - 1);
    } else {
      assert EqualOnlyAfter(m, i);
      JoinNextCanonical(m, i);
    }
  }

  // ----- overriding an interval, before merging

  /** The entries behind an overridden interval that ends at b. */
  function Tail<V>(m: Entries<V>, b: nat): Entries<V>
  {
    var l := LowerBound(m, b);
    if b == LAST then []
    else if l < |m| && m[l].start == b then m[l..]
    else if l == 0 then m[l..]
    else [Entry(b, m[l - 1].val)] + m[l..]
  }

  function Override<V>(m: Entries<V>, a: nat, b: nat, val: V): Entries<V> {
    m[..LowerBound(m, a)] + [Entry(a, val)] + Tail(m, b)
  }

  /** The tail starts at b or later and holds the old values from there on. */
  lemma TailEntries<V>(m: Entries<V>, b: nat)
    requires Sorted(m) && 0 < b <= LAST
    ensures var t := Tail(m, b);
            && (b < LAST ==> t != [] && t[0].start == b)
            && (forall j | 0 <= j < |t| :: b <= t[j].start < LAST)
            && (forall j, k | 0 <= j < k < |t| :: t[j].start < t[k].start)
            && (Merged(m) ==> forall j, k | 0 <= j && k == j + 1 && k < |t| :: t[j].val != t[k].val)
  {
    hide UpperBound;
    var l := LowerBound(m, b);
    var t := Tail(m, b);
    assert forall j | 0 <= j < |m| - l :: m[l..][j] == m[l + j];
  }

  lemma TailAt<V>(m: Entries<V>, b: nat, key: nat) returns (j: nat)
    requires Sorted(m) && 0 < b <= key < LAST
    ensures j < |Tail(m, b)| && Covers(Tail(m, b), j, key) && Tail(m, b)[j].val == At(m, key)
  {
    hide UpperBound, At;
    var l := LowerBound(m, b);
    var i := AtCovers(m, key);
    var t := Tail(m, b);
    if l < |m| && m[l].start == b {
      j := i - l;
    } else {
      j := i + 1 - l;
    }
  }

  lemma OverrideSorted<V>(m: Entries<V>, a: nat, b: nat, val: V)
    requires Sorted(m) && a < b <= LAST
    ensures Sorted(Override(m, a, b, val))
  {
    hide UpperBound, Tail;
    TailEntries(m, b);
    var l := LowerBound(m, a);
    var r, t := Override(m, a, b, val), Tail(m, b);
    assert forall j | 0 <= j < l :: r[j] == m[j];
    assert forall j | l < j < |r| :: r[j] == t[j - l - 1];
  }

  lemma OverrideEntries<V>(m: Entries<V>, a: nat, b: nat, val: V)
    ensures var l, r, t := LowerBound(m, a), Override(m, a, b, val), Tail(m, b);
            && |r| == l + 1 + |t| && r[l] == Entry(a, val)
            && (forall j | 0 <= j < l :: r[j] == m[j])
            && (forall j | 0 <= j < |t| :: r[j + l + 1] == t[j])
  {
  }

  /** Overriding [a, b) changes exactly the keys of [a, b). */
  lemma OverrideAt<V>(m: Entries<V>, a: nat, b: nat, val: V, key: nat)
    requires Sorted(m) && a < b <= LAST && key < LAST
    ensures Sorted(Override(m, a, b, val))
    ensures At(Override(m, a, b, val), key) == if a <= key < b then val else At(m, key)
  {
    hide UpperBound, At, Tail, Override;
    OverrideSorted(m, a, b, val);
    OverrideEntries(m, a, b, val);
    TailEntries(m, b);
    var l, r := LowerBound(m, a), Override(m, a, b, val);
    if key < a {
      var i := AtCovers(m, key);
      AtEntry(r, key, i);
    } else if key < b {
      assert |r| > l + 1 ==> r[0 + l + 1] == Tail(m, b)[0];
      AtEntry(r, key, l);
    } else {
      var j := TailAt(m, b, key);
      assert j + 1 < |Tail(m, b)| ==> r[(j + 1) + l + 1] == Tail(m, b)[j + 1];
      AtEntry(r, key, j + l + 1);
    }
  }

  lemma OverrideEqualOnlyAt<V>(m: Entries<V>, a: nat, b: nat, val: V)
    requires Canonical(m) && a < b <= LAST
    ensures EqualOnlyAt(Override(m, a, b, val), LowerBound(m, a))
  {
    hide UpperBound, Tail;
    TailEntries(m, b);
    var l := LowerBound(m, a);
    var r, t := Override(m, a, b, val), Tail(m, b);
    assert forall j | 0 <= j < l :: r[j] == m[j];
    assert forall j | l < j < |r| :: r[j] == t[j - l - 1];
  }

  /** The canonical vector after `insert`. */
  function Inserted<V(==)>(m: Entries<V>, a: nat, b: nat, val: V): Entries<V> {
    MergeAt(Override(m, a, b, val), LowerBound(m, a))
  }

  /** `insert` is pointwise override, and keeps the canonical form. */
  lemma InsertedMeaning<V>(m: Entries<V>, a: nat, b: nat, val: V)
    requires Canonical(m) && a < b <= LAST
    ensures Canonical(Inserted(m, a, b, val))
    ensures forall key: nat | key < LAST ::
              At(Inserted(m, a, b, val), key) == if a <= key < b then val else At(m, key)
  {
    hide At, MergeAt, Override;
    OverrideSorted(m, a, b, val);
    OverrideEntries(m, a, b, val);
    OverrideEqualOnlyAt(m, a, b, val);
    MergeCanonical(Override(m, a, b, val), LowerBound(m, a));
    forall key: nat | key < LAST
      ensures At(Inserted(m, a, b, val), key) == if a <= key < b then val else At(m, key)
    {
      OverrideAt(m, a, b, val, key);
    }
  }

  // ----- the branches of `insert`

  function Erase<V>(m: Entries<V>, i: nat, j: nat): (r: Entries<V>)
    requires i <= j <= |m|
    ensures |r| == |m| - (j - i) && (i == j ==> r == m)
  {
    m[..i] + m[j..]
  }

  /** Inserting the value that is there already changes nothing. */
  lemma PointlessInsert<V>(m: Entries<V>, a: nat, b: nat, val: V)
    requires Canonical(m) && a < b <= LAST
    requires LowerBound(m, a) == LowerBound(m, b) && m[LowerBound(m, b) - 1].val == val
    ensures Inserted(m, a, b, val) == m
  {
    hide UpperBound, At, Inserted;
    InsertedMeaning(m, a, b, val);
    forall key: nat | key < LAST
      ensures At(Inserted(m, a, b, val), key) == At(m, key)
    {
      AtEntry(m, key, LowerBound(m, b) - 1);
    }
    CanonicalUnique(Inserted(m, a, b, val), m);
  }

  lemma NoMerge<V>(r: Entries<V>, i: nat)
    requires i < |r| && (i > 0 ==> r[i - 1].val != r[i].val) && (i + 1 < |r| ==> r[i].val != r[i + 1].val)
    ensures MergeAt(r, i) == r
  {
  }

  /** The cases of `insert`, each as the edits it makes to the vector; l and h are the two lower bounds. */

  lemma InsideToEnd<V>(m: Entries<V>, a: nat, val: V, l: nat)
    requires Sorted(m) && a < LAST && l == LowerBound(m, a) == LowerBound(m, LAST) && m[l - 1].val != val
    ensures InsertAt(m, l, Entry(a, val)) == Inserted(m, a, LAST, val)
  {
    NoMerge(Override(m, a, LAST, val), l);
  }

  lemma InsideTwoPoints<V>(m: Entries<V>, a: nat, b: nat, val: V, l: nat)
    requires Sorted(m) && a < b < LAST && l == LowerBound(m, a) == LowerBound(m, b) && m[l - 1].val != val
    requires l == |m| || m[l].start != b
    ensures InsertAt(InsertAt(m, l, Entry(a, val)), l + 1, Entry(b, m[l - 1].val)) == Inserted(m, a, b, val)
  {
    hide UpperBound, MergeAt, InsertAt, Override;
    OverrideEntries(m, a, b, val);
    assert Tail(m, b)[0] == Entry(b, m[l - 1].val);
    assert Override(m, a, b, val)[0 + l + 1] == Tail(m, b)[0];
    NoMerge(Override(m, a, b, val), l);
    OverrideTwoPoints(m, a, b, val, l);
    TwoInserts(m, l, Entry(a, val), Entry(b, m[l - 1].val));
  }

  lemma OverrideTwoPoints<V>(m: Entries<V>, a: nat, b: nat, val: V, l: nat)
    requires l == LowerBound(m, a) == LowerBound(m, b) && l > 0 && b < LAST && (l == |m| || m[l].start != b)
    ensures Override(m, a, b, val) == m[..l] + [Entry(a, val)] + [Entry(b, m[l - 1].val)] + m[l..]
  {
    hide UpperBound;
  }

  lemma TwoInserts<V>(m: Entries<V>, l: nat, e: Entry<V>, f: Entry<V>)
    requires l <= |m|
    ensures InsertAt(InsertAt(m, l, e), l + 1, f) == m[..l] + [e] + [f] + m[l..]
  {
  }

  lemma UpToStart<V>(m: Entries<V>, a: nat, b: nat, val: V, l: nat, h: nat)
    requires Sorted(m) && a < b < LAST && l == LowerBound(m, a) && h == LowerBound(m, b) && h < |m| && m[h].start == b
    ensures l <= h && InsertAt(Erase(m, l, h), l, Entry(a, val)) == Override(m, a, b, val)
  {
    hide UpperBound;
    assert Erase(m, l, h)[..l] == m[..l] && Erase(m, l, h)[l..] == m[h..];
  }

  lemma UpToInside<V>(m: Entries<V>, a: nat, b: nat, val: V, l: nat, h: nat)
    requires Sorted(m) && a < b < LAST && l == LowerBound(m, a) < h == LowerBound(m, b)
    requires h == |m| || m[h].start != b
    ensures var m1 := Erase(m[h - 1 := Entry(b, m[h - 1].val)], l, h - 1);
            InsertAt(m1, l, Entry(a, val)) == Override(m, a, b, val)
  {
    hide UpperBound;
    var m0 := m[h - 1 := Entry(b, m[h - 1].val)];
    var m1 := Erase(m0, l, h - 1);
    assert m0[..l] == m[..l] && m0[h - 1..] == [Entry(b, m[h - 1].val)] + m[h..];
    assert m1[..l] == m[..l] && m1[l..] == m0[h - 1..];
  }

  /** Moving the last entry's start before or after the erasure makes no difference. */
  lemma EraseBeforeLast<V>(m: Entries<V>, l: nat, e: Entry<V>)
    requires l < |m|
    ensures Erase(m[|m| - 1 := e], l, |m| - 1) == Erase(m, l, |m| - 1)[l := e]
    ensures Erase(m, l, |m| - 1)[l] == m[|m| - 1]
  {
  }

  lemma ToEnd<V>(m: Entries<V>, a: nat, val: V, l: nat)
    requires Sorted(m) && a < LAST && l == LowerBound(m, a)
    ensures Erase(m, l, |m|) + [Entry(a, val)] == Override(m, a, LAST, val)
  {
  }

  /** When the last entry already has the value, it is enough to move its start. */
  lemma ShiftLast<V>(m: Entries<V>, a: nat, b: nat, val: V, l: nat)
    requires Sorted(m) && a < b < LAST && l == LowerBound(m, a) < |m| == LowerBound(m, b) && m[|m| - 1].val == val
    ensures var m1 := Erase(m, l, |m| - 1);
            |m1| == l + 1 && m1[l].val == val && MergeAt(m1[l := Entry(a, val)], l) == Inserted(m, a, b, val)
  {
    hide UpperBound;
    var m1 := Erase(m, l, |m| - 1);
    var short := m1[l := Entry(a, val)];
    var r := Override(m, a, b, val);
    assert r == m[..l] + [Entry(a, val), Entry(b, val)] && short == m[..l] + [Entry(a, val)];
    if l > 0 && m[l - 1].val == val {
      assert Without(short, l) == m[..l] && Without(r, l) == m[..l] + [Entry(b, val)];
      assert Without(Without(r, l), l) == m[..l];
    } else {
      assert Without(r, l + 1) == short;
    }
  }

  // ----- lookup and removal

  /** End of entry i. */
  function EndOf<V>(m: Entries<V>, i: nat): nat
    requires i < |m|
  {
    if i + 1 < |m| then m[i + 1].start else LAST
  }

  /** [a, b) is a longest interval on which the function has the value. */
  ghost predicate MaximalRun<V>(m: Entries<V>, a: nat, b: nat, val: V)
    requires Sorted(m)
  {
    && a < b <= LAST
    && (forall key: nat | a <= key < b :: At(m, key) == val)
    && (a > 0 ==> At(m, a - 1) != val)
    && (b < LAST ==> At(m, b) != val)
  }

  lemma EntryIsMaximal<V>(m: Entries<V>, i: nat)
    requires Canonical(m) && i < |m|
    ensures MaximalRun(m, m[i].start, EndOf(m, i), m[i].val)
  {
    hide At, UpperBound;
    forall key: nat | m[i].start <= key < EndOf(m, i)
      ensures At(m, key) == m[i].val
    {
      AtEntry(m, key, i);
    }
    if i > 0 { AtEntry(m, m[i].start - 1, i - 1); }
    if i + 1 < |m| { AtEntry(m, m[i + 1].start, i + 1); }
  }

  /** Without entry i, its keys get the value in front of it. */
  lemma DropAt<V>(m: Entries<V>, i: nat)
    requires Sorted(m) && 0 < i < |m|
    ensures Sorted(Without(m, i))
    ensures forall key: nat | key < LAST ::
              At(Without(m, i), key) == if m[i].start <= key < EndOf(m, i) then m[i - 1].val else At(m, key)
  {
    hide At, UpperBound;
    var m' := Without(m, i);
    forall key: nat | key < LAST
      ensures At(m', key) == if m[i].start <= key < EndOf(m, i) then m[i - 1].val else At(m, key)
    {
      var j := AtCovers(m, key);
      AtEntry(m', key, if j < i then j else j - 1);
    }
  }

  /** Without the first entry, its keys get the value behind it. */
  lemma DropFirst<V>(m: Entries<V>)
    requires Canonical(m) && |m| > 1
    ensures var m' := Without(m[1 := Entry(0, m[1].val)], 0);
            Canonical(m') && forall key: nat | key < LAST ::
              At(m', key) == if key < m[1].start then m[1].val else At(m, key)
  {
    hide At, UpperBound;
    var m' := Without(m[1 := Entry(0, m[1].val)], 0);
    assert forall j, k | 0 <= j < k < |m'| :: m'[j].start < m'[k].start;
    forall key: nat | key < LAST
      ensures At(m', key) == if key < m[1].start then m[1].val else At(m, key)
    {
      var j := AtCovers(m, key);
      AtEntry(m', key, if j == 0 then 0 else j - 1);
    }
  }

  /** The value the keys of entry i get when it is removed. */
  function Replacement<V>(m: Entries<V>, i: nat, default: V): V
    requires i < |m|
  {
    if i > 0 then m[i - 1].val else if |m| > 1 then m[1].val else default
  }

  /** m' is m with the keys of entry i reset, in canonical form. */
  ghost predicate Removed<V>(m: Entries<V>, i: nat, default: V, m': Entries<V>)
    requires Sorted(m) && i < |m|
  {
    && Canonical(m')
    && forall key: nat | key < LAST ::
         At(m', key) == if m[i].start <= key < EndOf(m, i) then Replacement(m, i, default) else At(m, key)
  }

  lemma RemoveOne<V>(m: Entries<V>, i: nat, default: V)
    requires Canonical(m) && 0 < i < |m| && (i + 1 < |m| ==> m[i - 1].val != m[i + 1].val)
    ensures Removed(m, i, default, Without(m, i))
  {
    hide At;
    DropAt(m, i);
  }

  lemma RemoveTwo<V>(m: Entries<V>, i: nat, default: V)
    requires Canonical(m) && 0 < i && i + 1 < |m| && m[i - 1].val == m[i + 1].val
    ensures Removed(m, i, default, Without(Without(m, i + 1), i))
  {
    hide At, Merged;
    DropAt(m, i);
    DropBoth(m, i);
    DropSameMap(Without(m, i), i);
    DropBothMerged(m, i);
  }

  lemma DropBoth<V>(m: Entries<V>, i: nat)
    requires i + 1 < |m|
    ensures Without(Without(m, i + 1), i) == Without(Without(m, i), i)
  {
  }

  lemma DropBothMerged<V>(m: Entries<V>, i: nat)
    requires Merged(m) && 0 < i && i + 1 < |m| && m[i - 1].val == m[i + 1].val
    ensures Merged(Without(Without(m, i), i))
  {
    var m' := Without(Without(m, i), i);
    assert forall j | 0 <= j < |m'| :: m'[j] == if j < i then m[j] else m[j + 2];
  }

  lemma RemoveOnly<V>(m: Entries<V>, default: V)
    requires Canonical(m) && |m| == 1
    ensures Removed(m, 0, default, [Entry(0, default)])
  {
  }

  // ----- searching for room

  /** [s, s + size) lies below the limit and has the value throughout. */
  ghost predicate Fits<V>(m: Entries<V>, size: nat, val: V, limit: nat, s: nat)
    requires Sorted(m)
  {
    s + size <= limit && forall key: nat | s <= key < s + size :: At(m, key) == val
  }

  /** In canonical form a fitting range lies inside one entry. */
  lemma FitInEntry<V>(m: Entries<V>, size: nat, val: V, limit: nat, s: nat) returns (i: nat)
    requires Canonical(m) && Fits(m, size, val, limit, s) && size > 0 && limit <= LAST
    ensures i < |m| && m[i].val == val && m[i].start <= s && s + size <= EndOf(m, i)
  {
    hide At, UpperBound;
    i := AtCovers(m, s);
    if i + 1 < |m| {
      AtEntry(m, m[i + 1].start, i + 1);
    }
  }

  lemma EntryFits<V>(m: Entries<V>, size: nat, limit: nat, i: nat, s: nat)
    requires Sorted(m) && i < |m| && m[i].start <= s && s + size <= EndOf(m, i) && s + size <= limit
    ensures Fits(m, size, m[i].val, limit, s)
  {
    hide At, UpperBound;
    forall key: nat | s <= key < s + size
      ensures At(m, key) == m[i].val
    {
      AtEntry(m, key, i);
    }
  }

  /** [a, b) is the highest fit among the first n entries, or empty if they hold none. */
  ghost predicate BestFit<V>(m: Entries<V>, size: nat, val: V, limit: nat, n: nat, a: nat, b: nat)
    requires Sorted(m) && n <= |m|
  {
    && (a < b ==> b == a + size && Fits(m, size, val, limit, a) && (n < |m| ==> a < m[n].start))
    && (a >= b ==> a == b == 0)
    && (forall s: nat | Fits(m, size, val, limit, s) && (n < |m| ==> s < m[n].start) :: a < b && s <= a)
  }

  lemma BestFitStep<V>(m: Entries<V>, size: nat, val: V, limit: nat, n: nat, a: nat, b: nat)
    requires Canonical(m) && n < |m| && size > 0 && limit <= LAST && BestFit(m, size, val, limit, n, a, b)
    ensures var end := if EndOf(m, n) < limit then EndOf(m, n) else limit;
            if m[n].val == val && EndOf(m, n) - m[n].start >= size && m[n].start + size <= limit
            then end >= size && BestFit(m, size, val, limit, n + 1, end - size, end)
            else BestFit(m, size, val, limit, n + 1, a, b)
  {
    hide At, UpperBound, Fits;
    var end := if EndOf(m, n) < limit then EndOf(m, n) else limit;
    if m[n].val == val && EndOf(m, n) - m[n].start >= size && m[n].start + size <= limit {
      EntryFits(m, size, limit, n, end - size);
    }
    forall s: nat | Fits(m, size, val, limit, s) && (n + 1 < |m| ==> s < m[n + 1].start)
      ensures s < m[n].start || (m[n].val == val && s + size <= EndOf(m, n) && s + size <= limit && m[n].start <= s)
    {
      FitBelow(m, size, val, limit, s);
      var i := FitInEntry(m, size, val, limit, s);
    }
  }

  lemma FitBelow<V>(m: Entries<V>, size: nat, val: V, limit: nat, s: nat)
    requires Sorted(m) && Fits(m, size, val, limit, s)
    ensures s + size <= limit
  {
  }

  /** Where a search below the limit stops in entry i. */
  function StopAt<V>(m: Entries<V>, i: nat, limit: nat): nat
    requires i < |m|
  {
    if EndOf(m, i) < limit then EndOf(m, i) else limit
  }

  /** Entry i has the value and begins at or below the limit. */
  predicate Reaches<V(==)>(m: Entries<V>, i: nat, val: V, limit: nat)
    requires i < |m|
  {
    m[i].val == val && m[i].start <= limit
  }

  /** a is the highest stop among the first n entries that have the value, or 0 if there is none. */
  ghost predicate HighestStop<V>(m: Entries<V>, val: V, limit: nat, n: nat, a: nat)
    requires n <= |m|
  {
    && (forall i: nat | i < n && Reaches(m, i, val, limit) :: StopAt(m, i, limit) <= a)
    && (a == 0 || exists i: nat :: i < n && Reaches(m, i, val, limit) && a == StopAt(m, i, limit))
  }

  lemma HighestStopStep<V>(m: Entries<V>, val: V, limit: nat, n: nat, a: nat)
    requires Sorted(m) && n < |m| && HighestStop(m, val, limit, n, a)
    ensures HighestStop(m, val, limit, n + 1, if Reaches(m, n, val, limit) then StopAt(m, n, limit) else a)
  {
    hide Sorted;
    forall i: nat | i < n
      ensures StopAt(m, i, limit) <= StopAt(m, n, limit)
    {
      StopsAscend(m, i, n, limit);
    }
  }

  lemma StopsAscend<V>(m: Entries<V>, i: nat, n: nat, limit: nat)
    requires Sorted(m) && i < n < |m|
    ensures StopAt(m, i, limit) <= StopAt(m, n, limit)
  {
    assert m[i + 1].start <= m[n].start;
  }

  class IntervalVec<V(==)> {
    var m: Entries<V>

    constructor (val: V)
      ensures Canonical(m) && forall key: nat :: At(m, key) == val
    {
      m := [Entry(0, val)];
    }

    method Merge(newElem: nat)
      requires newElem <= |m|
      modifies this
      ensures m == MergeAt(old(m), newElem)
    {
      var cur := newElem;
      if cur == |m| {
        return;
      }
      if cur != 0 && m[cur].val == m[cur - 1].val {
        m := m[cur := Entry(m[cur - 1].start, m[cur].val)];
        m := Erase(m, cur - 1, cur);
        assert m == Without(old(m), cur);
        cur := cur - 1;
      }
      if cur + 1 != |m| && m[cur].val == m[cur + 1].val {
        m := Erase(m, cur + 1, cur + 2);
      }
    }

    /** Destructive insert of a non-empty interval. */
    method Insert(a: nat, b: nat, val: V) returns (r: bool)
      requires Canonical(m) && a < b <= LAST
      modifies this
      ensures r && m == Inserted(old(m), a, b, val)
      ensures Canonical(m)
      ensures forall key: nat | key < 0xFFFF_FFFF_FFFF_FFFF ::
                At(m, key) == if a <= key < b then val else At(old(m), key)
    {
      hide UpperBound, At, MergeAt, Override, Tail, Merged, InsertAt, Erase;
      InsertedMeaning(m, a, b, val);
      var lba, lbb := LowerBound(m, a), LowerBound(m, b);
      r := true;
      if lba == lbb {
        if val == m[lbb - 1].val {
          PointlessInsert(m, a, b, val);
          return;
        }
        if b == LAST {
          InsideToEnd(m, a, val, lba);
          m := InsertAt(m, lbb, Entry(a, val));
          return;
        }
        if lbb == |m| || b != m[lbb].start {
          InsideTwoPoints(m, a, b, val, lba);
          var curVal := m[lba - 1].val;
          m := InsertAt(m, lbb, Entry(a, val));
          m := InsertAt(m, lbb + 1, Entry(b, curVal));
          return;
        }
        UpToStart(m, a, b, val, lba, lbb);
        m := InsertAt(m, lbb, Entry(a, val));
        Merge(lbb);
        return;
      }
      if lbb == |m| {
        if b == LAST {
          ToEnd(m, a, val, lba);
          m := Erase(m, lba, lbb);
          m := m + [Entry(a, val)];
          Merge(lba);
          return;
        }
        var last := lbb - 1;
        if m[last].val == val {
          ShiftLast(m, a, b, val, lba);
          m := Erase(m, lba, last);
          m := m[lba := Entry(a, m[lba].val)];
          Merge(lba);
        } else {
          UpToInside(m, a, b, val, lba, lbb);
          EraseBeforeLast(m, lba, Entry(b, m[last].val));
          m := Erase(m, lba, last);
          m := m[lba := Entry(b, m[lba].val)];
          m := InsertAt(m, lba, Entry(a, val));
          Merge(lba);
        }
        return;
      }
      var deleteUpTo := lbb;
      if b != m[lbb].start {
        UpToInside(m, a, b, val, lba, lbb);
        m := m[lbb - 1 := Entry(b, m[lbb - 1].val)];
        deleteUpTo := lbb - 1;
      } else {
        UpToStart(m, a, b, val, lba, lbb);
      }
      m := Erase(m, lba, deleteUpTo);
      m := InsertAt(m, lba, Entry(a, val));
      Merge(lba);
    }

    /** The interval that holds the point, and its value. */
    method Find(point: nat) returns (a: nat, b: nat, val: V)
      requires Canonical(m) && point <= LAST
      ensures MaximalRun(m, a, b, val) && a <= point && (point < LAST ==> point < b)
      ensures a == m[UpperBound(m, point) - 1].start && b == EndOf(m, UpperBound(m, point) - 1)
    {
      hide At;
      var upper := UpperBound(m, point);
      var lower := upper - 1;
      EntryIsMaximal(m, lower);
      a, val := m[lower].start, m[lower].val;
      b := if upper == |m| then LAST else m[upper].start;
    }

    /** Resets the interval that holds the point. */
    method Remove(point: nat, default: V) returns (r: bool)
      requires Canonical(m) && point <= LAST
      modifies this
      ensures r && Removed(old(m), UpperBound(old(m), point) - 1, default, m)
    {
      hide At, Removed, Merged;
      var next := UpperBound(m, point);
      var actual := next - 1;
      if next != |m| {
        if actual == 0 {
          RemoveFirst(m, default);
          m := m[next := Entry(0, m[next].val)];
        } else {
          var before := actual - 1;
          if m[before].val == m[next].val {
            RemoveTwo(m, actual, default);
            m := Without(m, next);
          } else {
            RemoveOne(m, actual, default);
          }
        }
      } else if actual == 0 {
        RemoveOnly(m, default);
        m := [Entry(m[actual].start, default)];
        return true;
      } else {
        RemoveOne(m, actual, default);
      }
      m := Without(m, actual);
      return true;
    }

    /** The highest interval of the given size below the limit on which the value is held. */
    method FindLastFit(size: nat, val: V, limit: nat) returns (a: nat, b: nat)
      requires Canonical(m) && limit <= LAST
      ensures size > 0 ==> BestFit(m, size, val, limit, |m|, a, b)
      ensures size == 0 ==> a == b && HighestStop(m, val, limit, |m|, a)
    {
      hide At, BestFit, HighestStop;
      a, b := 0, 0;
      NoFitYet(m, size, val, limit);
      for i := 0 to |m|
        invariant size > 0 ==> BestFit(m, size, val, limit, i, a, b)
        invariant size == 0 ==> a == b && HighestStop(m, val, limit, i, a)
      {
        if size > 0 {
          BestFitStep(m, size, val, limit, i, a, b);
        } else {
          HighestStopStep(m, val, limit, i, a);
        }
        if m[i].val == val {
          AtEntry(m, m[i].start, i);
          var start, end, v := Find(m[i].start);
          if end - start >= size && start + size <= limit {
            var stop := if end < limit then end else limit;
            a, b := stop - size, stop;
          }
        }
      }
    }
  }

  lemma RemoveFirst<V>(m: Entries<V>, default: V)
    requires Canonical(m) && |m| > 1
    ensures Removed(m, 0, default, Without(m[1 := Entry(0, m[1].val)], 0))
  {
    hide At;
    DropFirst(m);
  }

  lemma NoFitYet<V>(m: Entries<V>, size: nat, val: V, limit: nat)
    requires Sorted(m)
    ensures BestFit(m, size, val, limit, 0, 0, 0) && HighestStop(m, val, limit, 0, 0)
  {
  }
}
