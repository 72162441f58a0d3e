/**
 * The display order of deadlines (sortDeadlinesByUrgency in
 * src/utils/deadline.ts): completed deadlines last, then by urgency rank,
 * then by due date, on a fresh copy of the input, with a stable sort.
 * One instant `now` is used for every comparison of a sort.
 */
module UrgencySort {
  import opened DeadlineTypes
  import opened Urgency

  /** The three keys the comparator consults, in order. */
  datatype SortKey = SortKey(completed: nat, rank: nat, due: int)

  function KeyOf(d: Deadline, now: int): SortKey
  {
    SortKey(if d.status == Completed then 1 else 0, Rank(UrgencyLevelOf(d.due_date, now)), d.due_date)
  }

  /** Lexicographic order on keys. */
  predicate KeyLess(k1: SortKey, k2: SortKey)
  {
    || k1.completed < k2.completed
    || (k1.completed == k2.completed && k1.rank < k2.rank)
    || (k1.completed == k2.completed && k1.rank == k2.rank && k1.due < k2.due)
  }

  /**
   * The comparator passed to Array.prototype.sort. Its sign is the
   * lexicographic comparison of the three keys.
   */
  function Compare(a: Deadline, b: Deadline, now: int): (r: int)
    ensures r < 0 <==> KeyLess(KeyOf(a, now), KeyOf(b, now))
    ensures r == 0 <==> KeyOf(a, now) == KeyOf(b, now)
    ensures r > 0 <==> KeyLess(KeyOf(b, now), KeyOf(a, now))
  {
    if a.status == Completed && b.status != Completed then 1
    else if b.status == Completed && a.status != Completed then -1
    else
      var urgencyA := Rank(UrgencyLevelOf(a.due_date, now));
      var urgencyB := Rank(UrgencyLevelOf(b.due_date, now));
      if urgencyA != urgencyB then urgencyA - urgencyB
      else a.due_date - b.due_date
  }

  /** With a fixed `now` the comparator is a total preorder. */
  lemma CompareTotalPreorder(a: Deadline, b: Deadline, c: Deadline, now: int)
    ensures Compare(a, a, now) == 0
    ensures Compare(a, b, now) <= 0 || Compare(b, a, now) <= 0
    ensures Compare(a, b, now) <= 0 && Compare(b, c, now) <= 0 ==> Compare(a, c, now) <= 0
  {
  }

  /** Every earlier element compares at most equal to every later one. */
  ghost predicate Sorted(s: seq<Deadline>, now: int)
  {
    forall i, j :: 0 <= i < j < |s| ==> Compare(s[i], s[j], now) <= 0
  }

  /**
   * Inserts x after every element that does not compare greater than it,
   * which is what one step of a stable insertion sort does.
   */
  function Insert(t: seq<Deadline>, x: Deadline, now: int): (r: seq<Deadline>)
    ensures |r| == |t| + 1
  {
    if t == [] then [x]
    else if Compare(t[|t| - 1], x, now) > 0 then Insert(t[..|t| - 1], x, now) + [t[|t| - 1]]
    else t + [x]
  }

  /** The order a stable sort with the comparator produces. */
  function SortSpec(s: seq<Deadline>, now: int): (r: seq<Deadline>)
    ensures |r| == |s|
  {
    if s == [] then [] else Insert(SortSpec(s[..|s| - 1], now), s[|s| - 1], now)
  }

  /** The elements of s that carry key k, in their order in s. */
  function WithKey(s: seq<Deadline>, k: SortKey, now: int): seq<Deadline>
  {
    if s == [] then []
    else WithKey(s[..|s| - 1], k, now) + (if KeyOf(s[|s| - 1], now) == k then [s[|s| - 1]] else [])
  }

  lemma {:induction false} InsertPermutes(t: seq<Deadline>, x: Deadline, now: int)
    ensures multiset(Insert(t, x, now)) == multiset(t) + multiset{x}
    decreases |t|
  {
    if t != [] && Compare(t[|t| - 1], x, now) > 0 {
      var init := t[..|t| - 1];
      InsertPermutes(init, x, now);
      assert t == init + [t[|t| - 1]];
    }
  }

  /** Appending an element that no element compares greater than keeps a sequence sorted. */
  lemma AppendSorted(t: seq<Deadline>, x: Deadline, now: int)
    requires Sorted(t, now)
    requires forall i :: 0 <= i < |t| ==> Compare(t[i], x, now) <= 0
    ensures Sorted(t + [x], now)
  {
    var r := t + [x];
    forall i, j | 0 <= i < j < |r|
      ensures Compare(r[i], r[j], now) <= 0
    {
      if j < |t| {
        assert r[i] == t[i] && r[j] == t[j];
      }
    }
  }

  lemma InsertSortedAtEnd(t: seq<Deadline>, x: Deadline, now: int)
    requires Sorted(t, now)
    requires t != [] && Compare(t[|t| - 1], x, now) <= 0
    ensures Sorted(t + [x], now)
  {
    var last := t[|t| - 1];
    forall i | 0 <= i < |t|
      ensures Compare(t[i], x, now) <= 0
    {
      if i < |t| - 1 {
        CompareTotalPreorder(t[i], last, x, now);
      }
    }
    AppendSorted(t, x, now);
  }

  lemma {:induction false} InsertSorted(t: seq<Deadline>, x: Deadline, now: int)
    requires Sorted(t, now)
    ensures Sorted(Insert(t, x, now), now)
    decreases |t|
  {
    if t == [] {
    } else if Compare(t[|t| - 1], x, now) > 0 {
      var init, last := t[..|t| - 1], t[|t| - 1];
      assert Sorted(init, now);
      InsertSorted(init, x, now);
      InsertPermutes(init, x, now);
      var r := Insert(init, x, now);
      forall i | 0 <= i < |r|
        ensures Compare(r[i], last, now) <= 0
      {
        assert r[i] in multiset(r);
        if r[i] != x {
          assert r[i] in multiset(init);
          var k :| 0 <= k < |init| && init[k] == r[i];
          assert t[k] == r[i];
        }
      }
      AppendSorted(r, last, now);
    } else {
      InsertSortedAtEnd(t, x, now);
    }
  }

  /** Insertion keeps, for every key, the order of the elements with that key. */
  lemma {:induction false} InsertKeepsKeyOrder(t: seq<Deadline>, x: Deadline, k: SortKey, now: int)
    ensures WithKey(Insert(t, x, now), k, now)
         == WithKey(t, k, now) + (if KeyOf(x, now) == k then [x] else [])
    decreases |t|
  {
    if t == [] {
      assert WithKey([x], k, now) == WithKey([], k, now) + (if KeyOf(x, now) == k then [x] else []);
    } else if Compare(t[|t| - 1], x, now) > 0 {
      var init, last := t[..|t| - 1], t[|t| - 1];
      InsertKeepsKeyOrder(init, x, k, now);
      var r := Insert(init, x, now);
      assert (r + [last])[..|r + [last]| - 1] == r;
      assert KeyOf(last, now) != KeyOf(x, now);
    } else {
      assert (t + [x])[..|t + [x]| - 1] == t;
    }
  }

  /** The sorted list holds the same deadlines with the same multiplicities. */
  lemma {:induction false} SortSpecPermutes(s: seq<Deadline>, now: int)
    ensures multiset(SortSpec(s, now)) == multiset(s)
    decreases |s|
  {
    if s != [] {
      var init := s[..|s| - 1];
      SortSpecPermutes(init, now);
      InsertPermutes(SortSpec(init, now), s[|s| - 1], now);
      assert s == init + [s[|s| - 1]];
    }
  }

  /** SortSpec is ordered by the comparator. */
  lemma {:induction false} SortSpecSorted(s: seq<Deadline>, now: int)
    ensures Sorted(SortSpec(s, now), now)
    decreases |s|
  {
    if s != [] {
      SortSpecSorted(s[..|s| - 1], now);
      InsertSorted(SortSpec(s[..|s| - 1], now), s[|s| - 1], now);
    }
  }

  /** SortSpec is stable: deadlines with equal keys keep their input order. */
  lemma {:induction false} SortSpecStable(s: seq<Deadline>, k: SortKey, now: int)
    ensures WithKey(SortSpec(s, now), k, now) == WithKey(s, k, now)
    decreases |s|
  {
    if s != [] {
      var init := s[..|s| - 1];
      SortSpecStable(init, k, now);
      InsertKeepsKeyOrder(SortSpec(init, now), s[|s| - 1], k, now);
    }
  }

  /** An already sorted sequence is left as it is. */
  lemma {:induction false} SortSpecOfSorted(s: seq<Deadline>, now: int)
    requires Sorted(s, now)
    ensures SortSpec(s, now) == s
    decreases |s|
  {
    if s != [] {
      var init := s[..|s| - 1];
      assert Sorted(init, now);
      SortSpecOfSorted(init, now);
      if |init| > 0 {
        assert Compare(init[|init| - 1], s[|s| - 1], now) <= 0;
      }
      assert init + [s[|s| - 1]] == s;
    }
  }

  /** Sorting twice with the same `now` gives the same order as sorting once. */
  lemma SortSpecIdempotent(s: seq<Deadline>, now: int)
    ensures SortSpec(SortSpec(s, now), now) == SortSpec(s, now)
  {
    SortSpecSorted(s, now);
    SortSpecOfSorted(SortSpec(s, now), now);
  }

  /**
   * What a sorted list looks like: pending before completed; within a
   * completion group, urgency rank and then due date never decrease.
   */
  lemma SortedOrder(s: seq<Deadline>, now: int, i: int, j: int)
    requires Sorted(s, now)
    requires 0 <= i < j < |s|
    ensures s[i].status == Completed ==> s[j].status == Completed
    ensures s[i].status == s[j].status ==>
      Rank(UrgencyLevelOf(s[i].due_date, now)) <= Rank(UrgencyLevelOf(s[j].due_date, now))
    ensures s[i].status == s[j].status ==> s[i].due_date <= s[j].due_date
  {
    assert Compare(s[i], s[j], now) <= 0;
    if s[i].status == s[j].status && s[i].due_date > s[j].due_date {
      RankMonotone(s[j].due_date, s[i].due_date, now);
    }
  }

  /**
   * A pending overdue deadline, a pending urgent one and a completed one long
   * past due, given in reverse, come out overdue, urgent, completed.
   */
  lemma ThreeDeadlinesExample(a: Deadline, b: Deadline, c: Deadline, now: int)
    requires a.status == Pending && a.due_date == now - 2 * HourMs
    requires b.status == Pending && b.due_date == now + 10 * HourMs
    requires c.status == Completed && c.due_date == now - 100 * HourMs
    ensures SortSpec([c, b, a], now) == [a, b, c]
  {
    assert [c, b, a][..2] == [c, b] && [c, b][..1] == [c];
    assert SortSpec([c], now) == [c];
    assert SortSpec([c, b], now) == Insert([c], b, now) == [b, c];
    assert [b, c][..1] == [b];
    assert Compare(c, a, now) > 0 && Compare(b, a, now) > 0;
    assert Insert([b], a, now) == Insert([], a, now) + [b] == [a, b];
    assert Insert([b, c], a, now) == Insert([b], a, now) + [c];
    assert SortSpec([c, b, a], now) == Insert(SortSpec([c, b], now), a, now);
  }

  /** One step of insertion that finds x already in place. */
  lemma InsertAtEnd(t: seq<Deadline>, j: nat, x: Deadline, now: int)
    requires j <= |t|
    requires j == 0 || Compare(t[j - 1], x, now) <= 0
    ensures Insert(t[..j], x, now) == t[..j] + [x]
  {
  }

  /** One step of insertion that moves x past a greater element. */
  lemma InsertPastGreater(t: seq<Deadline>, j: nat, x: Deadline, now: int)
    requires 0 < j <= |t|
    requires Compare(t[j - 1], x, now) > 0
    ensures Insert(t[..j], x, now) + t[j..] == Insert(t[..j - 1], x, now) + t[j - 1..]
  {
    assert t[..j][..j - 1] == t[..j - 1];
    assert [t[j - 1]] + t[j..] == t[j - 1..];
  }

  /**
   * Inner loop of the insertion sort: moves a[i] left past every greater
   * element of the sorted prefix a[..i], leaving the rest of the array alone.
   */
  method InsertStep(a: array<Deadline>, i: int, now: int)
    requires 0 <= i < a.Length
    modifies a
    ensures a[..i + 1] == Insert(old(a[..i]), old(a[i]), now)
    ensures a[i + 1..] == old(a[i + 1..])
  {
    ghost var done := a[..i];
    ghost var x := a[i];
    ghost var rest := a[i + 1..];
    assert a[..] == done + [x] + rest;
    assert done[..i] == done && done[i..] == [];
    var j := i;
    while j > 0
      invariant 0 <= j <= i
      invariant a[..] == done[..j] + [x] + done[j..] + rest
      invariant Insert(done, x, now) == Insert(done[..j], x, now) + done[j..]
    {
      if Compare(a[j - 1], a[j], now) <= 0 {
        break;
      }
      ghost var before := a[..];
      SwapStep(before, done, x, rest, j, now);
      a[j - 1], a[j] := a[j], a[j - 1];
      assert a[..] == before[j - 1 := before[j]][j := before[j - 1]];
      j := j - 1;
    }
    LastStep(a[..], done, x, rest, j, now);
  }

  /**
   * One pass of the inner loop: x, at index j, is swapped with its greater
   * left neighbour, and the insertion still to do shrinks by that neighbour.
   */
  lemma SwapStep(s: seq<Deadline>, done: seq<Deadline>, x: Deadline, rest: seq<Deadline>, j: nat, now: int)
    requires 0 < j <= |done|
    requires s == done[..j] + [x] + done[j..] + rest
    requires Insert(done, x, now) == Insert(done[..j], x, now) + done[j..]
    requires Compare(s[j - 1], s[j], now) > 0
    ensures s[j - 1 := s[j]][j := s[j - 1]] == done[..j - 1] + [x] + done[j - 1..] + rest
    ensures Insert(done, x, now) == Insert(done[..j - 1], x, now) + done[j - 1..]
  {
    assert s[j - 1] == done[j - 1] && s[j] == x;
    InsertPastGreater(done, j, x, now);
  }

  /** When the inner loop stops, the front of the array is the insertion. */
  lemma LastStep(s: seq<Deadline>, done: seq<Deadline>, x: Deadline, rest: seq<Deadline>, j: nat, now: int)
    requires j <= |done|
    requires s == done[..j] + [x] + done[j..] + rest
    requires Insert(done, x, now) == Insert(done[..j], x, now) + done[j..]
    requires j == 0 || Compare(s[j - 1], s[j], now) <= 0
    ensures s[..|done| + 1] == Insert(done, x, now) && s[|done| + 1..] == rest
  {
    assert j > 0 ==> s[j - 1] == done[j - 1] && s[j] == x;
    InsertAtEnd(done, j, x, now);
    assert s == Insert(done, x, now) + rest;
  }

  /**
   * sortDeadlinesByUrgency: copies the input into a fresh array and sorts the
   * copy with a stable insertion sort. The input array is not modified.
   */
  method SortByUrgency(deadlines: array<Deadline>, now: int) returns (sorted: array<Deadline>)
    ensures fresh(sorted)
    ensures sorted[..] == SortSpec(deadlines[..], now)
  {
    sorted := new Deadline[deadlines.Length](k reads deadlines requires 0 <= k < deadlines.Length => deadlines[k]);
    ghost var input := deadlines[..];
    assert sorted[..] == input;
    var i := 0;
    while i < sorted.Length
      invariant 0 <= i <= sorted.Length
      invariant sorted[..i] == SortSpec(input[..i], now)
      invariant sorted[i..] == input[i..]
    {
      assert input[..i + 1][..i] == input[..i];
      assert sorted[i] == input[i];
      InsertStep(sorted, i, now);
      assert sorted[i + 1..] == input[i + 1..];
      i := i + 1;
    }
    assert input[..sorted.Length] == input;
  }
}
