/**
 * Sorting the collected pairs into ascending `CompareTo` order, and the
 * facts about sorted, duplicate-free pair lists the result relies on.
 */
module PairSort {
  import opened StatePairs

  /** Ascending under `CompareTo`, equal neighbours allowed. */
  predicate Sorted(s: seq<StatePair>) {
    forall i, j :: 0 <= i < j < |s| ==> CompareTo(s[i], s[j]) <= 0
  }

  /** Strictly ascending under `CompareTo`. */
  predicate StrictlySorted(s: seq<StatePair>) {
    forall i, j :: 0 <= i < j < |s| ==> CompareTo(s[i], s[j]) < 0
  }

  predicate Distinct(s: seq<StatePair>) {
    forall i, j :: 0 <= i < j < |s| ==> s[i] != s[j]
  }

  /** Putting a lower bound of a sorted list in front of it keeps it sorted. */
  lemma ConsSorted(y: StatePair, s: seq<StatePair>)
    requires Sorted(s)
    requires forall z :: z in s ==> CompareTo(y, z) <= 0
    ensures Sorted([y] + s)
  {
    forall i, j | 0 <= i < j < |[y] + s| ensures CompareTo(([y] + s)[i], ([y] + s)[j]) <= 0 {
      assert ([y] + s)[j] == s[j - 1];
      if i > 0 {
        assert ([y] + s)[i] == s[i - 1];
      } else {
        assert s[j - 1] in s;
      }
    }
  }

  /** Puts `x` into the sorted list `s` before the first element not below it. */
  function Insert(s: seq<StatePair>, x: StatePair): (r: seq<StatePair>)
    requires Sorted(s)
    ensures Sorted(r)
    ensures multiset(r) == multiset(s) + multiset{x}
    decreases |s|
  {
    if s == [] || CompareTo(x, s[0]) <= 0 then
      InsertFront(s, x);
      [x] + s
    else
      var t := Insert(s[1..], x);
      InsertBehind(s, x, t);
      [s[0]] + t
  }

  /** `x` is a lower bound of `s` when it is not above the first element. */
  lemma InsertFront(s: seq<StatePair>, x: StatePair)
    requires Sorted(s)
    requires s == [] || CompareTo(x, s[0]) <= 0
    ensures Sorted([x] + s)
  {
    forall z | z in s ensures CompareTo(x, z) <= 0 {
      var j :| 0 <= j < |s| && s[j] == z;
      CompareToIsTotalOrder(x, s[0], z);
    }
    ConsSorted(x, s);
  }

  /** The first element of `s` stays in front when `x` goes into the rest. */
  lemma InsertBehind(s: seq<StatePair>, x: StatePair, t: seq<StatePair>)
    requires Sorted(s) && s != [] && CompareTo(x, s[0]) > 0
    requires Sorted(t) && multiset(t) == multiset(s[1..]) + multiset{x}
    ensures Sorted([s[0]] + t)
    ensures multiset([s[0]] + t) == multiset(s) + multiset{x}
  {
    forall z | z in t ensures CompareTo(s[0], z) <= 0 {
      assert z in multiset(t);
      if z != x {
        assert z in multiset(s[1..]);
        var i :| 0 <= i < |s[1..]| && s[1..][i] == z;
        assert s[i + 1] == z;
      }
    }
    ConsSorted(s[0], t);
    assert s == [s[0]] + s[1..];
  }

  /** Sorts `s` by inserting its elements one by one into a sorted prefix. */
  method SortPairs(s: seq<StatePair>) returns (r: seq<StatePair>)
    ensures Sorted(r)
    ensures multiset(r) == multiset(s)
  {
    r := [];
    var i := 0;
    while i < |s|
      invariant 0 <= i <= |s|
      invariant Sorted(r)
      invariant multiset(r) == multiset(s[..i])
    {
      r := Insert(r, s[i]);
      assert s[..i + 1] == s[..i] + [s[i]];
      i := i + 1;
    }
    assert s[..i] == s;
  }

  /** A list without repetitions holds each value at most once. */
  lemma {:induction false} DistinctCounts(s: seq<StatePair>)
    requires Distinct(s)
    ensures forall x :: multiset(s)[x] <= 1
    decreases |s|
  {
    if s != [] {
      DistinctCounts(s[1..]);
      assert s == [s[0]] + s[1..];
      assert s[0] !in s[1..];
    }
  }

  /** A value found at two positions is counted at least twice. */
  lemma RepeatCounts(s: seq<StatePair>, i: int, j: int)
    requires 0 <= i < j < |s| && s[i] == s[j]
    ensures multiset(s)[s[i]] >= 2
  {
    assert s == s[..j] + s[j..];
    assert s[i] in s[..j];
    assert s[j] in s[j..];
  }

  /** Reordering a list without repetitions leaves it without repetitions. */
  lemma PermutationKeepsDistinct(s: seq<StatePair>, t: seq<StatePair>)
    requires Distinct(s) && multiset(s) == multiset(t)
    ensures Distinct(t)
  {
    DistinctCounts(s);
    forall i, j | 0 <= i < j < |t| ensures t[i] != t[j] {
      if t[i] == t[j] {
        RepeatCounts(t, i, j);
      }
    }
  }

  /**
   * Two strictly ascending lists with the same elements are equal: the
   * order fixes the list, so the reported result is determined by its
   * set of pairs.
   */
  lemma {:induction false} StrictlySortedUnique(a: seq<StatePair>, b: seq<StatePair>)
    requires StrictlySorted(a) && StrictlySorted(b)
    requires forall x :: x in a <==> x in b
    ensures a == b
    decreases |a|
  {
    if a != [] {
      assert a[0] in b;
    }
    if b != [] {
      assert b[0] in a;
    }
    if a != [] {
      HeadIsLeast(a, b[0]);
      HeadIsLeast(b, a[0]);
      CompareToIsTotalOrder(a[0], b[0], b[0]);
      assert a == [a[0]] + a[1..] && b == [b[0]] + b[1..];
      forall x ensures x in a[1..] <==> x in b[1..] {
        TailMembers(a, x);
        TailMembers(b, x);
      }
      StrictlySortedUnique(a[1..], b[1..]);
    }
  }

  /** The head of a strictly ascending list is its least element. */
  lemma HeadIsLeast(a: seq<StatePair>, x: StatePair)
    requires StrictlySorted(a) && x in a
    ensures CompareTo(a[0], x) <= 0
  {
    var i :| 0 <= i < |a| && a[i] == x;
    if i > 0 {
      assert CompareTo(a[0], a[i]) < 0;
    }
  }

  /** The tail of a strictly ascending list holds its elements other than the head. */
  lemma TailMembers(a: seq<StatePair>, x: StatePair)
    requires StrictlySorted(a) && a != []
    ensures x in a[1..] <==> x in a && x != a[0]
  {
    assert a == [a[0]] + a[1..];
    if x in a[1..] {
      var i :| 0 <= i < |a[1..]| && a[1..][i] == x;
      assert a[i + 1] == x && CompareTo(a[0], x) < 0;
    }
  }
}
