/**
 * The table-filling algorithm that finds the equivalent states of a DFA
 * (state minimization in the style of Kozen's lecture 14). A boolean
 * table `marked[p, q]`, used only below the diagonal (`p > q`), records the
 * pairs known to be distinguishable; the unmarked pairs left at the fixed
 * point are the equivalent ones.
 */
module Minimizer {
  import opened StatePairs
  import opened Automaton
  import opened PairSort

  /** `marked` is an n by n table for the states of `d`. */
  predicate IsTable(d: Dfa, marked: array2<bool>) {
    marked.Length0 == d.n && marked.Length1 == d.n
  }

  /**
   * On symbol `k` the successors of `p` and `q` differ and their pair,
   * read at its canonical entry `marked[max, min]`, is marked.
   */
  ghost predicate MarkedStep(d: Dfa, marked: array2<bool>, p: int, q: int, k: int)
    requires d.Valid() && IsTable(d, marked) && d.IsState(p) && d.IsState(q) && 0 <= k < d.m
    reads marked
  {
    var r := Max(d.delta[p][k], d.delta[q][k]);
    var s := Min(d.delta[p][k], d.delta[q][k]);
    r != s && marked[r, s]
  }

  /** Some symbol leads the pair `{p, q}` to a marked pair. */
  ghost predicate Witnessed(d: Dfa, marked: array2<bool>, p: int, q: int)
    requires d.Valid() && IsTable(d, marked) && d.IsState(p) && d.IsState(q)
    reads marked
  {
    exists k :: 0 <= k < d.m && MarkedStep(d, marked, p, q, k)
  }

  /** No symbol leads the pair `{p, q}` to a marked pair. */
  ghost predicate Stable(d: Dfa, marked: array2<bool>, p: int, q: int)
    requires d.Valid() && IsTable(d, marked) && d.IsState(p) && d.IsState(q)
    reads marked
  {
    forall k :: 0 <= k < d.m ==> !MarkedStep(d, marked, p, q, k)
  }

  /** Every marked entry below the diagonal is a distinguishable pair. */
  ghost predicate Sound(d: Dfa, marked: array2<bool>)
    requires d.Valid() && IsTable(d, marked)
    reads marked
  {
    forall p, q :: 0 <= q < p < d.n && marked[p, q] ==> d.Distinguishable(p, q)
  }

  /**
   * The seeding pass: marks every pair below the diagonal whose states
   * differ in acceptance, and writes nothing else.
   */
  method Seed(d: Dfa, marked: array2<bool>)
    requires IsTable(d, marked)
    modifies marked
    ensures forall p, q :: 0 <= q < p < d.n ==>
      marked[p, q] == (old(marked[p, q]) || (p in d.finals) != (q in d.finals))
    ensures forall p, q :: 0 <= p <= q < d.n ==> marked[p, q] == old(marked[p, q])
  {
    for p := 0 to d.n
      invariant forall i, j :: 0 <= j < i < p ==>
        marked[i, j] == (old(marked[i, j]) || (i in d.finals) != (j in d.finals))
      invariant forall i, j :: 0 <= i < d.n && 0 <= j < d.n && (i >= p || i <= j) ==>
        marked[i, j] == old(marked[i, j])
    {
      for q := 0 to p
        invariant forall i, j :: 0 <= j < i < p ==>
          marked[i, j] == (old(marked[i, j]) || (i in d.finals) != (j in d.finals))
        invariant forall j :: 0 <= j < q ==>
          marked[p, j] == (old(marked[p, j]) || (p in d.finals) != (j in d.finals))
        invariant forall i, j :: 0 <= i < d.n && 0 <= j < d.n && (i > p || i <= j || (i == p && j >= q)) ==>
          marked[i, j] == old(marked[i, j])
      {
        var pIsFinal := p in d.finals;
        var qIsFinal := q in d.finals;
        if pIsFinal != qIsFinal {
          marked[p, q] := true;
        }
      }
    }
  }

  /**
   * The symbol scan for one unmarked pair: looks for a symbol whose
   * successors are distinct and already marked, stopping at the first.
   */
  method HasMarkedSuccessorPair(d: Dfa, marked: array2<bool>, p: int, q: int) returns (found: bool)
    requires d.Valid() && IsTable(d, marked) && d.IsState(p) && d.IsState(q)
    ensures found <==> Witnessed(d, marked, p, q)
  {
    for k := 0 to d.m
      invariant forall j :: 0 <= j < k ==> !MarkedStep(d, marked, p, q, j)
    {
      var pNext := d.delta[p][k];
      var qNext := d.delta[q][k];
      var r := Max(pNext, qNext);
      var s := Min(pNext, qNext);
      // The guard reads only entries strictly below the diagonal.
      if r != s && (assert s < r; marked[r, s]) {
        assert MarkedStep(d, marked, p, q, k);
        return true;
      }
    }
    return false;
  }

  /** The entries below the diagonal that are not marked. */
  ghost function Unmarked(d: Dfa, marked: array2<bool>): (u: set<(int, int)>)
    requires IsTable(d, marked)
    reads marked
    ensures forall p, q :: 0 <= q < p < d.n ==> ((p, q) in u <==> !marked[p, q])
    ensures u <= PairsBelowDiagonal(d.n)
  {
    set p, q | 0 <= q < p < d.n && !marked[p, q] :: (p, q)
  }

  /**
   * The step of a pass for the pair `{p, q}`, `p > q`: when it is unmarked
   * and some symbol leads it to a marked pair, mark it. Reports whether it
   * marked; no other entry changes, and an entry left unmarked is stable.
   */
  method VisitPair(d: Dfa, marked: array2<bool>, p: int, q: int) returns (marks: bool)
    requires d.Valid() && IsTable(d, marked) && 0 <= q < p < d.n
    modifies marked
    ensures marks <==> !old(marked[p, q]) && marked[p, q]
    ensures marks <==> !old(marked[p, q]) && old(Witnessed(d, marked, p, q))
    ensures !marks ==> unchanged(marked)
    ensures marks ==> |Unmarked(d, marked)| == old(|Unmarked(d, marked)|) - 1
    ensures old(marked[p, q]) ==> marked[p, q]
    ensures forall i, j :: 0 <= i < d.n && 0 <= j < d.n && (i, j) != (p, q) ==>
      marked[i, j] == old(marked[i, j])
    ensures !marked[p, q] ==> Stable(d, marked, p, q)
    ensures forall i, j :: 0 <= i < d.n && 0 <= j < d.n && old(Witnessed(d, marked, i, j)) ==>
      Witnessed(d, marked, i, j)
    ensures old(Sound(d, marked)) ==> Sound(d, marked)
  {
    marks := false;
    if !marked[p, q] {
      var found := HasMarkedSuccessorPair(d, marked, p, q);
      assert forall k :: 0 <= k < d.m ==>
        MarkedStep(d, marked, p, q, k) == old(MarkedStep(d, marked, p, q, k));
      if found {
        if Sound(d, marked) {
          MarkIsJustified(d, marked, p, q);
        }
        ghost var before := Unmarked(d, marked);
        marked[p, q] := true;
        marks := true;
        forall x | x in PairsBelowDiagonal(d.n)
          ensures x in Unmarked(d, marked) <==> x in before - {(p, q)}
        {
        }
        assert Unmarked(d, marked) == before - {(p, q)};
        forall i, j | 0 <= i < d.n && 0 <= j < d.n && old(Witnessed(d, marked, i, j))
          ensures Witnessed(d, marked, i, j)
        {
          var k :| 0 <= k < d.m && old(MarkedStep(d, marked, i, j, k));
          assert MarkedStep(d, marked, i, j, k);
        }
      }
    }
  }

  /**
   * The pairs of row `p` in one pass: visits `(p, 0) .. (p, p - 1)` in
   * order. Only that row is written, and only by adding marks; every pair
   * of the row with a witnessing symbol at the start is marked at the end,
   * and every new mark has a witnessing symbol in the new table. Reports
   * whether it marked anything, and leaves the table as it was when not.
   */
  method VisitRow(d: Dfa, marked: array2<bool>, p: int) returns (changedInRow: bool)
    requires d.Valid() && IsTable(d, marked) && 0 <= p < d.n
    modifies marked
    ensures old(Sound(d, marked)) ==> Sound(d, marked)
    ensures forall i, j :: 0 <= i < d.n && 0 <= j < d.n && old(marked[i, j]) ==> marked[i, j]
    ensures forall i, j :: 0 <= i < d.n && 0 <= j < d.n && (i != p || p <= j) ==>
      marked[i, j] == old(marked[i, j])
    ensures forall j, k :: 0 <= j < p && 0 <= k < d.m && old(MarkedStep(d, marked, p, j, k)) ==>
      marked[p, j]
    ensures forall j :: 0 <= j < p && marked[p, j] && !old(marked[p, j]) ==>
      Witnessed(d, marked, p, j)
    ensures changedInRow <==> exists j :: 0 <= j < p && marked[p, j] && !old(marked[p, j])
    ensures !changedInRow ==> unchanged(marked)
  {
    ghost var sound := Sound(d, marked);
    changedInRow := false;
    for q := 0 to p
      invariant sound ==> Sound(d, marked)
      invariant forall j :: 0 <= j < d.n && old(marked[p, j]) ==> marked[p, j]
      invariant forall i, j :: 0 <= i < d.n && 0 <= j < d.n && (i != p || q <= j) ==>
        marked[i, j] == old(marked[i, j])
      invariant forall j, k :: 0 <= j < q && 0 <= k < d.m && old(MarkedStep(d, marked, p, j, k)) ==>
        marked[p, j]
      invariant forall j :: 0 <= j < q && marked[p, j] && !old(marked[p, j]) ==>
        Witnessed(d, marked, p, j)
      invariant changedInRow <==> exists j :: 0 <= j < q && marked[p, j] && !old(marked[p, j])
      invariant !changedInRow ==> unchanged(marked)
    {
      // A symbol that led the pair to a marked pair at the start still does.
      assert forall k :: 0 <= k < d.m && old(MarkedStep(d, marked, p, q, k)) ==>
        MarkedStep(d, marked, p, q, k);
      label L:
      var marks := VisitPair(d, marked, p, q);
      forall j | 0 <= j <= q && marked[p, j] && !old(marked[p, j])
        ensures Witnessed(d, marked, p, j)
      {
        ghost var k :| 0 <= k < d.m && old@L(MarkedStep(d, marked, p, j, k));
        assert MarkedStep(d, marked, p, j, k);
      }
      if marks {
        changedInRow := true;
      }
    }
  }

  /**
   * One pass of propagation: visits every row below the diagonal in
   * order. Marks are only added; every pair with a witnessing symbol at
   * the start of the pass is marked by its end, and every new mark has a
   * witnessing symbol in the new table. The pass reports a change exactly
   * when it marked a pair, and a pass that does not has found every
   * unmarked pair stable.
   */
  method PropagationPass(d: Dfa, marked: array2<bool>) returns (changedInPass: bool)
    requires d.Valid() && IsTable(d, marked)
    modifies marked
    ensures old(Sound(d, marked)) ==> Sound(d, marked)
    ensures forall p, q :: 0 <= p < d.n && 0 <= q < d.n && old(marked[p, q]) ==> marked[p, q]
    ensures forall p, q :: 0 <= p <= q < d.n ==> marked[p, q] == old(marked[p, q])
    ensures forall p, q, k ::
      0 <= q < p < d.n && 0 <= k < d.m && old(MarkedStep(d, marked, p, q, k)) ==> marked[p, q]
    ensures forall p, q :: 0 <= q < p < d.n && marked[p, q] && !old(marked[p, q]) ==>
      Witnessed(d, marked, p, q)
    ensures changedInPass <==>
      exists p, q :: 0 <= q < p < d.n && marked[p, q] && !old(marked[p, q])
    ensures |Unmarked(d, marked)| <= old(|Unmarked(d, marked)|)
    ensures changedInPass ==> |Unmarked(d, marked)| < old(|Unmarked(d, marked)|)
    ensures !changedInPass ==>
      forall p, q :: 0 <= q < p < d.n && !marked[p, q] ==> Stable(d, marked, p, q)
  {
    ghost var sound := Sound(d, marked);
    ghost var unmarked := Unmarked(d, marked);
    changedInPass := false;
    for p := 0 to d.n
      invariant sound ==> Sound(d, marked)
      invariant forall i, j :: 0 <= i < d.n && 0 <= j < d.n && old(marked[i, j]) ==> marked[i, j]
      invariant forall i, j :: 0 <= i < d.n && 0 <= j < d.n && (p <= i || i <= j) ==>
        marked[i, j] == old(marked[i, j])
      invariant forall i, j, k ::
        0 <= j < i < p && 0 <= k < d.m && old(MarkedStep(d, marked, i, j, k)) ==> marked[i, j]
      invariant forall i, j :: 0 <= j < i < p && marked[i, j] && !old(marked[i, j]) ==>
        Witnessed(d, marked, i, j)
      invariant changedInPass ==>
        exists i, j :: 0 <= j < i < p && marked[i, j] && !old(marked[i, j])
      invariant !changedInPass ==> unchanged(marked)
    {
      // Symbols that led row `p` to marked pairs at the start of the pass still do.
      assert forall j, k :: 0 <= j < p && 0 <= k < d.m && old(MarkedStep(d, marked, p, j, k)) ==>
        MarkedStep(d, marked, p, j, k);
      label L:
      var changedInRow := VisitRow(d, marked, p);
      forall i, j | 0 <= j < i < p && marked[i, j] && !old(marked[i, j])
        ensures Witnessed(d, marked, i, j)
      {
        ghost var k :| 0 <= k < d.m && old@L(MarkedStep(d, marked, i, j, k));
        assert MarkedStep(d, marked, i, j, k);
      }
      if changedInRow {
        changedInPass := true;
      }
    }
    // A pass that changed nothing left the table as it was, so a pair it
    // left unmarked had no symbol leading it to a marked pair.
    if !changedInPass {
      forall i, j | 0 <= j < i < d.n && !marked[i, j] ensures Stable(d, marked, i, j) {
        assert forall k :: 0 <= k < d.m ==> !old(MarkedStep(d, marked, i, j, k));
      }
    }
    // The unmarked pairs only lose members, and a reported change loses one.
    UnmarkedShrinks(d, marked, unmarked, changedInPass);
  }

  /**
   * The propagation loop: repeat passes until one changes nothing. At exit
   * no unmarked pair can be marked, and there were at most n(n-1)/2 + 1
   * passes, since every pass but the last marks a new pair.
   */
  method Propagate(d: Dfa, marked: array2<bool>) returns (ghost passes: nat)
    requires d.Valid() && IsTable(d, marked)
    modifies marked
    ensures old(Sound(d, marked)) ==> Sound(d, marked)
    ensures forall p, q :: 0 <= p < d.n && 0 <= q < d.n && old(marked[p, q]) ==> marked[p, q]
    ensures forall p, q :: 0 <= p <= q < d.n ==> marked[p, q] == old(marked[p, q])
    ensures forall p, q :: 0 <= q < p < d.n && !marked[p, q] ==> Stable(d, marked, p, q)
    ensures passes <= d.n * (d.n - 1) / 2 + 1
  {
    PairsBelowDiagonalCount(d.n);
    SubsetCount(Unmarked(d, marked), PairsBelowDiagonal(d.n));
    ghost var bound := |Unmarked(d, marked)| + 1;
    passes := 0;
    var changedInPass := true;
    while changedInPass
      invariant old(Sound(d, marked)) ==> Sound(d, marked)
      invariant forall p, q :: 0 <= p < d.n && 0 <= q < d.n && old(marked[p, q]) ==> marked[p, q]
      invariant forall p, q :: 0 <= p <= q < d.n ==> marked[p, q] == old(marked[p, q])
      invariant !changedInPass ==>
        forall p, q :: 0 <= q < p < d.n && !marked[p, q] ==> Stable(d, marked, p, q)
      invariant passes + |Unmarked(d, marked)| + (if changedInPass then 1 else 0) <= bound
      decreases |Unmarked(d, marked)| + (if changedInPass then 1 else 0)
    {
      changedInPass := PropagationPass(d, marked);
      passes := passes + 1;
    }
  }

  /** The entries strictly below the diagonal of an n by n table. */
  ghost function PairsBelowDiagonal(n: nat): set<(int, int)> {
    set p, q | 0 <= q < p < n :: (p, q)
  }

  /** The entries `(p, 0) .. (p, k - 1)` of row `p`. */
  ghost function RowPrefix(p: int, k: nat): set<(int, int)> {
    set q | 0 <= q < k :: (p, q)
  }

  lemma {:induction false} RowPrefixCount(p: int, k: nat)
    ensures |RowPrefix(p, k)| == k
    decreases k
  {
    if k > 0 {
      RowPrefixCount(p, k - 1);
      assert RowPrefix(p, k) == RowPrefix(p, k - 1) + {(p, k - 1)};
    }
  }

  /** There are n(n-1)/2 pairs below the diagonal, which bounds the number of marks. */
  lemma {:induction false} PairsBelowDiagonalCount(n: nat)
    ensures |PairsBelowDiagonal(n)| == n * (n - 1) / 2
    decreases n
  {
    if n > 0 {
      PairsBelowDiagonalCount(n - 1);
      RowPrefixCount(n - 1, n - 1);
      PairsBelowDiagonalSplit(n);
      assert (n - 1) * (n - 2) / 2 + (n - 1) == n * (n - 1) / 2 by {
        assert (n - 1) * (n - 2) + 2 * (n - 1) == n * (n - 1);
      }
    }
  }

  /** The last row below the diagonal of an n by n table is added to that of the smaller table. */
  lemma PairsBelowDiagonalSplit(n: nat)
    requires n > 0
    ensures PairsBelowDiagonal(n) == PairsBelowDiagonal(n - 1) + RowPrefix(n - 1, n - 1)
    ensures PairsBelowDiagonal(n - 1) !! RowPrefix(n - 1, n - 1)
  {
    forall x | x in PairsBelowDiagonal(n)
      ensures x in PairsBelowDiagonal(n - 1) + RowPrefix(n - 1, n - 1)
    {
      if x.0 < n - 1 {
        assert x in PairsBelowDiagonal(n - 1);
      } else {
        assert x in RowPrefix(n - 1, n - 1);
      }
    }
  }

  lemma {:induction false} SubsetCount<T>(a: set<T>, b: set<T>)
    requires a <= b
    ensures |a| <= |b|
    decreases a
  {
    if a != {} {
      var x :| x in a;
      SubsetCount(a - {x}, b - {x});
    }
  }

  /**
   * A table whose unmarked pairs all were unmarked before has at most as
   * many unmarked pairs as before, and fewer when one of those is marked now.
   */
  lemma UnmarkedShrinks(d: Dfa, marked: array2<bool>, before: set<(int, int)>, lost: bool)
    requires IsTable(d, marked)
    requires forall p, q :: 0 <= q < p < d.n && !marked[p, q] ==> (p, q) in before
    requires lost ==> exists p, q :: 0 <= q < p < d.n && marked[p, q] && (p, q) in before
    ensures |Unmarked(d, marked)| <= |before|
    ensures lost ==> |Unmarked(d, marked)| < |before|
  {
    SubsetCount(Unmarked(d, marked), before);
    if lost {
      var p, q :| 0 <= q < p < d.n && marked[p, q] && (p, q) in before;
      ProperSubsetCount(Unmarked(d, marked), before, (p, q));
    }
  }

  /** A subset that misses a member of the larger set is strictly smaller. */
  lemma ProperSubsetCount<T>(a: set<T>, b: set<T>, x: T)
    requires a <= b && x in b && x !in a
    ensures |a| < |b|
  {
    SubsetCount(a, b - {x});
  }

  /** A pair with a marked successor pair is distinguishable, given a sound table. */
  lemma MarkIsJustified(d: Dfa, marked: array2<bool>, p: int, q: int)
    requires d.Valid() && IsTable(d, marked) && d.IsState(p) && d.IsState(q)
    requires Sound(d, marked)
    requires Witnessed(d, marked, p, q)
    ensures d.Distinguishable(p, q)
  {
    var k :| 0 <= k < d.m && MarkedStep(d, marked, p, q, k);
    var r := Max(d.delta[p][k], d.delta[q][k]);
    var s := Min(d.delta[p][k], d.delta[q][k]);
    assert d.Distinguishable(r, s);
    SuccessorsDistinguish(d, p, q, k);
  }

  /** Column order: by the larger state, then by the smaller one. */
  predicate ColumnBefore(a: StatePair, b: StatePair) {
    a.state2 < b.state2 || (a.state2 == b.state2 && a.state1 < b.state1)
  }

  /**
   * The collection pass: lists every unmarked pair below the diagonal as
   * the pair `(q, p)`, in the order the table is scanned.
   */
  method Collect(n: nat, marked: array2<bool>) returns (pairs: seq<StatePair>)
    requires marked.Length0 == n && marked.Length1 == n
    ensures forall x :: x in pairs <==> 0 <= x.state1 < x.state2 < n && !marked[x.state2, x.state1]
    ensures forall i, j :: 0 <= i < j < |pairs| ==> ColumnBefore(pairs[i], pairs[j])
  {
    pairs := [];
    for p := 0 to n
      invariant forall x :: x in pairs <==> 0 <= x.state1 < x.state2 < p && !marked[x.state2, x.state1]
      invariant forall i, j :: 0 <= i < j < |pairs| ==> ColumnBefore(pairs[i], pairs[j])
    {
      for q := 0 to p
        invariant forall x :: x in pairs <==>
          && 0 <= x.state1 < x.state2 <= p
          && (x.state2 < p || x.state1 < q)
          && !marked[x.state2, x.state1]
        invariant forall i, j :: 0 <= i < j < |pairs| ==> ColumnBefore(pairs[i], pairs[j])
        invariant forall i :: 0 <= i < |pairs| ==> ColumnBefore(pairs[i], StatePair(q, p))
      {
        if !marked[p, q] {
          pairs := pairs + [MakePair(q, p)];
        }
      }
    }
  }

  /**
   * The equivalent pairs of `d`: exactly the pairs `(p, q)` with `p < q`
   * whose states accept the same words, strictly ascending under `CompareTo`.
   */
  ghost predicate IsEquivalentPairList(d: Dfa, pairs: seq<StatePair>)
    requires d.Valid()
  {
    && (forall x :: x in pairs <==>
         0 <= x.state1 < x.state2 < d.n && d.Equivalent(x.state1, x.state2))
    && StrictlySorted(pairs)
  }

  /** The list of equivalent pairs is determined by the automaton alone. */
  lemma EquivalentPairListUnique(d: Dfa, a: seq<StatePair>, b: seq<StatePair>)
    requires d.Valid()
    requires IsEquivalentPairList(d, a) && IsEquivalentPairList(d, b)
    ensures a == b
  {
    StrictlySortedUnique(a, b);
  }

  /**
   * One case of the minimizer: seed, propagate to the fixed point, collect
   * the unmarked pairs and sort them.
   */
  method EquivalentPairs(d: Dfa) returns (pairs: seq<StatePair>)
    requires d.Valid()
    ensures IsEquivalentPairList(d, pairs)
    ensures d.n <= 1 ==> pairs == []
  {
    var marked := new bool[d.n, d.n]((_, _) => false);
    Seed(d, marked);
    forall p, q | 0 <= q < p < d.n && marked[p, q] ensures d.Distinguishable(p, q) {
      MismatchDistinguishes(d, p, q);
    }
    ghost var passes := Propagate(d, marked);
    var collected := Collect(d.n, marked);
    pairs := SortPairs(collected);

    // Membership: the collected pairs are the equivalent ones.
    ghost var e := set x | x in collected;
    forall x | x in e
      ensures forall k :: 0 <= k < d.m ==> Related(e, d.delta[x.state1][k], d.delta[x.state2][k])
    {
      forall k | 0 <= k < d.m
        ensures Related(e, d.delta[x.state1][k], d.delta[x.state2][k])
      {
        assert !MarkedStep(d, marked, x.state2, x.state1, k);
      }
    }
    assert IsClosedPairSet(d, e);
    forall x: StatePair | 0 <= x.state1 < x.state2 < d.n
      ensures x in collected <==> d.Equivalent(x.state1, x.state2)
    {
      if x in collected {
        ClosedPairsAreEquivalent(d, e, x);
      } else {
        assert d.Distinguishable(x.state2, x.state1);
      }
    }

    // Order: the sort keeps the collected pairs, which are all distinct.
    assert Distinct(collected);
    PermutationKeepsDistinct(collected, pairs);
    forall x: StatePair ensures x in pairs <==> x in collected {
      assert x in pairs <==> x in multiset(pairs);
    }
    if pairs != [] {
      assert pairs[0] in pairs;
    }
  }
}
