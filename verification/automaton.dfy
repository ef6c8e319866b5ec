/**
 * The deterministic finite automaton the minimizer works on, and the
 * Myhill-Nerode notions its result is meant to capture: two states are
 * equivalent when every input word leads both to the same verdict.
 */
module Automaton {
  import opened StatePairs

  /**
   * A DFA with states 0..n-1 and symbols 0..m-1. `finals` holds the
   * accepting states and `delta[p][k]` is the successor of state `p` on
   * symbol `k`.
   */
  datatype Dfa = Dfa(n: nat, m: nat, finals: set<int>, delta: seq<seq<int>>)
  {
    /** The table is n by m and every entry names a state. */
    predicate Valid() {
      && |delta| == n
      && forall p :: 0 <= p < n ==>
           |delta[p]| == m && forall k :: 0 <= k < m ==> 0 <= delta[p][k] < n
    }

    predicate IsState(s: int) {
      0 <= s < n
    }

    predicate IsWord(w: seq<int>) {
      forall i :: 0 <= i < |w| ==> 0 <= w[i] < m
    }

    /** The state reached from `s` by reading the word `w`. */
    function Run(s: int, w: seq<int>): (t: int)
      requires Valid() && IsState(s) && IsWord(w)
      ensures IsState(t)
      decreases |w|
    {
      if w == [] then s else Run(delta[s][w[0]], w[1..])
    }

    predicate Accepts(s: int, w: seq<int>)
      requires Valid() && IsState(s) && IsWord(w)
    {
      Run(s, w) in finals
    }

    /** Some word is accepted from one of the states and rejected from the other. */
    ghost predicate Distinguishable(p: int, q: int)
      requires Valid() && IsState(p) && IsState(q)
    {
      exists w :: IsWord(w) && Accepts(p, w) != Accepts(q, w)
    }

    /** Every word gets the same verdict from both states. */
    ghost predicate Equivalent(p: int, q: int)
      requires Valid() && IsState(p) && IsState(q)
    {
      forall w :: IsWord(w) ==> Accepts(p, w) == Accepts(q, w)
    }
  }

  /** Reading `k` and then `w` from `s` is reading `w` from the successor on `k`. */
  lemma RunCons(d: Dfa, s: int, k: int, w: seq<int>)
    requires d.Valid() && d.IsState(s) && 0 <= k < d.m && d.IsWord(w)
    ensures d.IsWord([k] + w)
    ensures d.Run(s, [k] + w) == d.Run(d.delta[s][k], w)
  {
    assert ([k] + w)[1..] == w;
  }

  /** A pair that differs in acceptance is told apart by the empty word. */
  lemma MismatchDistinguishes(d: Dfa, p: int, q: int)
    requires d.Valid() && d.IsState(p) && d.IsState(q)
    requires (p in d.finals) != (q in d.finals)
    ensures d.Distinguishable(p, q)
  {
    assert d.IsWord([]) && d.Accepts(p, []) != d.Accepts(q, []);
  }

  /**
   * If the successors of `p` and `q` on some symbol are distinguishable,
   * so are `p` and `q`: prefix the symbol to the successors' witness.
   */
  lemma SuccessorsDistinguish(d: Dfa, p: int, q: int, k: int)
    requires d.Valid() && d.IsState(p) && d.IsState(q) && 0 <= k < d.m
    requires d.Distinguishable(d.delta[p][k], d.delta[q][k])
      || d.Distinguishable(d.delta[q][k], d.delta[p][k])
    ensures d.Distinguishable(p, q)
  {
    var w :| d.IsWord(w) && d.Accepts(d.delta[p][k], w) != d.Accepts(d.delta[q][k], w);
    RunCons(d, p, k, w);
    RunCons(d, q, k, w);
    assert d.Accepts(p, [k] + w) != d.Accepts(q, [k] + w);
  }

  /** Equivalence is closed under acceptance and under every transition. */
  lemma EquivalenceIsClosed(d: Dfa, p: int, q: int, k: int)
    requires d.Valid() && d.IsState(p) && d.IsState(q) && 0 <= k < d.m
    requires d.Equivalent(p, q)
    ensures p in d.finals <==> q in d.finals
    ensures d.Equivalent(d.delta[p][k], d.delta[q][k])
  {
    assert d.IsWord([]) && d.Accepts(p, []) == d.Accepts(q, []);
    forall w | d.IsWord(w)
      ensures d.Accepts(d.delta[p][k], w) == d.Accepts(d.delta[q][k], w)
    {
      RunCons(d, p, k, w);
      RunCons(d, q, k, w);
      assert d.Accepts(p, [k] + w) == d.Accepts(q, [k] + w);
    }
  }

  /** Two states are equal, or form a pair recorded in `e`. */
  ghost predicate Related(e: set<StatePair>, x: int, y: int) {
    x == y || MakePair(x, y) in e
  }

  /**
   * `e` is a set of pairs of states closed as the end of the marking
   * algorithm leaves its unmarked pairs: both states agree on acceptance
   * and their successors on every symbol are equal or again in `e`.
   */
  ghost predicate IsClosedPairSet(d: Dfa, e: set<StatePair>)
    requires d.Valid()
  {
    forall x :: x in e ==>
      && d.IsState(x.state1) && d.IsState(x.state2) && x.state1 < x.state2
      && (x.state1 in d.finals <==> x.state2 in d.finals)
      && forall k :: 0 <= k < d.m ==> Related(e, d.delta[x.state1][k], d.delta[x.state2][k])
  }

  /** Related states of a closed pair set agree on every word, by induction on the word. */
  lemma {:induction false} ClosedPairsAgree(d: Dfa, e: set<StatePair>, p: int, q: int, w: seq<int>)
    requires d.Valid() && IsClosedPairSet(d, e)
    requires d.IsState(p) && d.IsState(q) && d.IsWord(w)
    requires Related(e, p, q)
    ensures d.Accepts(p, w) == d.Accepts(q, w)
    decreases |w|
  {
    if p == q {
    } else {
      var x := MakePair(p, q);
      assert x in e;
      if w == [] {
      } else {
        var k := w[0];
        RunCons(d, p, k, w[1..]);
        RunCons(d, q, k, w[1..]);
        assert [k] + w[1..] == w;
        assert Related(e, d.delta[x.state1][k], d.delta[x.state2][k]);
        assert Related(e, d.delta[p][k], d.delta[q][k]);
        ClosedPairsAgree(d, e, d.delta[p][k], d.delta[q][k], w[1..]);
      }
    }
  }

  /** Every pair of a closed pair set is a pair of equivalent states. */
  lemma ClosedPairsAreEquivalent(d: Dfa, e: set<StatePair>, x: StatePair)
    requires d.Valid() && IsClosedPairSet(d, e) && x in e
    ensures d.IsState(x.state1) && d.IsState(x.state2)
    ensures d.Equivalent(x.state1, x.state2)
  {
    forall w | d.IsWord(w)
      ensures d.Accepts(x.state1, w) == d.Accepts(x.state2, w)
    {
      assert MakePair(x.state1, x.state2) == x;
      ClosedPairsAgree(d, e, x.state1, x.state2, w);
    }
  }
}
