/**
 * Small automata whose equivalent pairs are known, with the list the
 * minimizer must print for each. Together with `EquivalentPairListUnique`
 * each lemma fixes the output of `EquivalentPairs` on that automaton.
 */
module SampleAutomata {
  import opened StatePairs
  import opened Automaton
  import opened Minimizer

  /** Three non-accepting states that all move alike: every pair is equivalent. */
  function AllAlike(): Dfa {
    Dfa(3, 2, {}, [[1, 2], [1, 2], [1, 2]])
  }

  lemma AllAlikePairs()
    ensures AllAlike().Valid()
    ensures IsEquivalentPairList(AllAlike(), [StatePair(0, 1), StatePair(0, 2), StatePair(1, 2)])
  {
    var d := AllAlike();
    var e := {StatePair(0, 1), StatePair(0, 2), StatePair(1, 2)};
    assert MakePair(1, 2) == StatePair(1, 2);
    assert IsClosedPairSet(d, e);
    forall x: StatePair | x in e ensures d.Equivalent(x.state1, x.state2) {
      ClosedPairsAreEquivalent(d, e, x);
    }
  }

  /**
   * A unary counter 0 -> 1 -> 2 -> 3 that stays in its accepting state 3:
   * states differ in the number of steps to acceptance, so no pair is equivalent.
   */
  function Counter(): Dfa {
    Dfa(4, 1, {3}, [[1], [2], [3], [3]])
  }

  lemma CounterPairs()
    ensures Counter().Valid()
    ensures IsEquivalentPairList(Counter(), [])
  {
    var d := Counter();
    assert d.IsWord([0]) && d.IsWord([0, 0]);
    forall x: StatePair | 0 <= x.state1 < x.state2 < 4
      ensures !d.Equivalent(x.state1, x.state2)
    {
      if x.state2 == 3 {
        assert d.Accepts(x.state1, []) != d.Accepts(x.state2, []);
      } else if x.state2 == 2 {
        assert d.Run(x.state2, [0]) == 3;
        assert d.Accepts(x.state1, [0]) != d.Accepts(x.state2, [0]);
      } else {
        assert d.Run(0, [0, 0]) == 2 && d.Run(1, [0, 0]) == 3;
        assert d.Accepts(x.state1, [0, 0]) != d.Accepts(x.state2, [0, 0]);
      }
    }
  }

  /**
   * Two unary chains 0 -> 2 -> 4 and 1 -> 3 -> 4 into the accepting sink 4:
   * states at the same distance from acceptance are equivalent.
   */
  function TwoChains(): Dfa {
    Dfa(5, 1, {4}, [[2], [3], [4], [4], [4]])
  }

  lemma TwoChainsPairs()
    ensures TwoChains().Valid()
    ensures IsEquivalentPairList(TwoChains(), [StatePair(0, 1), StatePair(2, 3)])
  {
    var d := TwoChains();
    var e := {StatePair(0, 1), StatePair(2, 3)};
    assert MakePair(2, 3) == StatePair(2, 3);
    assert IsClosedPairSet(d, e);
    forall x: StatePair | x in e ensures d.Equivalent(x.state1, x.state2) {
      ClosedPairsAreEquivalent(d, e, x);
    }
    assert d.IsWord([0]);
    forall x: StatePair | 0 <= x.state1 < x.state2 < 5 && x !in e
      ensures !d.Equivalent(x.state1, x.state2)
    {
      if x.state2 == 4 {
        assert d.Accepts(x.state1, []) != d.Accepts(x.state2, []);
      } else {
        assert d.Run(x.state1, [0]) != 4 && d.Run(x.state2, [0]) == 4;
        assert d.Accepts(x.state1, [0]) != d.Accepts(x.state2, [0]);
      }
    }
  }
}
