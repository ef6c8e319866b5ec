/**
 * Pairs of DFA states as the minimizer reports them: an unordered pair
 * stored with the smaller state first, compared lexicographically.
 */
module StatePairs {

  /** A pair of states; `MakePair` keeps `state1 <= state2`. */
  datatype StatePair = StatePair(state1: int, state2: int)

  function Min(a: int, b: int): (r: int)
    ensures r <= a && r <= b && (r == a || r == b)
  {
    if a <= b then a else b
  }

  function Max(a: int, b: int): (r: int)
    ensures a <= r && b <= r && (r == a || r == b)
  {
    if a <= b then b else a
  }

  /** The constructor of a pair: normalises the two states into min and max. */
  function MakePair(s1: int, s2: int): (r: StatePair)
    ensures r.state1 <= r.state2
    ensures {r.state1, r.state2} == {s1, s2}
  {
    StatePair(Min(s1, s2), Max(s1, s2))
  }

  /** Reference definition of the order pairs are reported in. */
  predicate LexLess(a: StatePair, b: StatePair) {
    a.state1 < b.state1 || (a.state1 == b.state1 && a.state2 < b.state2)
  }

  /** Three-way comparison of two integers, with results -1, 0 and 1. */
  function IntCompare(x: int, y: int): (c: int)
    ensures -1 <= c <= 1
    ensures c < 0 <==> x < y
    ensures c == 0 <==> x == y
  {
    if x < y then -1 else if x == y then 0 else 1
  }

  /** Comparison of pairs: first by `state1`, then by `state2`. */
  function CompareTo(a: StatePair, b: StatePair): (c: int)
    ensures -1 <= c <= 1
    ensures c == 0 <==> a == b
    ensures c < 0 <==> LexLess(a, b)
    ensures c > 0 <==> LexLess(b, a)
  {
    if a.state1 != b.state1 then IntCompare(a.state1, b.state1)
    else IntCompare(a.state2, b.state2)
  }

  /** Equality of pairs, field by field. */
  function Equals(a: StatePair, b: StatePair): (r: bool)
    ensures r <==> a == b
    ensures r <==> CompareTo(a, b) == 0
  {
    a.state1 == b.state1 && a.state2 == b.state2
  }

  /** `CompareTo` is a total order, as sorting the result requires of it. */
  lemma CompareToIsTotalOrder(a: StatePair, b: StatePair, c: StatePair)
    ensures CompareTo(a, b) == -CompareTo(b, a)
    ensures CompareTo(a, b) <= 0 || CompareTo(b, a) <= 0
    ensures CompareTo(a, b) <= 0 && CompareTo(b, c) <= 0 ==> CompareTo(a, c) <= 0
    ensures CompareTo(a, b) < 0 && CompareTo(b, c) <= 0 ==> CompareTo(a, c) < 0
  {
  }
}
