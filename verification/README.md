# Equivalent states of a DFA, by table filling

This project models the core of `DFAMinimizer`. That program reads
deterministic finite automata and prints, for each one, the pairs of
states that no input word can tell apart. It uses the table-filling
(Myhill–Nerode marking) algorithm, following the state-minimization
procedure of Kozen's lecture 14. A triangular boolean table
`marked[p][q]` with `p > q` records the pairs already known to be
distinguishable. The algorithm runs in three phases:

1. **Seed.** It marks every pair whose states differ in acceptance.
2. **Propagate.** It runs full passes over the table until a pass marks
   nothing. Within a pass, an unmarked pair is marked when some symbol
   sends it to two distinct states whose pair is already marked. The scan
   of symbols stops at the first such symbol.
3. **Collect.** It lists every unmarked pair as a `StatePair` (smaller
   state first) and sorts the list lexicographically.

The project has five modules:

- `StatePairs` (`state_pair.dfy`) holds the `StatePair` value, its
  normalising constructor `MakePair`, and its comparison and equality.
- `Automaton` (`automaton.dfy`) holds the DFA as a value and the
  reference semantics. `Run` and `Accepts` read a word from a state.
  Two states are `Distinguishable` when some word gets different verdicts
  from them, and `Equivalent` when every word gets the same verdict. It
  also has the lemmas that connect the table to these notions.
- `PairSort` (`pair_sort.dfy`) is the sort applied to the collected list,
  with lemmas about sorted lists that have no repeated pair.
- `Minimizer` (`minimizer.dfy`) holds the algorithm itself. It is
  imperative code over an `array2<bool>` table: `Seed`, `Propagate` (the
  do-while loop with its `changedInPass` flag), one pass
  `PropagationPass`, one row of a pass `VisitRow`, the step for one pair
  `VisitPair`, the symbol scan
  `HasMarkedSuccessorPair`, `Collect`, and `EquivalentPairs`, which runs
  one case from start to end.
- `SampleAutomata` (`sample_automata.dfy`) gives three small automata and
  their expected outputs.

The main result is the contract of `EquivalentPairs`. It says that the
output contains exactly the pairs `(p, q)` with `p < q` whose states are
Myhill–Nerode equivalent, in strictly ascending `compareTo` order.
`EquivalentPairListUnique` adds that only one list meets this
description, so the output depends on the automaton alone.

The proof works as follows:

- **Soundness.** Every marked entry has a distinguishing word. Seeding
  uses the empty word. A propagation step puts the symbol in front of the
  word that separates the successors.
- **Completeness.** At the fixed point, the unmarked pairs form a set
  that is closed under acceptance and under every transition. Induction
  on the word then shows that both states of such a pair give the same
  verdict on every word.
- **Termination.** The do-while loop terminates because every pass that
  continues removes at least one pair from a ghost set of unmarked pairs.
  `Propagate` also returns a ghost count of passes and proves it is at
  most n(n-1)/2 + 1.

The automaton is passed in already parsed, as `Dfa(n, m, finals, delta)`:

- `n` is the number of states.
- `m` is the size of the alphabet. The source uses only `alphabet.length`.
- `finals` is the set of final states (a `HashSet<Integer>` in the source).
- `delta` is the n×m transition table.

The only precondition is `Dfa.Valid()`: `delta` has n rows of m entries,
and each entry is a state in `[0, n)`. The source never checks this, and
it does not always fail on a table that breaks it. Transitions are read
only for pairs that are still unmarked (DFAMinimizer.java:123), and
`marked[r][s]` is read only when `r != s` (DFAMinimizer.java:133). The
source throws an index exception only when line 133 reads an entry out
of range. For example, with `n = 1` and transitions `[[5]]` the code
completes without an exception and prints an empty line
(DFAMinimizer.java:106-161), because there is no pair to visit. The model excludes every table with an out-of-range
entry, including those the source happens to get through. Final states
outside `[0, n)` do no harm in the source, because the algorithm only
asks whether states `0..n-1` are final. So the model does not restrict
them.

## Model

| member | source | states |
|---|---|---|
| `StatePairs.Min` | DFAMinimizer.java:27 | `Math.min`: the result is at most both arguments and is one of them |
| `StatePairs.Max` | DFAMinimizer.java:28 | `Math.max`: the result is at least both arguments and is one of them |
| `StatePairs.MakePair` | DFAMinimizer.java:25-29 | the new pair has `state1 <= state2`, and `{state1, state2}` is exactly `{s1, s2}` |
| `StatePairs.IntCompare` | DFAMinimizer.java:34-36 | a three-way integer comparison: the result is -1, 0 or 1, negative exactly when `x < y` and zero exactly when `x == y` |
| `StatePairs.CompareTo` | DFAMinimizer.java:32-37 | the result is zero exactly for equal pairs, negative exactly when the first pair is lexicographically smaller on `(state1, state2)`, and positive exactly when it is larger |
| `StatePairs.Equals` | DFAMinimizer.java:45-50 | true exactly when both fields agree, which is also exactly when `CompareTo` returns 0 |
| `StatePairs.CompareToIsTotalOrder` | DFAMinimizer.java:21-37 | `CompareTo` is antisymmetric, total and transitive, as the sort requires of a `Comparable` |
| `Automaton.Dfa.Run` | DFAMinimizer.java:124-126 | following transitions from a state along any word over the alphabet ends in a state in `[0, n)` |
| `Automaton.RunCons` | DFAMinimizer.java:124-126 | reading symbol `k` and then `w` from `s` ends where reading `w` from `transitions[s][k]` ends |
| `Automaton.MismatchDistinguishes` | DFAMinimizer.java:106-114 | a pair with exactly one final state is distinguishable (the empty word is the witness), so every seeded mark is justified |
| `Automaton.SuccessorsDistinguish` | DFAMinimizer.java:124-137 | if the successors of `p` and `q` on some symbol are distinguishable, in either order, then `p` and `q` are distinguishable, so every propagated mark is justified |
| `Automaton.EquivalenceIsClosed` | DFAMinimizer.java:10-13 | equivalent states agree on acceptance, and their successors on every symbol are again equivalent |
| `Automaton.ClosedPairsAgree` | DFAMinimizer.java:117-142 | if a pair set is closed under acceptance and transitions (as the unmarked pairs are at the fixed point), then equal or related states give the same verdict on every word |
| `Automaton.ClosedPairsAreEquivalent` | DFAMinimizer.java:145-150 | every pair in such a closed set consists of two Myhill–Nerode equivalent states |
| `PairSort.Insert` | DFAMinimizer.java:154 | inserting into a sorted list gives a sorted list, with the same elements plus the new one |
| `PairSort.SortPairs` | DFAMinimizer.java:154 | the result is ascending under `compareTo` and is a permutation of the input |
| `PairSort.PermutationKeepsDistinct` | DFAMinimizer.java:154 | sorting a list that has no repeated pair gives a list that has no repeated pair |
| `PairSort.StrictlySortedUnique` | DFAMinimizer.java:154 | two strictly ascending lists with the same elements are equal |
| `Minimizer.Seed` | DFAMinimizer.java:103-114 | for every `q < p < n`, `marked[p, q]` afterwards is its old value or-ed with "exactly one of `p`, `q` is final"; no entry with `p <= q` changes |
| `Minimizer.HasMarkedSuccessorPair` | DFAMinimizer.java:124-138 | true exactly when some symbol sends `p` and `q` to distinct states whose canonical entry `marked[max, min]` is marked |
| `Minimizer.VisitPair` | DFAMinimizer.java:122-139 | for one pair `q < p`: marks it exactly when it was unmarked and, in the table before the step, some symbol leads it to a marked pair (both directions), and reports whether it did; no other entry changes; if it marks, the number of unmarked entries below the diagonal drops by one; a pair left unmarked is stable; a symbol that led any pair to a marked pair still does; a table in which every mark has a distinguishing word stays so |
| `Minimizer.VisitRow` | DFAMinimizer.java:121-140 | the pairs `(p, 0) .. (p, p - 1)` in order: only row `p` is written, and only by adding marks; a pair of the row that some symbol led to a marked pair at the start is marked at the end; every new mark has such a symbol in the new table; the result is true exactly when the row gained a mark, and a row that reports nothing leaves the table unchanged; soundness is kept |
| `Minimizer.PropagationPass` | DFAMinimizer.java:119-141 | one full pass: marks are only added and no entry with `p <= q` is written; every pair below the diagonal that some symbol led to a marked pair at the start of the pass is marked at its end; every new mark has such a symbol in the new table; the result is true exactly when the pass marked some pair; the number of unmarked pairs does not grow, and it shrinks when the pass reports a change; a pass that reports no change leaves every unmarked pair stable; soundness of the table is kept |
| `Minimizer.Propagate` | DFAMinimizer.java:116-142 | the do-while loop ends; marks are only added, so seeded pairs stay marked; no entry with `p <= q` is written; a table in which every mark has a distinguishing word stays so; at exit, every unmarked pair below the diagonal has, on every symbol, equal successors or an unmarked successor pair; the number of passes is at most n(n-1)/2 + 1 |
| `Minimizer.MarkIsJustified` | DFAMinimizer.java:132-135 | when the table is sound, a pair with a marked successor pair has a distinguishing word |
| `Minimizer.PairsBelowDiagonalCount` | DFAMinimizer.java:103 | the triangular table has n(n-1)/2 entries, which bounds the number of marks and so the number of passes |
| `Minimizer.Collect` | DFAMinimizer.java:145-153 | the list holds exactly the pairs `(q, p)` with `q < p < n` and `marked[p, q]` false, in scan order (by `p`, then `q`), so it has no repeated pair |
| `Minimizer.EquivalentPairListUnique` | DFAMinimizer.java:145-154 | at most one list meets the output description, so running the algorithm twice on one DFA gives the same output |
| `Minimizer.EquivalentPairs` | DFAMinimizer.java:103-154 | the output holds exactly the pairs `(p, q)` with `0 <= p < q < n` whose states are equivalent; it is strictly ascending under `compareTo` (so it has no duplicates); it is empty when `n <= 1` |
| `SampleAutomata.AllAlikePairs` | DFAMinimizer.java:10-13 | three non-final states with identical transitions give the output `(0, 1) (0, 2) (1, 2)` |
| `SampleAutomata.TwoChainsPairs` | DFAMinimizer.java:10-13 | two unary chains `0 -> 2 -> 4` and `1 -> 3 -> 4` into the accepting sink 4 give the output `(0, 1) (2, 3)` |
| `SampleAutomata.CounterPairs` | DFAMinimizer.java:10-13 | a four-state unary counter that saturates in its one final state gives an empty output |

## Left out

- Input reading in `main` and in `solveCase` (DFAMinimizer.java:58-97) is left out: the `Scanner` lines, `Integer.parseInt`, the splitting into tokens, and catching exceptions for malformed input. The automaton arrives as an already parsed `Dfa` value. `Dfa.Valid()` states what the parsed table must satisfy.
- Output formatting is left out: `StatePair.toString` and the `StringJoiner`/`System.out.println` lines (DFAMinimizer.java:40-42, 157-161) only render the sorted list.
- `StatePair.hashCode` (DFAMinimizer.java:53-55) is left out. It is a hook for hash-based collections, and the algorithm never uses it.
- `StatePairs.Equals` works on pair values. The reference-identity, `null` and class checks of `equals(Object)` have no counterpart, because pairs are values here.
- `PairSort.SortPairs` models the library call `Collections.sort` as an insertion sort on a sequence value. It states the same result: sorted under `compareTo`, and a permutation. It does not model the in-place update of the `ArrayList` or the stability of the library's merge sort. Stability does not matter here, because the collected pairs are distinct.
- The list that `Collect` builds is a sequence value that the method extends. It is not a mutable `ArrayList` object.
- Integers are unbounded. Every number in the core is a state index in `[0, n)` or a loop counter up to `n` or `m`, so Java's 32-bit `int` never overflows in the modelled code.
- The symbol loop with `break` (DFAMinimizer.java:124-138) is the separate read-only method `HasMarkedSuccessorPair`. It returns at the first witness, as `break` does. `VisitPair` marks the pair when that method reports a witness. The `for q` loop over one row is the method `VisitRow`, and a full pass of the do-while body is the method `PropagationPass`. The reads and writes of the table are the same as in the source.
- Marks made earlier in a pass are visible later in the same pass, as in the source. The model does not replace the full-table rescans with a worklist.
- The algorithm (DFAMinimizer.java:103-154) requires no state, no symbol, and no final state inside `[0, n)`. So the model allows `n = 0`, `m = 0` and final states out of range. The program can be given `m = 0`: an alphabet line of only whitespace splits into no tokens at DFAMinimizer.java:80, and no entry of a transition row is then parsed (DFAMinimizer.java:94). The model covers that case. With `m = 0` the only word is the empty one, so the contract of `EquivalentPairs` then lists exactly the pairs that agree on acceptance.
