# Apriori candidate generation

This project models one pass of Apriori candidate generation from
`src/utils/AprioriUtils.java`. The pass takes the frequent itemsets of
length k found by the previous pass and produces the candidate itemsets of
length k + 1 in three stages:

- **Fingerprint index** (`generateItemSetMap`). Each previous-pass itemset
  is stored under its hash code. The first itemset in list order with a
  given hash code wins.
- **Self-join** (`getCandidateItemSets`). The list is sorted. Then every
  pair of positions i < j is scanned in loop order. Each partial-equal pair
  yields a pre-candidate: a copy of the itemset at i with the last item of
  the itemset at j appended.
- **Prune** (`prune`, `getSubSets`). Each pre-candidate's one-item-deleted
  subsets are formed in order of the deleted position. The pre-candidate is
  kept only if every subset's hash code is a key of the index.

Survivors are returned in the order the join produced them. Duplicates are
not removed.

## How the model is built

- **Itemsets.** An itemset is a `seq<int>` (`ItemSets.ItemSet`). The
  itemset class itself is not part of this model. Its operations are
  modelled as values:
  - `clone` + `remove(i)` is `Remove`.
  - `clone` + `add(last of b)` is `Extend`.
  - `partialEqual` is `PartialEqual`: same length, and equal everywhere
    except possibly the last position.
- **Values, not objects.** Itemsets, lists and the index are values.
  `getSubSets` builds every subset from a clone, and `prune` only reads
  the map. So "the argument and the index are left unchanged" holds by
  construction and is not stated as a separate contract.
- **Hash code.** It is a function parameter `fp: ItemSet -> int`, so every
  property holds for every hash function. Downward closure in terms of real
  itemsets holds when no itemset of the list shares a hash code with a
  one-item-deleted subset of a candidate other than that subset itself
  (`Pruning.NoForeignCollision`). That is an explicit hypothesis of the
  lemmas that need it. A hash code injective on itemsets of length k
  (`Pruning.InjectiveOn`) is a sufficient condition, but a 32-bit hash code
  cannot be injective on itemsets of length k >= 2. The local hypothesis,
  by contrast, can hold for the lists a run actually sees.
  `CandidateGeneration.CollisionBreaksDownwardClosure` shows that without
  it an itemset with a missing subset can become a candidate.
- **Sort.** The itemset comparison is taken to be lexicographic, with a
  proper prefix first (`ItemSets.LexLe`). `Collections.sort` is modelled by
  an insertion sort, `Sorting.Sort`. `Sorting.SortedPermutationUnique`
  proves that every sorted rearrangement is the same list, so the
  algorithm the library uses does not matter.
- **In-place sort.** `Collections.sort` reorders the caller's list in
  place (line 72). `GetCandidateItemSets` therefore returns the reordered
  list as a second result. The index is built before the sort (line 71),
  so first-writer-wins refers to the caller's original order.
- **Join order.** The order of the self-join is stated through
  `SelfJoin.JoinPairs`. It lists the accepted index pairs (i, j) in the
  order the double loop visits them. The pre-candidate list is the join of
  each pair in that list.
- **Skipped pairs.** The comment at lines 59-63 says the scan for i should
  "break" at a pair that is not partial-equal. The code `continue`s
  instead (line 83). The model follows the code. Module `StoppingScan`
  models the stopping scan as well. It proves that on a sorted list whose
  itemsets all have one length, the pairs the stopping scan accepts are
  the same as the skipping scan's: the partners of i sit right after it
  (`StoppingScan.PartialEqualContiguous`). So the comment and the code agree
  on every list the program is given (lines 41-42: L_k holds itemsets of
  length k). `Scenarios.SkippedPairDoesNotStopScan` shows the two differ
  on the sorted list [[1], [1, 2], [2]]. That list mixes itemset lengths
  and so lies outside the program's inputs.
- **Inner loop.** The inner loop of the self-join is modelled as its own
  method, `SelfJoin.JoinRow`.

## Model

| member | source | states |
|---|---|---|
| `ItemSets.RemoveKeepsOrder` | src/utils/AprioriUtils.java:144-148 | a one-item-deleted subset has one item fewer, keeps the other items in their relative order, and reinserting the removed item at its position gives back the itemset |
| `ItemSets.RemoveMultiset` | src/utils/AprioriUtils.java:145-146 | the deleted item is the only item missing from the subset (`LacksOnly`) |
| `ItemSets.RemoveAscending` | src/utils/AprioriUtils.java:145-146 | deleting an item from an ascending itemset leaves it ascending |
| `ItemSets.RemoveDistinct` | src/utils/AprioriUtils.java:144-148 | for an ascending itemset, different deleted positions give different subsets |
| `ItemSets.ExtendAscending` | src/utils/AprioriUtils.java:85-86 | appending an item larger than the last keeps an ascending itemset ascending |
| `ItemSets.LexLeTotal` | src/utils/AprioriUtils.java:72 | any two itemsets are comparable in the sort order |
| `ItemSets.LexLeTransitive` | src/utils/AprioriUtils.java:72 | the sort order is transitive |
| `ItemSets.LexLeAntisymmetric` | src/utils/AprioriUtils.java:72 | itemsets ordered both ways are equal |
| `ItemSets.LexLeBetweenSharesPrefix` | src/utils/AprioriUtils.java:72 | an itemset ordered between two itemsets that share their first n items shares those n items |
| `ItemSets.LexLePartialEqual` | src/utils/AprioriUtils.java:72-83 | partial-equal itemsets are ordered by their last items |
| `Sorting.Insert` | src/utils/AprioriUtils.java:72 | inserting into a sorted list gives a sorted list holding exactly one more copy of the item |
| `Sorting.Sort` | src/utils/AprioriUtils.java:72 | the sort returns a sorted rearrangement of its input |
| `Sorting.SortedPermutationUnique` | src/utils/AprioriUtils.java:72 | two sorted rearrangements of the same itemsets are the same list |
| `Sorting.SortIsTheSort` | src/utils/AprioriUtils.java:72 | any sorted rearrangement of the list is what `Sort` returns |
| `Sorting.PermutationMembers` | src/utils/AprioriUtils.java:72 | sorting neither adds nor loses itemsets |
| `Sorting.NoDuplicatesCount` | src/utils/AprioriUtils.java:72 | a list has no repeated itemset exactly when each itemset occurs at most once in it |
| `Sorting.NoDuplicatesPermutation` | src/utils/AprioriUtils.java:72 | sorting a list without repeats gives a list without repeats |
| `FingerprintIndex.GenerateItemSetMap` | src/utils/AprioriUtils.java:110-120 | the keys are exactly the hash codes of the input; the value under a key is the first itemset in list order with that hash code, so every value is an input itemset |
| `Pruning.GetSubSets` | src/utils/AprioriUtils.java:139-151 | returns exactly one subset per position, the i-th being the itemset with position i deleted, each one item shorter and lacking only the deleted item; for an ascending itemset the subsets are ascending and pairwise different |
| `Pruning.Prune` | src/utils/AprioriUtils.java:126-136 | accepts exactly when the hash code of every one-item-deleted subset is a key of the index |
| `Pruning.AcceptsWhenSubsetsPresent` | src/utils/AprioriUtils.java:126-136 | a candidate whose subsets all occur in the list is accepted by that list's index, whatever the hash code |
| `Pruning.DownwardClosure` | src/utils/AprioriUtils.java:45-46 | when no itemset of the list shares a hash code with a subset of the candidate other than that subset, an accepted candidate's subsets all occur in the list |
| `Pruning.InjectiveHasNoForeignCollision` | src/utils/AprioriUtils.java:45-46 | a hash code injective on the list's itemset length causes no such collision for a candidate one item longer |
| `Pruning.CollisionAcceptsMissingSubset` | src/utils/AprioriUtils.java:126-136 | with a constant hash code, [1, 2, 3] passes the test over [[1, 2], [1, 3]] although [2, 3] is not in the list |
| `SelfJoin.RowPairs` | src/utils/AprioriUtils.java:79-88 | the inner loop for i accepts only partial-equal pairs (i, j) with i < j, in increasing j |
| `SelfJoin.PairsBefore` | src/utils/AprioriUtils.java:76-89 | the first rounds of the outer loop accept only partial-equal pairs i < j, in (i, j) loop order |
| `SelfJoin.JoinRow` | src/utils/AprioriUtils.java:79-88 | the inner loop produces the joins of the pairs it accepts, in order, skipping non-partial-equal pairs |
| `SelfJoin.GetPreCandidates` | src/utils/AprioriUtils.java:76-89 | the double loop produces one join per accepted pair, in loop order |
| `SelfJoin.JoinPairsExact` | src/utils/AprioriUtils.java:76-88 | the accepted pairs are exactly the partial-equal pairs i < j, each once, in (i, j) loop order |
| `SelfJoin.PreCandidatesMembership` | src/utils/AprioriUtils.java:83-87 | an itemset is a pre-candidate exactly when it is the itemset at some i extended by the last item of a partial-equal itemset at some j > i |
| `SelfJoin.PreCandidatesOfShortList` | src/utils/AprioriUtils.java:76-79 | a list of at most one itemset has no pre-candidates |
| `CandidateGeneration.GetCandidateItemSets` | src/utils/AprioriUtils.java:68-103 | returns the caller's list sorted (a rearrangement of it), and the pre-candidates of the sorted list that pass the test against the index of the original list, in join order |
| `CandidateGeneration.KeepAcceptedCount` | src/utils/AprioriUtils.java:95-98 | the pruning pass keeps each accepted pre-candidate as often as it was produced and drops every rejected one |
| `CandidateGeneration.CandidatesMembership` | src/utils/AprioriUtils.java:95-98 | an itemset is a candidate exactly when it is a pre-candidate that passes the test |
| `CandidateGeneration.CandidatesFromJoinablePairs` | src/utils/AprioriUtils.java:83-87 | every candidate is some input itemset extended by the last item of a partial-equal input itemset that is not smaller, and it passed the test |
| `CandidateGeneration.CandidatesLength` | src/utils/AprioriUtils.java:85-86 | from itemsets of length k > 0, every candidate has length k + 1 |
| `CandidateGeneration.CandidatesOfShortList` | src/utils/AprioriUtils.java:76-79 | a list of at most one itemset gives no candidates |
| `CandidateGeneration.CandidatesDownwardClosed` | src/utils/AprioriUtils.java:45-46 | when no input itemset collides with a subset of a join of two partial-equal input itemsets, every one-item-deleted subset of a candidate is an input itemset |
| `CandidateGeneration.CandidatesDownwardClosedInjective` | src/utils/AprioriUtils.java:45-46 | the same conclusion when the hash code is injective on itemsets of the input length k |
| `CandidateGeneration.SortedJoinIncreases` | src/utils/AprioriUtils.java:83-86 | in a sorted list without repeats, the appended last item exceeds the last item of the itemset it extends |
| `CandidateGeneration.CandidatesAscending` | src/utils/AprioriUtils.java:50-56 | from ascending, pairwise different input itemsets of one length, every candidate is ascending |
| `CandidateGeneration.JoinComplete` | src/utils/AprioriUtils.java:76-88 | two partial-equal input itemsets, the first with the smaller last item, are always joined, whatever the input order |
| `CandidateGeneration.JoinedCandidate` | src/utils/AprioriUtils.java:85-97 | such a join is a candidate exactly when it passes the test |
| `CandidateGeneration.JoinWithPresentSubsetsIsCandidate` | src/utils/AprioriUtils.java:85-97 | such a join whose subsets are all input itemsets is a candidate, whatever the hash code |
| `CandidateGeneration.CollisionBreaksDownwardClosure` | src/utils/AprioriUtils.java:106-116 | with a constant hash code, [1, 2, 3] is a candidate over [[1, 2], [1, 3]] although its subset [2, 3] is not an input itemset |
| `Scenarios.SingleJoinablePair` | src/utils/AprioriUtils.java:95-98 | a sorted list with the single partial-equal pair (0, 1) yields that join or nothing, according to the test |
| `Scenarios.ThreePairs` | src/utils/AprioriUtils.java:68-103 | [[1, 2], [1, 3], [2, 3]] yields exactly [[1, 2, 3]] for every hash code |
| `Scenarios.FourTriples` | src/utils/AprioriUtils.java:68-103 | [[1, 2, 3], [1, 2, 4], [1, 3, 4], [2, 3, 4]] yields exactly [[1, 2, 3, 4]] for every hash code |
| `Scenarios.MissingSubsetPruned` | src/utils/AprioriUtils.java:126-135 | [[1, 2], [1, 3]] yields no candidate when the hash code of [2, 3] differs from both input hash codes |
| `StoppingScan.BreakRowPairs` | src/utils/AprioriUtils.java:59-63 | the inner loop for i, stopped at the first mismatch, accepts only partial-equal pairs (i, j) with i < j |
| `StoppingScan.BreakPairsBefore` | src/utils/AprioriUtils.java:59-63 | the double loop with the stopping inner loop accepts only partial-equal pairs i < j |
| `StoppingScan.JoinRowWithBreak` | src/utils/AprioriUtils.java:59-63 | the inner loop with a `break` at the first mismatch produces the joins of exactly the pairs it accepts, in order |
| `StoppingScan.BrokenRowStaysBroken` | src/utils/AprioriUtils.java:59-63 | once the stopping scan has met a mismatch, it accepts no later pair |
| `StoppingScan.PartialEqualContiguous` | src/utils/AprioriUtils.java:59-65 | in a sorted list of itemsets of one length, every itemset between i and a partial-equal partner of i is partial-equal to the itemset at i |
| `StoppingScan.BreakRowPairsMatch` | src/utils/AprioriUtils.java:59-83 | on such a list the stopping and the skipping inner loop accept the same pairs in the same order |
| `StoppingScan.BreakPairsFromRows` | src/utils/AprioriUtils.java:76-89 | outer loops whose rows agree accept the same pairs |
| `StoppingScan.BreakPairsMatch` | src/utils/AprioriUtils.java:59-89 | on such a list the double loop accepts the same pairs whether its inner loop stops or skips |
| `StoppingScan.BreakPreCandidatesMatch` | src/utils/AprioriUtils.java:59-89 | on such a list the pre-candidates are the same whether the inner loop stops or skips |
| `Scenarios.SkippedPairDoesNotStopScan` | src/utils/AprioriUtils.java:59-83 | on the mixed-length sorted list [[1], [1, 2], [2]] the pair (0, 1) is skipped and the pre-candidates are exactly [[1, 2]], while the stopping scan accepts no pair |

## Left out

- `getTransaction` (lines 21-31): parses a text record with `String.split`
  and `Integer.parseInt` into a transaction. It is input plumbing, and the
  transaction class is not part of this model.
- `hasMinSupport` (lines 35-38): a floating-point division and comparison.
  It is not used by candidate generation.
- The two `System.out.println` calls (lines 91 and 100). They print the
  candidate counts before and after pruning and are an observation
  channel only.
- The internals of the itemset class: `hashCode`, `compareTo`,
  `partialEqual` and `clone`. They are not part of this model and are
  represented by the abstractions above. The 32-bit width of `hashCode`
  is not modelled, because the hash code is an arbitrary function. The
  downward-closure lemmas therefore take a no-collision hypothesis rather
  than assuming the hash code tells itemsets apart.
- The trie that stores candidates and support counting across passes.
  Neither is in this file.
- CandidateGeneration.GetCandidateItemSets: requires every itemset to be
  non-empty, which asks more than the source needs. The source reads the
  last item of the second itemset of a partial-equal pair (line 86). Under
  partial equality that itemset is empty only if the first is too, so the
  source throws only when the list holds two empty itemsets. A list with
  a single empty itemset runs normally in the source but is outside the
  model. The exception itself is not represented.
- The `itemSetSize` parameter of `getCandidateItemSets` (line 68). The
  method never reads it, so the model drops it.
- Pruning.Prune: returns at the first subset whose hash code is missing.
  The early exit cannot be observed in a boolean result, so the contract
  states only the resulting verdict.
