/** Worked examples of one pass of candidate generation on small sorted
    lists. */
module Scenarios {
  import opened ItemSets
  import opened Sorting
  import opened FingerprintIndex
  import opened Pruning
  import opened SelfJoin
  import opened CandidateGeneration
  import opened StoppingScan

  /** A sorted list whose only joinable pair is (0, 1) has exactly one
      candidate or none, depending on the pruning test. */
  lemma SingleJoinablePair(prev: seq<ItemSet>, fp: Fingerprint)
    requires NonEmptyItemSets(prev) && |prev| >= 2
    requires Sorted(prev)
    requires JoinPairs(prev) == [(0, 1)]
    ensures var c := Extend(prev[0], prev[1]);
            && (AllSubsetsIndexed(Fingerprints(prev, fp), fp, c) ==> Candidates(prev, fp) == [c])
            && (!AllSubsetsIndexed(Fingerprints(prev, fp), fp, c) ==> Candidates(prev, fp) == [])
  {
    var c := Extend(prev[0], prev[1]);
    var keys := Fingerprints(prev, fp);
    SortIsTheSort(prev, prev);
    assert PreCandidates(prev) == [c];
    assert Candidates(prev, fp) == KeepAccepted([c], keys, fp);
    assert [c][..0] == [];
    assert KeepAccepted([c], keys, fp) == [] + if AllSubsetsIndexed(keys, fp, c) then [c] else [];
  }

  lemma ThreePairsSorted(prev: seq<ItemSet>)
    requires prev == [[1, 2], [1, 3], [2, 3]]
    ensures Sorted(prev)
  {
    assert LexLe(prev[0], prev[1]) && LexLe(prev[0], prev[2]) && LexLe(prev[1], prev[2]);
  }

  lemma ThreePairsJoinPairs(prev: seq<ItemSet>)
    requires prev == [[1, 2], [1, 3], [2, 3]]
    ensures JoinPairs(prev) == [(0, 1)]
  {
    assert PartialEqual(prev[0], prev[1]);
    assert prev[0][0] != prev[2][0] && prev[1][0] != prev[2][0];
    assert RowPairs(prev, 0, 3) == [(0, 1)];
    assert RowPairs(prev, 1, 3) == [];
  }

  /** [[1, 2], [1, 3], [2, 3]]: only [1, 2] and [1, 3] share their first
      item; their join [1, 2, 3] has all three subsets in the list, so it is
      the one candidate, whatever the hash code. */
  lemma ThreePairs(prev: seq<ItemSet>, fp: Fingerprint)
    requires prev == [[1, 2], [1, 3], [2, 3]]
    ensures NonEmptyItemSets(prev)
    ensures Candidates(prev, fp) == [[1, 2, 3]]
  {
    ThreePairsSorted(prev);
    ThreePairsJoinPairs(prev);
    var c := Extend(prev[0], prev[1]);
    assert c == [1, 2, 3];
    forall i | 0 <= i < |c|
      ensures Remove(c, i) in prev
    {
      assert Remove(c, i) == prev[2 - i];
    }
    AcceptsWhenSubsetsPresent(prev, fp, c);
    SingleJoinablePair(prev, fp);
  }

  lemma FourTriplesSorted(prev: seq<ItemSet>)
    requires prev == [[1, 2, 3], [1, 2, 4], [1, 3, 4], [2, 3, 4]]
    ensures Sorted(prev)
  {
    assert LexLe(prev[0], prev[1]) && LexLe(prev[0], prev[2]) && LexLe(prev[0], prev[3]);
    assert LexLe(prev[1], prev[2]) && LexLe(prev[1], prev[3]) && LexLe(prev[2], prev[3]);
  }

  lemma FourTriplesJoinPairs(prev: seq<ItemSet>)
    requires prev == [[1, 2, 3], [1, 2, 4], [1, 3, 4], [2, 3, 4]]
    ensures JoinPairs(prev) == [(0, 1)]
  {
    assert PartialEqual(prev[0], prev[1]);
    assert prev[0][1] != prev[2][1] && prev[0][0] != prev[3][0];
    assert prev[1][1] != prev[2][1] && prev[1][0] != prev[3][0];
    assert prev[2][0] != prev[3][0];
    assert RowPairs(prev, 0, 4) == [(0, 1)];
    assert RowPairs(prev, 1, 4) == [];
    assert RowPairs(prev, 2, 4) == [];
  }

  lemma FourTriplesSubsets(prev: seq<ItemSet>, c: ItemSet)
    requires prev == [[1, 2, 3], [1, 2, 4], [1, 3, 4], [2, 3, 4]]
    requires c == [1, 2, 3, 4]
    ensures forall i :: 0 <= i < |c| ==> Remove(c, i) in prev
  {
    assert Remove(c, 0) == prev[3];
    assert Remove(c, 1) == prev[2];
    assert Remove(c, 2) == prev[1];
    assert Remove(c, 3) == prev[0];
  }

  /** [[1, 2, 3], [1, 2, 4], [1, 3, 4], [2, 3, 4]]: only the first two are
      partial-equal, and the four subsets of their join [1, 2, 3, 4] are
      exactly the list, so [1, 2, 3, 4] is the one candidate. */
  lemma FourTriples(prev: seq<ItemSet>, fp: Fingerprint)
    requires prev == [[1, 2, 3], [1, 2, 4], [1, 3, 4], [2, 3, 4]]
    ensures NonEmptyItemSets(prev)
    ensures Candidates(prev, fp) == [[1, 2, 3, 4]]
  {
    FourTriplesSorted(prev);
    FourTriplesJoinPairs(prev);
    var c := Extend(prev[0], prev[1]);
    assert c == [1, 2, 3, 4];
    FourTriplesSubsets(prev, c);
    AcceptsWhenSubsetsPresent(prev, fp, c);
    SingleJoinablePair(prev, fp);
  }

  /** [[1, 2], [1, 3]] without [2, 3]: the join [1, 2, 3] is made but
      rejected, provided the hash code of [2, 3] differs from those of the
      list (it does when the hash code is injective on pairs). */
  lemma MissingSubsetPruned(prev: seq<ItemSet>, fp: Fingerprint)
    requires prev == [[1, 2], [1, 3]]
    requires fp([2, 3]) != fp([1, 2]) && fp([2, 3]) != fp([1, 3])
    ensures NonEmptyItemSets(prev)
    ensures Candidates(prev, fp) == []
  {
    assert LexLe(prev[0], prev[1]);
    assert PartialEqual(prev[0], prev[1]);
    assert RowPairs(prev, 0, 2) == [(0, 1)];
    var c := Extend(prev[0], prev[1]);
    assert Remove(c, 0) == [2, 3];
    assert fp(Remove(c, 0)) !in Fingerprints(prev, fp);
    SingleJoinablePair(prev, fp);
  }

  lemma MixedListJoinPairs(prev: seq<ItemSet>)
    requires prev == [[1], [1, 2], [2]]
    ensures JoinPairs(prev) == [(0, 2)]
  {
    assert !PartialEqual(prev[0], prev[1]);
    assert PartialEqual(prev[0], prev[2]);
    assert !PartialEqual(prev[1], prev[2]);
    assert RowPairs(prev, 0, 3) == [(0, 2)];
    assert RowPairs(prev, 1, 3) == [];
  }

  lemma MixedListSorted(prev: seq<ItemSet>)
    requires prev == [[1], [1, 2], [2]]
    ensures Sorted(prev)
  {
    assert LexLe(prev[0], prev[1]) && LexLe(prev[0], prev[2]) && LexLe(prev[1], prev[2]);
  }

  lemma MixedListBreakPairs(prev: seq<ItemSet>)
    requires prev == [[1], [1, 2], [2]]
    ensures BreakPairsBefore(prev, |prev|) == []
  {
    assert !PartialEqual(prev[0], prev[1]);
    assert !PartialEqual(prev[1], prev[2]);
    BrokenRowStaysBroken(prev, 0, 2, 3);
    assert BreakRowPairs(prev, 0, 3) == [];
    BrokenRowStaysBroken(prev, 1, 3, 3);
    assert BreakRowPairs(prev, 1, 3) == [];
  }

  lemma MixedListPreCandidates(prev: seq<ItemSet>)
    requires prev == [[1], [1, 2], [2]]
    ensures NonEmptyItemSets(prev)
    ensures PreCandidates(prev) == [[1, 2]]
  {
    assert NonEmptyItemSets(prev);
    MixedListJoinPairs(prev);
    var pre := PreCandidates(prev);
    assert |pre| == 1 && pre[0] == Extend(prev[0], prev[2]) == [1, 2];
  }

  /** The scan for i goes on past a pair that is not partial-equal: in the
      sorted list [[1], [1, 2], [2]] the pair (0, 1) is skipped, yet the
      later pair (0, 2) is still joined into [1, 2]. Stopping the scan for i
      at the first mismatch would accept no pair at all. The list mixes
      itemset lengths, which the program's callers never do; on lists of one
      length the two scans agree (`BreakPreCandidatesMatch`). */
  lemma SkippedPairDoesNotStopScan(prev: seq<ItemSet>)
    requires prev == [[1], [1, 2], [2]]
    ensures Sorted(prev) && NonEmptyItemSets(prev)
    ensures !PartialEqual(prev[0], prev[1])
    ensures PreCandidates(prev) == [[1, 2]]
    ensures BreakPairsBefore(prev, |prev|) == []
  {
    MixedListSorted(prev);
    MixedListPreCandidates(prev);
    MixedListBreakPairs(prev);
    assert prev[0][0] == 1 && prev[1] == [1, 2];
  }
}
