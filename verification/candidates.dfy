/** One pass of candidate generation: index the previous pass's itemsets by
    hash code, sort them, self-join the sorted list, and keep the
    pre-candidates that pass the pruning test, in the order they were made. */
module CandidateGeneration {
  import opened ItemSets
  import opened Sorting
  import opened FingerprintIndex
  import opened Pruning
  import opened SelfJoin

  /** The pre-candidates that pass the pruning test, in their original order,
      duplicates included. */
  function KeepAccepted(pre: seq<ItemSet>, keys: set<int>, fp: Fingerprint): seq<ItemSet>
    decreases |pre|
  {
    if |pre| == 0 then []
    else
      var c := pre[|pre| - 1];
      KeepAccepted(pre[..|pre| - 1], keys, fp) + if AllSubsetsIndexed(keys, fp, c) then [c] else []
  }

  /** The candidates of the next pass, built from the previous pass's
      itemsets `prev` in the order the caller gave them. */
  function Candidates(prev: seq<ItemSet>, fp: Fingerprint): seq<ItemSet>
    requires NonEmptyItemSets(prev)
  {
    PermutationMembers(prev, Sort(prev));
    KeepAccepted(PreCandidates(Sort(prev)), Fingerprints(prev, fp), fp)
  }

  /** Builds the index from `prevPassItemSets` in the caller's order, then
      sorts the list (the caller's list is reordered: the sorted list is the
      second result), self-joins it and prunes. */
  method GetCandidateItemSets(prevPassItemSets: seq<ItemSet>, fp: Fingerprint)
    returns (candidateItemSets: seq<ItemSet>, sortedPrev: seq<ItemSet>)
    requires NonEmptyItemSets(prevPassItemSets)
    ensures Sorted(sortedPrev) && multiset(sortedPrev) == multiset(prevPassItemSets)
    ensures candidateItemSets == Candidates(prevPassItemSets, fp)
  {
    var itemSetMap := GenerateItemSetMap(prevPassItemSets, fp);
    sortedPrev := Sort(prevPassItemSets);
    PermutationMembers(prevPassItemSets, sortedPrev);
    var pre := GetPreCandidates(sortedPrev);
    candidateItemSets := [];
    for n := 0 to |pre|
      invariant candidateItemSets == KeepAccepted(pre[..n], itemSetMap.Keys, fp)
    {
      var item := pre[n];
      var keep := Prune(itemSetMap, item, fp);
      assert pre[..n + 1][..n] == pre[..n];
      if keep {
        candidateItemSets := candidateItemSets + [item];
      }
    }
    assert pre[..|pre|] == pre;
  }

  /** The filter keeps exactly the accepted pre-candidates, each as often as
      it was produced. */
  lemma {:induction false} KeepAcceptedCount(pre: seq<ItemSet>, keys: set<int>, fp: Fingerprint, c: ItemSet)
    ensures multiset(KeepAccepted(pre, keys, fp))[c] ==
            if AllSubsetsIndexed(keys, fp, c) then multiset(pre)[c] else 0
    decreases |pre|
  {
    if |pre| > 0 {
      var init := pre[..|pre| - 1];
      KeepAcceptedCount(init, keys, fp, c);
      assert pre == init + [pre[|pre| - 1]];
    }
  }

  /** A candidate is a pre-candidate that passes the pruning test, and every
      such pre-candidate is a candidate. */
  lemma CandidatesMembership(prev: seq<ItemSet>, fp: Fingerprint, c: ItemSet)
    requires NonEmptyItemSets(prev)
    ensures NonEmptyItemSets(Sort(prev))
    ensures c in Candidates(prev, fp) <==>
            c in PreCandidates(Sort(prev)) && AllSubsetsIndexed(Fingerprints(prev, fp), fp, c)
  {
    PermutationMembers(prev, Sort(prev));
    var pre := PreCandidates(Sort(prev));
    KeepAcceptedCount(pre, Fingerprints(prev, fp), fp, c);
    assert c in Candidates(prev, fp) <==> c in multiset(Candidates(prev, fp));
    assert c in pre <==> c in multiset(pre);
  }

  /** Every candidate comes from a partial-equal pair of earlier itemsets,
      the first at most the second in itemset order, and passed the test. */
  lemma CandidatesFromJoinablePairs(prev: seq<ItemSet>, fp: Fingerprint, c: ItemSet)
    requires NonEmptyItemSets(prev)
    requires c in Candidates(prev, fp)
    ensures AllSubsetsIndexed(Fingerprints(prev, fp), fp, c)
    ensures exists a, b :: a in prev && b in prev && |b| > 0 && PartialEqual(a, b) && LexLe(a, b) && c == Extend(a, b)
  {
    var s := Sort(prev);
    CandidatesMembership(prev, fp, c);
    PreCandidatesMembership(s, c);
    var i: nat, j: nat :| Joinable(s, i, j) && c == Extend(s[i], s[j]);
    PermutationMembers(prev, s);
    assert s[i] in prev && s[j] in prev;
  }

  /** Every candidate is one item longer than the previous pass's itemsets. */
  lemma CandidatesLength(prev: seq<ItemSet>, fp: Fingerprint, k: nat)
    requires k > 0
    requires forall x :: x in prev ==> |x| == k
    ensures forall c :: c in Candidates(prev, fp) ==> |c| == k + 1
  {
    forall c | c in Candidates(prev, fp)
      ensures |c| == k + 1
    {
      CandidatesFromJoinablePairs(prev, fp, c);
    }
  }

  /** Fewer than two itemsets give no candidate. */
  lemma CandidatesOfShortList(prev: seq<ItemSet>, fp: Fingerprint)
    requires NonEmptyItemSets(prev)
    requires |prev| <= 1
    ensures Candidates(prev, fp) == []
  {
    PermutationMembers(prev, Sort(prev));
    assert |Sort(prev)| == |multiset(prev)| == |prev|;
    PreCandidatesOfShortList(Sort(prev));
  }

  /** Downward closure: when no itemset of the list collides with a subset
      of a join of two partial-equal itemsets, every one-item-deleted subset
      of a candidate is one of the previous pass's itemsets. */
  lemma CandidatesDownwardClosed(prev: seq<ItemSet>, fp: Fingerprint)
    requires NonEmptyItemSets(prev)
    requires forall a, b :: a in prev && b in prev && PartialEqual(a, b) ==> NoForeignCollision(prev, fp, Extend(a, b))
    ensures forall c, i :: c in Candidates(prev, fp) && 0 <= i < |c| ==> Remove(c, i) in prev
  {
    forall c, i | c in Candidates(prev, fp) && 0 <= i < |c|
      ensures Remove(c, i) in prev
    {
      CandidatesFromJoinablePairs(prev, fp, c);
      DownwardClosure(prev, fp, c);
    }
  }

  /** The same when the hash code is injective on itemsets of length k. */
  lemma CandidatesDownwardClosedInjective(prev: seq<ItemSet>, fp: Fingerprint, k: nat)
    requires k > 0
    requires forall x :: x in prev ==> |x| == k
    requires InjectiveOn(fp, k)
    ensures forall c, i :: c in Candidates(prev, fp) && 0 <= i < |c| ==> Remove(c, i) in prev
  {
    forall a, b | a in prev && b in prev && PartialEqual(a, b)
      ensures NoForeignCollision(prev, fp, Extend(a, b))
    {
      InjectiveHasNoForeignCollision(prev, fp, Extend(a, b));
    }
    CandidatesDownwardClosed(prev, fp);
  }

  /** Within the sorted list, partial-equal itemsets at positions i < j that
      differ have increasing last items. */
  lemma SortedJoinIncreases(s: seq<ItemSet>, i: nat, j: nat)
    requires Sorted(s) && NoDuplicates(s)
    requires Joinable(s, i, j) && |s[i]| > 0
    ensures Last(s[i]) < Last(s[j])
  {
    LexLePartialEqual(s[i], s[j]);
  }

  /** With ascending, pairwise different itemsets of one length k > 0 as
      input, every candidate is ascending. */
  lemma CandidatesAscending(prev: seq<ItemSet>, fp: Fingerprint, k: nat)
    requires k > 0
    requires forall x :: x in prev ==> |x| == k && Ascending(x)
    requires NoDuplicates(prev)
    ensures forall c :: c in Candidates(prev, fp) ==> Ascending(c)
  {
    var s := Sort(prev);
    PermutationMembers(prev, s);
    NoDuplicatesPermutation(prev, s);
    forall c | c in Candidates(prev, fp)
      ensures Ascending(c)
    {
      CandidatesMembership(prev, fp, c);
      PreCandidatesMembership(s, c);
      var i: nat, j: nat :| Joinable(s, i, j) && c == Extend(s[i], s[j]);
      assert s[i] in prev;
      SortedJoinIncreases(s, i, j);
      ExtendAscending(s[i], s[j]);
    }
  }

  /** Join completeness: two of the previous pass's itemsets that are
      partial-equal, the first with the smaller last item, are joined. */
  lemma JoinComplete(prev: seq<ItemSet>, a: ItemSet, b: ItemSet)
    requires NonEmptyItemSets(prev)
    requires a in prev && b in prev
    requires PartialEqual(a, b) && |a| > 0 && Last(a) < Last(b)
    ensures NonEmptyItemSets(Sort(prev))
    ensures Extend(a, b) in PreCandidates(Sort(prev))
  {
    var s := Sort(prev);
    PermutationMembers(prev, s);
    var i :| 0 <= i < |s| && s[i] == a;
    var j :| 0 <= j < |s| && s[j] == b;
    if j < i {
      LexLePartialEqual(b, a);
      assert false;
    }
    assert i != j;
    assert Joinable(s, i, j);
    PreCandidatesMembership(s, Extend(a, b));
  }

  /** A join of two such itemsets is a candidate exactly when it passes the
      pruning test. */
  lemma JoinedCandidate(prev: seq<ItemSet>, fp: Fingerprint, a: ItemSet, b: ItemSet)
    requires NonEmptyItemSets(prev)
    requires a in prev && b in prev
    requires PartialEqual(a, b) && |a| > 0 && Last(a) < Last(b)
    ensures Extend(a, b) in Candidates(prev, fp) <==>
            AllSubsetsIndexed(Fingerprints(prev, fp), fp, Extend(a, b))
  {
    JoinComplete(prev, a, b);
    CandidatesMembership(prev, fp, Extend(a, b));
  }

  /** A join all of whose one-item-deleted subsets are among the previous
      pass's itemsets is a candidate, whatever the hash code. */
  lemma JoinWithPresentSubsetsIsCandidate(prev: seq<ItemSet>, fp: Fingerprint, a: ItemSet, b: ItemSet)
    requires NonEmptyItemSets(prev)
    requires a in prev && b in prev
    requires PartialEqual(a, b) && |a| > 0 && Last(a) < Last(b)
    requires forall i :: 0 <= i < |a| + 1 ==> Remove(Extend(a, b), i) in prev
    ensures Extend(a, b) in Candidates(prev, fp)
  {
    AcceptsWhenSubsetsPresent(prev, fp, Extend(a, b));
    JoinedCandidate(prev, fp, a, b);
  }

  /** When every itemset has the same hash code, [1, 2, 3] is a candidate
      over [[1, 2], [1, 3]] although its subset [2, 3] is not an itemset of
      the previous pass: without injectivity there is no downward closure. */
  lemma CollisionBreaksDownwardClosure()
    ensures var fp: Fingerprint := (s: ItemSet) => 0;
            var prev: seq<ItemSet> := [[1, 2], [1, 3]];
            && NonEmptyItemSets(prev)
            && [1, 2, 3] in Candidates(prev, fp)
            && Remove([1, 2, 3], 0) !in prev
  {
    var fp: Fingerprint := (s: ItemSet) => 0;
    var prev: seq<ItemSet> := [[1, 2], [1, 3]];
    var a: ItemSet := [1, 2];
    var b: ItemSet := [1, 3];
    assert a in prev && b in prev;
    assert Extend(a, b) == [1, 2, 3];
    assert fp(a) in Fingerprints(prev, fp);
    JoinedCandidate(prev, fp, a, b);
    assert Remove([1, 2, 3], 0) == [2, 3];
  }
}
