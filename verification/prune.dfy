/** Subset enumeration and the pruning test: a candidate survives when the
    hash code of each of its one-item-deleted subsets is a key of the index. */
module Pruning {
  import opened ItemSets
  import opened FingerprintIndex

  /** The subsets of `itemSet` with one item deleted, by increasing deleted
      position. Each lacks exactly the deleted item; for an ascending itemset
      they are ascending and pairwise different. */
  method GetSubSets(itemSet: ItemSet) returns (subSets: seq<ItemSet>)
    ensures |subSets| == |itemSet|
    ensures forall i :: 0 <= i < |itemSet| ==> |subSets[i]| == |itemSet| - 1
    ensures forall i :: 0 <= i < |itemSet| ==> subSets[i] == Remove(itemSet, i)
    ensures forall i :: 0 <= i < |itemSet| ==> LacksOnly(itemSet, i, subSets[i])
    ensures Ascending(itemSet) ==> forall i :: 0 <= i < |subSets| ==> Ascending(subSets[i])
    ensures Ascending(itemSet) ==> forall p, q :: 0 <= p < q < |subSets| ==> subSets[p] != subSets[q]
  {
    subSets := [];
    for i := 0 to |itemSet|
      invariant |subSets| == i
      invariant forall p :: 0 <= p < i ==> subSets[p] == Remove(itemSet, p)
    {
      var item := Remove(itemSet, i);
      subSets := subSets + [item];
    }
    forall i | 0 <= i < |itemSet|
      ensures LacksOnly(itemSet, i, subSets[i])
    {
      RemoveMultiset(itemSet, i);
    }
    if Ascending(itemSet) {
      forall i | 0 <= i < |subSets|
        ensures Ascending(subSets[i])
      {
        RemoveAscending(itemSet, i);
      }
      forall p, q | 0 <= p < q < |subSets|
        ensures subSets[p] != subSets[q]
      {
        RemoveDistinct(itemSet, p, q);
      }
    }
  }

  /** Every one-item-deleted subset of `c` has its hash code among `keys`. */
  predicate AllSubsetsIndexed(keys: set<int>, fp: Fingerprint, c: ItemSet) {
    forall i :: 0 <= i < |c| ==> fp(Remove(c, i)) in keys
  }

  /** Looks up the subsets in order and rejects at the first hash code that
      is not a key. The index itself is a value and is left as it was. */
  method Prune(itemSetsMap: map<int, ItemSet>, newItemSet: ItemSet, fp: Fingerprint) returns (keep: bool)
    ensures keep <==> AllSubsetsIndexed(itemSetsMap.Keys, fp, newItemSet)
  {
    var subsets := GetSubSets(newItemSet);
    for n := 0 to |subsets|
      invariant forall i :: 0 <= i < n ==> fp(subsets[i]) in itemSetsMap
    {
      var hashCodeToSearch := fp(subsets[n]);
      if hashCodeToSearch !in itemSetsMap {
        return false;
      }
    }
    return true;
  }

  /** No false rejections: a candidate whose subsets all occur in the list is
      accepted by the index built from that list, whatever the hash code. */
  lemma AcceptsWhenSubsetsPresent(itemSets: seq<ItemSet>, fp: Fingerprint, c: ItemSet)
    requires forall i :: 0 <= i < |c| ==> Remove(c, i) in itemSets
    ensures AllSubsetsIndexed(Fingerprints(itemSets, fp), fp, c)
  {
    forall i | 0 <= i < |c|
      ensures fp(Remove(c, i)) in Fingerprints(itemSets, fp)
    {
      var x := Remove(c, i);
      assert x in itemSets;
    }
  }

  /** No itemset of the list shares its hash code with a one-item-deleted
      subset of `c` unless it is that subset: the pruning test then looks up
      exactly the subsets themselves. */
  predicate NoForeignCollision(itemSets: seq<ItemSet>, fp: Fingerprint, c: ItemSet) {
    forall i, x :: 0 <= i < |c| && x in itemSets && fp(x) == fp(Remove(c, i)) ==> x == Remove(c, i)
  }

  /** Downward closure: when no itemset of the list collides with a subset
      of `c`, an accepted candidate's one-item-deleted subsets all occur in
      the list. */
  lemma DownwardClosure(itemSets: seq<ItemSet>, fp: Fingerprint, c: ItemSet)
    requires NoForeignCollision(itemSets, fp, c)
    requires AllSubsetsIndexed(Fingerprints(itemSets, fp), fp, c)
    ensures forall i :: 0 <= i < |c| ==> Remove(c, i) in itemSets
  {
    forall i | 0 <= i < |c|
      ensures Remove(c, i) in itemSets
    {
      assert fp(Remove(c, i)) in Fingerprints(itemSets, fp);
    }
  }

  /** The hash code tells itemsets of length `k` apart. A hash code of
      bounded width cannot do so for every k, so this is a sufficient
      condition only. */
  ghost predicate InjectiveOn(fp: Fingerprint, k: nat) {
    forall a: ItemSet, b: ItemSet :: |a| == k && |b| == k && fp(a) == fp(b) ==> a == b
  }

  /** A hash code injective on the list's itemset length causes no
      collision with the subsets of any candidate one item longer. */
  lemma InjectiveHasNoForeignCollision(itemSets: seq<ItemSet>, fp: Fingerprint, c: ItemSet)
    requires |c| > 0
    requires forall x :: x in itemSets ==> |x| == |c| - 1
    requires InjectiveOn(fp, |c| - 1)
    ensures NoForeignCollision(itemSets, fp, c)
  {
  }

  /** Without injectivity the test is only approximate: when every itemset
      has the same hash code, [1, 2, 3] is accepted over the list
      [[1, 2], [1, 3]] although its subset [2, 3] is not in the list. */
  lemma CollisionAcceptsMissingSubset()
    ensures var fp: Fingerprint := (s: ItemSet) => 0;
            var itemSets: seq<ItemSet> := [[1, 2], [1, 3]];
            && AllSubsetsIndexed(Fingerprints(itemSets, fp), fp, [1, 2, 3])
            && Remove([1, 2, 3], 0) !in itemSets
  {
    var fp: Fingerprint := (s: ItemSet) => 0;
    var itemSets: seq<ItemSet> := [[1, 2], [1, 3]];
    assert fp(itemSets[0]) in Fingerprints(itemSets, fp);
    assert Remove([1, 2, 3], 0) == [2, 3];
  }
}
