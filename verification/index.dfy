/** The fingerprint index over the previous pass's itemsets: a map from hash
    code to the first itemset in list order with that hash code. Pruning only
    asks whether a hash code is a key, so membership in the index stands for
    membership in the list up to hash-code collisions. */
module FingerprintIndex {
  import opened ItemSets

  /** The hash codes of the given itemsets. */
  function Fingerprints(itemSets: seq<ItemSet>, fp: Fingerprint): set<int> {
    set x | x in itemSets :: fp(x)
  }

  /** Position `i` holds the first itemset whose hash code is `h`. */
  predicate FirstWith(itemSets: seq<ItemSet>, fp: Fingerprint, h: int, i: int) {
    && 0 <= i < |itemSets|
    && fp(itemSets[i]) == h
    && forall j :: 0 <= j < i ==> fp(itemSets[j]) != h
  }

  /** Builds the index in list order; a later itemset whose hash code is
      already a key is not stored (the first writer wins). */
  method GenerateItemSetMap(itemSets: seq<ItemSet>, fp: Fingerprint) returns (index: map<int, ItemSet>)
    ensures index.Keys == Fingerprints(itemSets, fp)
    ensures forall h :: h in index ==>
              exists i :: FirstWith(itemSets, fp, h, i) && index[h] == itemSets[i]
    ensures forall h :: h in index ==> index[h] in itemSets
  {
    index := map[];
    for n := 0 to |itemSets|
      invariant index.Keys == Fingerprints(itemSets[..n], fp)
      invariant forall h :: h in index ==>
                  exists i :: i < n && FirstWith(itemSets, fp, h, i) && index[h] == itemSets[i]
    {
      var itemSet := itemSets[n];
      var hashCode := fp(itemSet);
      assert itemSets[..n + 1] == itemSets[..n] + [itemSet];
      if hashCode !in index {
        forall j | 0 <= j < n
          ensures fp(itemSets[j]) != hashCode
        {
          assert itemSets[j] in itemSets[..n];
        }
        index := index[hashCode := itemSet];
      }
    }
    assert itemSets[..|itemSets|] == itemSets;
  }
}
