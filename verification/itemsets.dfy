/** The itemset value type that candidate generation works on, and the few
    operations of the itemset class it relies on: partial equality, the
    comparison used for sorting, removing one position and appending one item.
    Itemsets are immutable values here, so every `clone()` of the original is
    implicit. */
module ItemSets {

  /** An itemset: its item identifiers in the order the itemset holds them. */
  type ItemSet = seq<int>

  /** The itemset's hash code. Its definition is not part of this model, so it
      is a parameter: any function of the itemset's content. */
  type Fingerprint = ItemSet -> int

  function Last(s: ItemSet): int
    requires |s| > 0
  {
    s[|s| - 1]
  }

  /** Same length, and equal at every position except possibly the last. */
  predicate PartialEqual(a: ItemSet, b: ItemSet) {
    |a| == |b| && forall p :: 0 <= p < |a| - 1 ==> a[p] == b[p]
  }

  /** Every item is strictly smaller than every later one. */
  predicate Ascending(s: ItemSet) {
    forall p, q :: 0 <= p < q < |s| ==> s[p] < s[q]
  }

  /** A copy of `s` with the item at position `i` removed. */
  function Remove(s: ItemSet, i: nat): ItemSet
    requires i < |s|
  {
    s[..i] + s[i + 1..]
  }

  /** A copy of `a` with the last item of `b` appended. */
  function Extend(a: ItemSet, b: ItemSet): ItemSet
    requires |b| > 0
  {
    a + [Last(b)]
  }

  /** Removing position `i` keeps the other items in their relative order,
      and putting the removed item back at `i` restores the original. */
  lemma RemoveKeepsOrder(s: ItemSet, i: nat)
    requires i < |s|
    ensures |Remove(s, i)| == |s| - 1
    ensures forall p :: 0 <= p < i ==> Remove(s, i)[p] == s[p]
    ensures forall p :: i <= p < |s| - 1 ==> Remove(s, i)[p] == s[p + 1]
    ensures Remove(s, i)[..i] + [s[i]] + Remove(s, i)[i..] == s
  {
    var r := Remove(s, i);
    assert r[..i] == s[..i];
    assert r[i..] == s[i + 1..];
  }

  /** `r` holds the items of `s` except for one copy of the item at `i`. */
  predicate LacksOnly(s: ItemSet, i: nat, r: ItemSet)
    requires i < |s|
  {
    multiset(r) + multiset{s[i]} == multiset(s)
  }

  /** The removed item is the only one missing. */
  lemma RemoveMultiset(s: ItemSet, i: nat)
    requires i < |s|
    ensures LacksOnly(s, i, Remove(s, i))
  {
    assert s == s[..i] + [s[i]] + s[i + 1..];
  }

  /** Removing an item from an ascending itemset leaves it ascending. */
  lemma RemoveAscending(s: ItemSet, i: nat)
    requires i < |s|
    requires Ascending(s)
    ensures Ascending(Remove(s, i))
  {
    RemoveKeepsOrder(s, i);
  }

  /** Two different positions of an ascending itemset give different subsets. */
  lemma RemoveDistinct(s: ItemSet, i: nat, j: nat)
    requires i < j < |s|
    requires Ascending(s)
    ensures Remove(s, i) != Remove(s, j)
  {
    RemoveKeepsOrder(s, i);
    RemoveKeepsOrder(s, j);
    assert Remove(s, i)[i] == s[i + 1];
    assert Remove(s, j)[i] == s[i];
  }

  /** Appending a larger item to an ascending itemset keeps it ascending. */
  lemma ExtendAscending(a: ItemSet, b: ItemSet)
    requires |a| > 0 && |b| > 0
    requires Ascending(a)
    requires Last(a) < Last(b)
    ensures Ascending(Extend(a, b))
  {
    var c := Extend(a, b);
    forall p, q | 0 <= p < q < |c|
      ensures c[p] < c[q]
    {
      if q == |c| - 1 && p < |a| - 1 {
        assert c[p] == a[p] < a[|a| - 1];
      }
    }
  }

  /*
   * The itemset order used by the sort: lexicographic, a proper prefix
   * coming first. The itemset class's comparison is not part of this model;
   * this is the order it is taken to be.
   */

  predicate LexLe(a: ItemSet, b: ItemSet)
    decreases |a|
  {
    |a| == 0 || (|b| > 0 && (a[0] < b[0] || (a[0] == b[0] && LexLe(a[1..], b[1..]))))
  }

  lemma {:induction false} LexLeReflexive(a: ItemSet)
    ensures LexLe(a, a)
    decreases |a|
  {
    if |a| > 0 {
      LexLeReflexive(a[1..]);
    }
  }

  lemma {:induction false} LexLeTotal(a: ItemSet, b: ItemSet)
    ensures LexLe(a, b) || LexLe(b, a)
    decreases |a|
  {
    if |a| > 0 && |b| > 0 && a[0] == b[0] {
      LexLeTotal(a[1..], b[1..]);
    }
  }

  lemma {:induction false} LexLeAntisymmetric(a: ItemSet, b: ItemSet)
    requires LexLe(a, b) && LexLe(b, a)
    ensures a == b
    decreases |a|
  {
    if |a| > 0 {
      LexLeAntisymmetric(a[1..], b[1..]);
      assert a == [a[0]] + a[1..];
      assert b == [b[0]] + b[1..];
    }
  }

  lemma {:induction false} LexLeTransitive(a: ItemSet, b: ItemSet, c: ItemSet)
    requires LexLe(a, b) && LexLe(b, c)
    ensures LexLe(a, c)
    decreases |a|
  {
    if |a| > 0 && a[0] == b[0] && b[0] == c[0] {
      LexLeTransitive(a[1..], b[1..], c[1..]);
    }
  }

  /** An itemset ordered between two itemsets that share their first `n`
      items shares those items too. */
  lemma {:induction false} LexLeBetweenSharesPrefix(a: ItemSet, b: ItemSet, c: ItemSet, n: nat)
    requires LexLe(a, b) && LexLe(b, c)
    requires n <= |a| && n <= |c|
    requires forall p :: 0 <= p < n ==> a[p] == c[p]
    ensures n <= |b|
    ensures forall p :: 0 <= p < n ==> b[p] == a[p]
    decreases n
  {
    if n > 0 {
      assert a[0] == c[0];
      assert b[0] == a[0];
      forall p | 0 <= p < n - 1
        ensures a[1..][p] == c[1..][p]
      {
        assert a[1..][p] == a[p + 1] && c[1..][p] == c[p + 1];
      }
      LexLeBetweenSharesPrefix(a[1..], b[1..], c[1..], n - 1);
      forall p | 0 < p < n
        ensures b[p] == a[p]
      {
        assert b[p] == b[1..][p - 1] && a[p] == a[1..][p - 1];
      }
    }
  }

  /** For partial-equal itemsets the order is decided by the last items. */
  lemma {:induction false} LexLePartialEqual(a: ItemSet, b: ItemSet)
    requires |a| > 0
    requires PartialEqual(a, b)
    ensures LexLe(a, b) <==> Last(a) <= Last(b)
    decreases |a|
  {
    if |a| > 1 {
      assert a[0] == b[0];
      assert PartialEqual(a[1..], b[1..]);
      LexLePartialEqual(a[1..], b[1..]);
    }
  }
}
