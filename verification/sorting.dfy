/** The sort applied to the previous pass's itemsets before the self-join.
    The library sort is modelled by an insertion sort under the itemset order;
    `SortedPermutationUnique` shows that every sort under that order gives the
    same list, so the choice of algorithm does not matter. */
module Sorting {
  import opened ItemSets

  /** Every itemset is at most every later one. */
  predicate Sorted(s: seq<ItemSet>) {
    forall p, q :: 0 <= p < q < |s| ==> LexLe(s[p], s[q])
  }

  /** Inserts `x` into a sorted list before the first element it is at most. */
  function Insert(x: ItemSet, s: seq<ItemSet>): (r: seq<ItemSet>)
    requires Sorted(s)
    ensures Sorted(r)
    ensures multiset(r) == multiset(s) + multiset{x}
    decreases |s|
  {
    if |s| == 0 then [x]
    else if LexLe(x, s[0]) then
      LexLeInsertHead(x, s);
      [x] + s
    else
      LexLeTotal(x, s[0]);
      var t := Insert(x, s[1..]);
      SortedConsBound(s[0], s[1..], x, t);
      assert s == [s[0]] + s[1..];
      [s[0]] + t
  }

  /** Sorts a list of itemsets into ascending itemset order. */
  function Sort(s: seq<ItemSet>): (r: seq<ItemSet>)
    ensures Sorted(r)
    ensures multiset(r) == multiset(s)
    decreases |s|
  {
    if |s| == 0 then []
    else
      assert s == [s[0]] + s[1..];
      Insert(s[0], Sort(s[1..]))
  }

  lemma LexLeInsertHead(x: ItemSet, s: seq<ItemSet>)
    requires |s| > 0 && Sorted(s) && LexLe(x, s[0])
    ensures Sorted([x] + s)
  {
    forall q | 0 < q <= |s|
      ensures LexLe(x, ([x] + s)[q])
    {
      if q > 1 {
        LexLeTransitive(x, s[0], s[q - 1]);
      }
    }
  }

  /** `h` may be put in front of `t` when it is at most every element of `s`
      and `x`, and `t` holds exactly those. */
  lemma SortedConsBound(h: ItemSet, s: seq<ItemSet>, x: ItemSet, t: seq<ItemSet>)
    requires Sorted([h] + s) && LexLe(h, x)
    requires Sorted(t) && multiset(t) == multiset(s) + multiset{x}
    ensures Sorted([h] + t)
  {
    forall q | 0 <= q < |t|
      ensures LexLe(h, t[q])
    {
      assert t[q] in multiset(t);
      if t[q] != x {
        assert t[q] in multiset(s);
        var p :| 0 <= p < |s| && s[p] == t[q];
        assert ([h] + s)[0] == h && ([h] + s)[p + 1] == s[p];
      }
    }
  }

  /** Two sorted lists holding the same itemsets are the same list. */
  lemma {:induction false} SortedPermutationUnique(a: seq<ItemSet>, b: seq<ItemSet>)
    requires Sorted(a) && Sorted(b)
    requires multiset(a) == multiset(b)
    ensures a == b
    decreases |a|
  {
    if |a| == 0 {
      assert |b| == |multiset(b)| == 0;
    } else {
      assert |b| == |multiset(b)| == |multiset(a)| == |a|;
      assert a[0] in multiset(b);
      var k :| 0 <= k < |b| && b[k] == a[0];
      assert b[0] in multiset(a);
      var m :| 0 <= m < |a| && a[m] == b[0];
      if m > 0 { assert LexLe(a[0], a[m]); } else { LexLeReflexive(a[0]); }
      if k > 0 { assert LexLe(b[0], b[k]); } else { LexLeReflexive(b[0]); }
      LexLeAntisymmetric(a[0], b[0]);
      assert a == [a[0]] + a[1..];
      assert b == [b[0]] + b[1..];
      assert multiset(a) == multiset{a[0]} + multiset(a[1..]);
      assert multiset(b) == multiset{b[0]} + multiset(b[1..]);
      assert multiset(a[1..]) == multiset(a) - multiset{a[0]};
      assert multiset(b[1..]) == multiset(b) - multiset{b[0]};
      SortedTail(a);
      SortedTail(b);
      SortedPermutationUnique(a[1..], b[1..]);
    }
  }

  lemma SortedTail(s: seq<ItemSet>)
    requires |s| > 0 && Sorted(s)
    ensures Sorted(s[1..])
  {
    forall p, q | 0 <= p < q < |s| - 1
      ensures LexLe(s[1..][p], s[1..][q])
    {
      assert s[1..][p] == s[p + 1] && s[1..][q] == s[q + 1];
    }
  }

  /** Any sorted rearrangement of `s` is what `Sort` returns. */
  lemma SortIsTheSort(s: seq<ItemSet>, r: seq<ItemSet>)
    requires Sorted(r) && multiset(r) == multiset(s)
    ensures r == Sort(s)
  {
    SortedPermutationUnique(r, Sort(s));
  }

  /** A rearranged list holds the same itemsets. */
  lemma PermutationMembers(a: seq<ItemSet>, b: seq<ItemSet>)
    requires multiset(a) == multiset(b)
    ensures forall x :: x in a <==> x in b
  {
    forall x
      ensures x in a <==> x in b
    {
      assert x in a <==> x in multiset(a);
      assert x in b <==> x in multiset(b);
    }
  }

  /** No itemset occurs twice in the list. */
  predicate NoDuplicates(s: seq<ItemSet>) {
    forall p, q :: 0 <= p < q < |s| ==> s[p] != s[q]
  }

  /** A list without duplicates holds every itemset at most once, and back. */
  lemma {:induction false} NoDuplicatesCount(s: seq<ItemSet>)
    ensures NoDuplicates(s) <==> forall x :: multiset(s)[x] <= 1
    decreases |s|
  {
    if |s| > 0 {
      NoDuplicatesCount(s[1..]);
      assert s == [s[0]] + s[1..];
      assert multiset(s) == multiset{s[0]} + multiset(s[1..]);
      if NoDuplicates(s) {
        assert NoDuplicates(s[1..]) by {
          forall p, q | 0 <= p < q < |s| - 1
            ensures s[1..][p] != s[1..][q]
          {
            assert s[1..][p] == s[p + 1] && s[1..][q] == s[q + 1];
          }
        }
        assert s[0] !in s[1..];
      }
      if forall x :: multiset(s)[x] <= 1 {
        assert forall x :: multiset(s[1..])[x] <= 1 by {
          forall x ensures multiset(s[1..])[x] <= 1 {
            assert multiset(s)[x] <= 1;
          }
        }
        assert multiset(s)[s[0]] <= 1;
        forall p, q | 0 <= p < q < |s|
          ensures s[p] != s[q]
        {
          if p == 0 {
            assert s[q] == s[1..][q - 1];
            assert s[q] in multiset(s[1..]);
          } else {
            assert s[p] == s[1..][p - 1] && s[q] == s[1..][q - 1];
          }
        }
      }
    }
  }

  /** Rearranging a list does not introduce duplicates. */
  lemma NoDuplicatesPermutation(a: seq<ItemSet>, b: seq<ItemSet>)
    requires NoDuplicates(a)
    requires multiset(a) == multiset(b)
    ensures NoDuplicates(b)
  {
    NoDuplicatesCount(a);
    NoDuplicatesCount(b);
  }
}
