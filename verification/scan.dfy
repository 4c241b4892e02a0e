/** The comment before the self-join says the scan for i should stop
    ("break") at the first itemset that is not partial-equal to the one at
    i; the code skips it and goes on. This module models the stopping scan
    and shows that the two agree on the lists the program is given: sorted,
    with every itemset of the same length. */
module StoppingScan {
  import opened ItemSets
  import opened Sorting
  import opened SelfJoin

  /** The positions i + 1 .. j - 1 all hold itemsets partial-equal to the
      one at i: a scan that stops at the first mismatch is still going at j. */
  predicate RowUnbroken(s: seq<ItemSet>, i: nat, j: nat)
    requires j <= |s|
    requires i < |s|
  {
    forall m :: i < m < j ==> PartialEqual(s[i], s[m])
  }

  /** The pairs (i, j') with j' < j that an inner loop stopping at the first
      mismatch accepts, in the order it visits them. */
  function BreakRowPairs(s: seq<ItemSet>, i: nat, j: nat): (r: seq<Pair>)
    requires i < j <= |s|
    ensures forall k :: 0 <= k < |r| ==> r[k].0 == i && r[k].1 < j && Joinable(s, r[k].0, r[k].1)
    decreases j
  {
    if j == i + 1 then []
    else BreakRowPairs(s, i, j - 1) + (if RowUnbroken(s, i, j) then [(i, j - 1)] else [])
  }

  /** The pairs accepted by the first `i` rounds of a double loop whose inner
      loop stops at the first mismatch. */
  function BreakPairsBefore(s: seq<ItemSet>, i: nat): (r: seq<Pair>)
    requires i <= |s|
    ensures forall k :: 0 <= k < |r| ==> r[k].0 < i && Joinable(s, r[k].0, r[k].1)
    decreases i
  {
    if i == 0 then []
    else BreakPairsBefore(s, i - 1) + BreakRowPairs(s, i - 1, |s|)
  }

  /** The inner loop as the comment describes it: stop at the first pair
      that is not partial-equal. */
  method JoinRowWithBreak(sorted: seq<ItemSet>, i: nat) returns (row: seq<ItemSet>)
    requires NonEmptyItemSets(sorted)
    requires i < |sorted|
    ensures row == Joins(sorted, BreakRowPairs(sorted, i, |sorted|))
  {
    row := [];
    var itemA := sorted[i];
    var j := i + 1;
    while j < |sorted|
      invariant i < j <= |sorted|
      invariant RowUnbroken(sorted, i, j)
      invariant row == Joins(sorted, BreakRowPairs(sorted, i, j))
      decreases |sorted| - j
    {
      var itemB := sorted[j];
      if !PartialEqual(itemA, itemB) {
        BrokenRowStaysBroken(sorted, i, j + 1, |sorted|);
        break;
      }
      var finalItem := Extend(itemA, itemB);
      JoinsAppend(sorted, BreakRowPairs(sorted, i, j), (i, j));
      row := row + [finalItem];
      j := j + 1;
    }
  }

  /** Once the scan has stopped, no later pair is accepted. */
  lemma {:induction false} BrokenRowStaysBroken(s: seq<ItemSet>, i: nat, j: nat, m: nat)
    requires i < j <= m <= |s|
    requires !RowUnbroken(s, i, j)
    ensures BreakRowPairs(s, i, m) == BreakRowPairs(s, i, j)
    decreases m
  {
    if m > j {
      BrokenRowStaysBroken(s, i, j, m - 1);
      assert !RowUnbroken(s, i, m);
    }
  }

  /** In a sorted list of itemsets of one length, the itemsets partial-equal
      to the one at i sit right after it: any itemset between i and a
      partial-equal partner is itself partial-equal to the one at i. */
  lemma PartialEqualContiguous(s: seq<ItemSet>, k: nat, i: nat, j: nat, m: nat)
    requires Sorted(s)
    requires forall x :: x in s ==> |x| == k
    requires i < j < m < |s|
    requires PartialEqual(s[i], s[m])
    ensures PartialEqual(s[i], s[j])
  {
    assert s[i] in s && s[j] in s && s[m] in s;
    assert LexLe(s[i], s[j]) && LexLe(s[j], s[m]);
    if k > 0 {
      LexLeBetweenSharesPrefix(s[i], s[j], s[m], k - 1);
    }
  }

  /** On a sorted list of one itemset length, stopping at the first mismatch
      accepts the same pairs as skipping it. */
  lemma {:induction false} BreakRowPairsMatch(s: seq<ItemSet>, k: nat, i: nat, j: nat)
    requires Sorted(s)
    requires forall x :: x in s ==> |x| == k
    requires i < j <= |s|
    ensures BreakRowPairs(s, i, j) == RowPairs(s, i, j)
    decreases j
  {
    if j > i + 1 {
      BreakRowPairsMatch(s, k, i, j - 1);
      if PartialEqual(s[i], s[j - 1]) {
        forall m | i < m < j
          ensures PartialEqual(s[i], s[m])
        {
          if m < j - 1 {
            PartialEqualContiguous(s, k, i, m, j - 1);
          }
        }
      }
    }
  }

  /** Rows that agree give outer loops that agree. */
  lemma {:induction false} BreakPairsFromRows(s: seq<ItemSet>, i: nat)
    requires i <= |s|
    requires forall r: nat :: r < i ==> BreakRowPairs(s, r, |s|) == RowPairs(s, r, |s|)
    ensures BreakPairsBefore(s, i) == PairsBefore(s, i)
    decreases i
  {
    if i > 0 {
      BreakPairsFromRows(s, i - 1);
    }
  }

  /** Hence on such a list the comment's "break" and the code's "continue"
      accept the same pairs, in the same order. */
  lemma BreakPairsMatch(s: seq<ItemSet>, k: nat)
    requires Sorted(s)
    requires forall x :: x in s ==> |x| == k
    ensures BreakPairsBefore(s, |s|) == JoinPairs(s)
  {
    forall r: nat | r < |s|
      ensures BreakRowPairs(s, r, |s|) == RowPairs(s, r, |s|)
    {
      BreakRowPairsMatch(s, k, r, |s|);
    }
    BreakPairsFromRows(s, |s|);
  }

  /** The pre-candidates of a sorted list of one itemset length are the
      same whether the inner loop stops at the first mismatch or skips it. */
  lemma BreakPreCandidatesMatch(s: seq<ItemSet>, k: nat)
    requires NonEmptyItemSets(s)
    requires Sorted(s)
    requires forall x :: x in s ==> |x| == k
    ensures Joins(s, BreakPairsBefore(s, |s|)) == PreCandidates(s)
  {
    BreakPairsMatch(s, k);
  }
}
