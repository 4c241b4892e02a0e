/** The self-join: every pair of positions i < j of the sorted list whose
    itemsets are partial-equal contributes the itemset at i extended by the
    last item of the itemset at j. A pair that is not partial-equal is
    skipped and the scan goes on with the next j. */
module SelfJoin {
  import opened ItemSets

  /** A pair of positions (i, j) of the sorted list. */
  type Pair = (nat, nat)

  /** The double loop accepts the pair (i, j). */
  predicate Joinable(s: seq<ItemSet>, i: nat, j: nat) {
    i < j < |s| && PartialEqual(s[i], s[j])
  }

  /** The order in which the double loop visits pairs. */
  predicate PairBefore(p: Pair, q: Pair) {
    p.0 < q.0 || (p.0 == q.0 && p.1 < q.1)
  }

  predicate NonEmptyItemSets(s: seq<ItemSet>) {
    forall x :: x in s ==> |x| > 0
  }

  /** The pairs (i, j') with j' < j that the inner loop for `i` accepts, in
      the order it visits them. */
  function RowPairs(s: seq<ItemSet>, i: nat, j: nat): (r: seq<Pair>)
    requires i < j <= |s|
    ensures forall k :: 0 <= k < |r| ==> r[k].0 == i && r[k].1 < j && Joinable(s, r[k].0, r[k].1)
    ensures forall a, b :: 0 <= a < b < |r| ==> PairBefore(r[a], r[b])
    decreases j
  {
    if j == i + 1 then []
    else RowPairs(s, i, j - 1) + (if PartialEqual(s[i], s[j - 1]) then [(i, j - 1)] else [])
  }

  /** The pairs accepted by the first `i` rounds of the outer loop, in the
      order they are visited. */
  function PairsBefore(s: seq<ItemSet>, i: nat): (r: seq<Pair>)
    requires i <= |s|
    ensures forall k :: 0 <= k < |r| ==> r[k].0 < i && Joinable(s, r[k].0, r[k].1)
    ensures forall a, b :: 0 <= a < b < |r| ==> PairBefore(r[a], r[b])
    decreases i
  {
    if i == 0 then []
    else PairsBefore(s, i - 1) + RowPairs(s, i - 1, |s|)
  }

  /** All pairs the self-join accepts, in loop order. */
  function JoinPairs(s: seq<ItemSet>): seq<Pair> {
    PairsBefore(s, |s|)
  }

  /** The joins of the given pairs, in the order of the pairs. */
  function Joins(s: seq<ItemSet>, P: seq<Pair>): seq<ItemSet>
    requires NonEmptyItemSets(s)
    requires forall k :: 0 <= k < |P| ==> P[k].0 < |s| && P[k].1 < |s|
  {
    seq(|P|, k requires 0 <= k < |P| => Extend(s[P[k].0], s[P[k].1]))
  }

  /** The pre-candidates: one per accepted pair, in loop order. */
  function PreCandidates(s: seq<ItemSet>): seq<ItemSet>
    requires NonEmptyItemSets(s)
  {
    Joins(s, JoinPairs(s))
  }

  /** The double loop over the sorted list. */
  method GetPreCandidates(sorted: seq<ItemSet>) returns (pre: seq<ItemSet>)
    requires NonEmptyItemSets(sorted)
    ensures pre == PreCandidates(sorted)
  {
    pre := [];
    for i := 0 to |sorted|
      invariant pre == Joins(sorted, PairsBefore(sorted, i))
    {
      var row := JoinRow(sorted, i);
      JoinsConcat(sorted, PairsBefore(sorted, i), RowPairs(sorted, i, |sorted|));
      pre := pre + row;
    }
  }

  /** The inner loop for the itemset at `i`: a pair that is not partial-equal
      is skipped and the scan continues with the next j. */
  method JoinRow(sorted: seq<ItemSet>, i: nat) returns (row: seq<ItemSet>)
    requires NonEmptyItemSets(sorted)
    requires i < |sorted|
    ensures row == Joins(sorted, RowPairs(sorted, i, |sorted|))
  {
    row := [];
    var itemA := sorted[i];
    for j := i + 1 to |sorted|
      invariant row == Joins(sorted, RowPairs(sorted, i, j))
    {
      var itemB := sorted[j];
      if !PartialEqual(itemA, itemB) {
        continue;
      }
      var finalItem := Extend(itemA, itemB);
      JoinsAppend(sorted, RowPairs(sorted, i, j), (i, j));
      row := row + [finalItem];
    }
  }

  lemma JoinsAppend(s: seq<ItemSet>, P: seq<Pair>, p: Pair)
    requires NonEmptyItemSets(s)
    requires forall k :: 0 <= k < |P| ==> P[k].0 < |s| && P[k].1 < |s|
    requires p.0 < |s| && p.1 < |s|
    ensures Joins(s, P + [p]) == Joins(s, P) + [Extend(s[p.0], s[p.1])]
  {
  }

  lemma JoinsConcat(s: seq<ItemSet>, P: seq<Pair>, Q: seq<Pair>)
    requires NonEmptyItemSets(s)
    requires forall k :: 0 <= k < |P| ==> P[k].0 < |s| && P[k].1 < |s|
    requires forall k :: 0 <= k < |Q| ==> Q[k].0 < |s| && Q[k].1 < |s|
    ensures Joins(s, P + Q) == Joins(s, P) + Joins(s, Q)
  {
  }

  lemma {:induction false} RowPairsComplete(s: seq<ItemSet>, i: nat, j: nat, m: nat)
    requires i < j <= |s|
    requires i < m < j && PartialEqual(s[i], s[m])
    ensures (i, m) in RowPairs(s, i, j)
    decreases j
  {
    if m < j - 1 {
      RowPairsComplete(s, i, j - 1, m);
    }
  }

  lemma {:induction false} PairsBeforeComplete(s: seq<ItemSet>, i: nat, a: nat, b: nat)
    requires i <= |s|
    requires a < i && Joinable(s, a, b)
    ensures (a, b) in PairsBefore(s, i)
    decreases i
  {
    var earlier, row := PairsBefore(s, i - 1), RowPairs(s, i - 1, |s|);
    assert PairsBefore(s, i) == earlier + row;
    if a < i - 1 {
      PairsBeforeComplete(s, i - 1, a, b);
      assert (a, b) in earlier;
    } else {
      RowPairsComplete(s, a, |s|, b);
      assert (a, b) in row;
    }
  }

  /** Exactly the partial-equal pairs i < j are joined, each once, in the
      order of the double loop. */
  lemma JoinPairsExact(s: seq<ItemSet>)
    ensures forall k :: 0 <= k < |JoinPairs(s)| ==>
              Joinable(s, JoinPairs(s)[k].0, JoinPairs(s)[k].1)
    ensures forall i: nat, j: nat :: Joinable(s, i, j) ==> (i, j) in JoinPairs(s)
    ensures forall a, b :: 0 <= a < b < |JoinPairs(s)| ==> PairBefore(JoinPairs(s)[a], JoinPairs(s)[b])
  {
    forall i: nat, j: nat | Joinable(s, i, j)
      ensures (i, j) in JoinPairs(s)
    {
      PairsBeforeComplete(s, |s|, i, j);
    }
  }

  /** The pre-candidates are exactly the joins of partial-equal pairs i < j. */
  lemma PreCandidatesMembership(s: seq<ItemSet>, c: ItemSet)
    requires NonEmptyItemSets(s)
    ensures c in PreCandidates(s) <==>
            exists i: nat, j: nat :: Joinable(s, i, j) && c == Extend(s[i], s[j])
  {
    var P := JoinPairs(s);
    var pre := PreCandidates(s);
    JoinPairsExact(s);
    if c in pre {
      var k :| 0 <= k < |pre| && pre[k] == c;
      assert Joinable(s, P[k].0, P[k].1);
    }
    if exists i: nat, j: nat :: Joinable(s, i, j) && c == Extend(s[i], s[j]) {
      var i: nat, j: nat :| Joinable(s, i, j) && c == Extend(s[i], s[j]);
      assert (i, j) in P;
      var k :| 0 <= k < |P| && P[k] == (i, j);
      assert pre[k] == c;
    }
  }

  /** A list with fewer than two itemsets has no pair to join. */
  lemma PreCandidatesOfShortList(s: seq<ItemSet>)
    requires NonEmptyItemSets(s)
    requires |s| <= 1
    ensures PreCandidates(s) == []
  {
    JoinPairsExact(s);
  }
}
