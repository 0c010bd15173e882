/** Holder concentration (packages/core/src/holders.ts): computed from all recipients, or rebuilt
    from the stored top ten. Percentages come from a rounding function of a quantity and the total
    that is left abstract. */
module Holders {
  import opened StableSort
  import opened Text

  const TOP_N := 10

  datatype RecipientQuantity = RecipientQuantity(recipient: JsString, quantity: int)

  datatype HolderShare<P> = HolderShare(recipient: JsString, quantity: int, sharePct: P)

  datatype HolderConcentration<P> = HolderConcentration(
    totalMinted: int, uniqueHolders: nat, topHolders: seq<HolderShare<P>>, top5SharePct: P, top10SharePct: P)

  function Sum(rows: seq<RecipientQuantity>): int {
    if rows == [] then 0 else rows[0].quantity + Sum(rows[1..])
  }

  function Take<T>(xs: seq<T>, n: nat): seq<T> {
    if |xs| <= n then xs else xs[..n]
  }

  function Shares<P>(rows: seq<RecipientQuantity>, total: int, pct: (int, int) -> P): seq<HolderShare<P>> {
    if rows == [] then []
    else
      [HolderShare(rows[0].recipient, rows[0].quantity, pct(rows[0].quantity, total))] + Shares(rows[1..], total, pct)
  }

  function BuildConcentration<P>(totalMinted: int, uniqueHolders: nat, topN: seq<RecipientQuantity>,
                                 pct: (int, int) -> P): HolderConcentration<P> {
    HolderConcentration(totalMinted, uniqueHolders, Shares(Take(topN, TOP_N), totalMinted, pct),
                        pct(Sum(Take(topN, 5)), totalMinted), pct(Sum(Take(topN, TOP_N)), totalMinted))
  }

  function Descending(r: RecipientQuantity): int { -r.quantity }

  function ComputeHolderConcentration<P>(rows: seq<RecipientQuantity>, pct: (int, int) -> P): HolderConcentration<P> {
    BuildConcentration(Sum(rows), |rows|, SortBy(rows, Descending), pct)
  }

  /** What the repository keeps: the true totals and the top rows without their percentages. */
  datatype Snapshot = Snapshot(totalMinted: int, uniqueHolders: nat, topHolders: seq<RecipientQuantity>)

  function DeriveHolderConcentration<P>(s: Snapshot, pct: (int, int) -> P): HolderConcentration<P> {
    BuildConcentration(s.totalMinted, s.uniqueHolders, s.topHolders, pct)
  }

  function Rows<P>(shares: seq<HolderShare<P>>): seq<RecipientQuantity> {
    if shares == [] then [] else [RecipientQuantity(shares[0].recipient, shares[0].quantity)] + Rows(shares[1..])
  }

  function Stored<P>(c: HolderConcentration<P>): Snapshot {
    Snapshot(c.totalMinted, c.uniqueHolders, Rows(c.topHolders))
  }

  /** A total is the quantities added up, however the rows are grouped. */
  lemma {:induction false} TotalsAddUp(a: seq<RecipientQuantity>, b: seq<RecipientQuantity>)
    ensures Sum(a + b) == Sum(a) + Sum(b)
    ensures |a| == 1 ==> Sum(a) == a[0].quantity
  {
    if a == [] {
      assert a + b == b;
    } else {
      TotalsAddUp(a[1..], b);
      assert (a + b)[1..] == a[1..] + b;
    }
  }

  lemma {:induction false} RowsOfShares<P>(rows: seq<RecipientQuantity>, total: int, pct: (int, int) -> P)
    ensures Rows(Shares(rows, total, pct)) == rows
  {
    if rows != [] {
      RowsOfShares(rows[1..], total, pct);
    }
  }

  /** Storing ten rows loses nothing: the concentration rebuilt from the snapshot is the one computed
      from all recipients, however the percentages are rounded. */
  lemma RebuiltFromTopTen<P>(rows: seq<RecipientQuantity>, pct: (int, int) -> P)
    ensures var computed := ComputeHolderConcentration(rows, pct);
            DeriveHolderConcentration(Stored(computed), pct) == computed
  {
    var sorted := SortBy(rows, Descending);
    var top := Take(sorted, TOP_N);
    RowsOfShares(top, Sum(rows), pct);
    assert Take(top, TOP_N) == top;
    assert Take(top, 5) == Take(sorted, 5);
  }

  /** What the concentration says: the true totals, the first rows in descending order with their own
      shares of the total, and the shares of the first five and of all of them together. */
  lemma FieldsDescribeTheTopTen<P>(rows: seq<RecipientQuantity>, pct: (int, int) -> P)
    ensures var c := ComputeHolderConcentration(rows, pct);
            var top := Rows(c.topHolders);
            && c.totalMinted == Sum(rows) && c.uniqueHolders == |rows|
            && |top| == |c.topHolders| == (if |rows| <= 10 then |rows| else 10)
            && (forall i, j :: 0 <= i < j < |top| ==> top[i].quantity >= top[j].quantity)
            && (forall i :: 0 <= i < |top| ==>
                  top[i].recipient == c.topHolders[i].recipient &&
                  c.topHolders[i].sharePct == pct(top[i].quantity, c.totalMinted))
            && c.top10SharePct == pct(Sum(top), c.totalMinted)
            && c.top5SharePct == pct(Sum(if |top| <= 5 then top else top[..5]), c.totalMinted)
  {
    var sorted := SortBy(rows, Descending);
    SortBySorts(rows, Descending);
    var top := Take(sorted, TOP_N);
    RowsOfShares(top, Sum(rows), pct);
    SharesAt(top, Sum(rows), pct);
    assert Take(top, 5) == Take(sorted, 5);
    forall i, j | 0 <= i < j < |top|
      ensures top[i].quantity >= top[j].quantity
    {
      assert Descending(sorted[i]) <= Descending(sorted[j]);
    }
  }

  lemma {:induction false} SharesAt<P>(rows: seq<RecipientQuantity>, total: int, pct: (int, int) -> P)
    ensures var shares := Shares(rows, total, pct);
            |shares| == |rows| && forall i :: 0 <= i < |rows| ==>
              shares[i] == HolderShare(rows[i].recipient, rows[i].quantity, pct(rows[i].quantity, total))
  {
    if rows != [] {
      SharesAt(rows[1..], total, pct);
    }
  }

  // ----- The ten are the best ten -----

  lemma {:induction false} SumWithout(rows: seq<RecipientQuantity>, i: nat)
    requires i < |rows|
    ensures Sum(rows) == rows[i].quantity + Sum(rows[..i] + rows[i + 1..])
  {
    if i == 0 {
      assert rows[..0] + rows[1..] == rows[1..];
    } else {
      SumWithout(rows[1..], i - 1);
      assert (rows[..i] + rows[i + 1..])[1..] == rows[1..][..i - 1] + rows[1..][i..];
    }
  }

  lemma {:induction false} SumOfTail(rows: seq<RecipientQuantity>, k: nat)
    requires 0 < k <= |rows|
    ensures Sum(rows[..k]) == rows[0].quantity + Sum(rows[1..][..k - 1])
  {
    assert rows[..k][1..] == rows[1..][..k - 1];
  }

  /** Of a list in descending order, no choice of k rows sums to more than the first k. */
  lemma {:induction false} PrefixIsBest(sorted: seq<RecipientQuantity>, pick: seq<RecipientQuantity>)
    requires Ascending(sorted, Descending) && multiset(pick) <= multiset(sorted) && |pick| <= |sorted|
    ensures Sum(pick) <= Sum(sorted[..|pick|])
    decreases |sorted|
  {
    hide Sum, Ascending;
    if pick == [] {
      assert sorted[..0] == pick;
    } else {
      var i: nat := 0;
      if sorted[0] in pick {
        i :| i < |pick| && pick[i] == sorted[0];
      }
      var rest := pick[..i] + pick[i + 1..];
      RemovedOne(pick, i);
      RestIsFromTail(sorted, pick, rest, i);
      SumWithout(pick, i);
      AscendingTail(sorted);
      PrefixIsBest(sorted[1..], rest);
      SumOfTail(sorted, |pick|);
      HeadIsLargest(sorted, pick[i]);
    }
  }

  lemma RemovedOne(pick: seq<RecipientQuantity>, i: nat)
    requires i < |pick|
    ensures multiset(pick) == multiset(pick[..i] + pick[i + 1..]) + multiset{pick[i]}
  {
    assert pick == pick[..i] + [pick[i]] + pick[i + 1..];
  }

  lemma AscendingTail(sorted: seq<RecipientQuantity>)
    requires Ascending(sorted, Descending) && sorted != []
    ensures Ascending(sorted[1..], Descending)
  {
  }

  lemma HeadIsLargest(sorted: seq<RecipientQuantity>, r: RecipientQuantity)
    requires Ascending(sorted, Descending) && r in sorted
    ensures r.quantity <= sorted[0].quantity
  {
  }

  lemma RestIsFromTail(sorted: seq<RecipientQuantity>, pick: seq<RecipientQuantity>, rest: seq<RecipientQuantity>,
                       i: nat)
    requires sorted != [] && i < |pick| && multiset(pick) <= multiset(sorted)
    requires multiset(pick) == multiset(rest) + multiset{pick[i]}
    requires sorted[0] in pick ==> pick[i] == sorted[0]
    ensures multiset(rest) <= multiset(sorted[1..]) && pick[i] in sorted
  {
    assert sorted == [sorted[0]] + sorted[1..];
    assert pick[i] in multiset(pick);
    forall r
      ensures multiset(rest)[r] <= multiset(sorted[1..])[r]
    {
      if r == sorted[0] && sorted[0] !in pick {
        assert r !in multiset(pick);
      }
    }
  }

  /** The holders shown are recipients, and a maximum-sum choice among all of them: no other ten (or
      all, if fewer) hold more. */
  lemma TopTenIsAMaximumChoice<P>(rows: seq<RecipientQuantity>, pct: (int, int) -> P, pick: seq<RecipientQuantity>)
    requires multiset(pick) <= multiset(rows)
    requires |pick| == if |rows| <= 10 then |rows| else 10
    ensures var top := Rows(ComputeHolderConcentration(rows, pct).topHolders);
            multiset(top) <= multiset(rows) && |top| == |pick| && Sum(pick) <= Sum(top)
  {
    var sorted := SortBy(rows, Descending);
    SortBySorts(rows, Descending);
    PrefixIsBest(sorted, pick);
    RowsOfShares(Take(sorted, TOP_N), Sum(rows), pct);
    assert Take(sorted, TOP_N) == sorted[..|pick|];
    assert sorted == sorted[..|pick|] + sorted[|pick|..];
  }
}
