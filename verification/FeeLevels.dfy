/** Which transactions of a block decide its fee levels. */
module FeeLevels {
  import opened FeeWindow
  import opened FeeEstimator
  import Sorting

  // ---- Transactions in ascending order of priority ----

  /** Fee above the minimum, per byte. */
  ghost predicate AscendingTxs(txs: seq<Tx>) {
    && (forall i | 0 <= i < |txs| :: txs[i].size > 0)
    && forall i, j | 0 <= i < j < |txs| ::
         ((txs[i].fee - txs[i].minFee) as real) / (txs[i].size as real)
         <= ((txs[j].fee - txs[j].minFee) as real) / (txs[j].size as real)
  }

  function DetailOf(): Tx -> Detail {
    (tx: Tx) => Detail(if tx.size == 0 then 0.0 else Priority(tx), tx.size)
  }

  function PriorityKey(): Tx -> real {
    (tx: Tx) => if tx.size == 0 then 0.0 else Priority(tx)
  }

  /** The transactions in the order in which the levels look at them. */
  function Ascend(txs: seq<Tx>): seq<Tx> {
    Sorting.Sort(txs, PriorityKey())
  }

  lemma DetailsAreMapped(txs: seq<Tx>)
    requires ValidTxs(txs)
    ensures Details(txs) == Sorting.Map(txs, DetailOf())
  {
    forall i | 0 <= i < |txs| ensures Details(txs)[i] == DetailOf()(txs[i]) {
      assert txs[i] in txs;
    }
  }

  lemma SortedDetailsOfAscending(txs: seq<Tx>)
    requires AscendingTxs(txs)
    ensures ValidTxs(txs) && SortedDetails(txs) == Details(txs)
  {
    var ds := Details(txs);
    forall i, j | 0 <= i < j < |ds| ensures ByPriority()(ds[i]) <= ByPriority()(ds[j]) {
      assert ds[i].priority == Priority(txs[i]) && ds[j].priority == Priority(txs[j]);
    }
    Sorting.SortedStays(ds, ByPriority());
  }

  lemma {:induction false} SizeIsBytes(txs: seq<Tx>, k: nat)
    requires ValidTxs(txs) && k <= |txs|
    ensures Size(txs[..k]) == Bytes(Details(txs)[..k])
    decreases k
  {
    var ds := Details(txs);
    if k > 0 {
      SizeIsBytes(txs, k - 1);
      assert txs[..k][..k - 1] == txs[..k - 1] && ds[..k][..k - 1] == ds[..k - 1];
    }
  }

  lemma {:induction false} SizeOfInsert(tx: Tx, txs: seq<Tx>, key: Tx -> real)
    ensures Size(Sorting.Insert(tx, txs, key)) == Size(txs) + tx.size
  {
    var all := Sorting.Insert(tx, txs, key);
    if txs == [] || key(txs[|txs| - 1]) <= key(tx) {
      assert all[..|all| - 1] == txs;
    } else {
      var init := txs[..|txs| - 1];
      SizeOfInsert(tx, init, key);
      assert all[..|all| - 1] == Sorting.Insert(tx, init, key);
    }
  }

  lemma {:induction false} SizeOfSorted(txs: seq<Tx>, key: Tx -> real)
    ensures Size(Sorting.Sort(txs, key)) == Size(txs)
  {
    if txs != [] {
      SizeOfSorted(txs[..|txs| - 1], key);
      SizeOfInsert(txs[|txs| - 1], Sorting.Sort(txs[..|txs| - 1], key), key);
    }
  }

  /** A block has the levels of its transactions in ascending order. */
  lemma LevelsOfSorted(txs: seq<Tx>)
    requires ValidTxs(txs)
    ensures multiset(Ascend(txs)) == multiset(txs) && AscendingTxs(Ascend(txs))
    ensures ValidTxs(Ascend(txs)) && FeePerByte(txs) == FeePerByte(Ascend(txs))
  {
    hide *;
    DetailsOfSorted(txs);
    SortedSize(txs);
    SameLevels(txs, Ascend(txs));
  }

  lemma SortedSize(txs: seq<Tx>)
    ensures Size(Ascend(txs)) == Size(txs)
  {
    hide Size, Sorting.Sort;
    SizeOfSorted(txs, PriorityKey());
  }

  /** The levels are made from the sorted details and the size alone. */
  lemma SameLevels(a: seq<Tx>, b: seq<Tx>)
    requires ValidTxs(a) && ValidTxs(b) && SortedDetails(a) == SortedDetails(b)
    requires Size(a) == Size(b)
    ensures FeePerByte(a) == FeePerByte(b)
  {
    hide Average, SortedDetails, Size, ValidTxs;
    NonEmptyWhenSized(a);
    NonEmptyWhenSized(b);
  }

  lemma DetailsOfSorted(txs: seq<Tx>)
    requires ValidTxs(txs)
    ensures multiset(Ascend(txs)) == multiset(txs) && AscendingTxs(Ascend(txs))
    ensures ValidTxs(Ascend(txs)) && SortedDetails(txs) == SortedDetails(Ascend(txs))
  {
    var sorted := Ascend(txs);
    Sorting.SortIsSortedPermutation(txs, PriorityKey());
    forall i | 0 <= i < |sorted| ensures sorted[i].size > 0 {
      assert sorted[i] in multiset(sorted) && sorted[i] in txs;
    }
    forall i, j | 0 <= i < j < |sorted| ensures Priority(sorted[i]) <= Priority(sorted[j]) {
      assert PriorityKey()(sorted[i]) <= PriorityKey()(sorted[j]);
    }
    assert AscendingTxs(sorted);
    SortedDetailsOfAscending(sorted);
    DetailsAreMapped(txs);
    DetailsAreMapped(sorted);
    Sorting.SortMapped(txs, DetailOf(), ByPriority(), PriorityKey());
  }

  // ---- The windows, as shares of a block of 15 KiB ----

  function Percent(p: nat): nat {
    15 * 1024 * p / 100
  }

  /** The levels of a block in ascending order, with the windows in percent. */
  lemma LevelsInPercent(txs: seq<Tx>)
    requires AscendingTxs(txs)
    ensures ValidTxs(txs) && Percent(25) < Percent(75) && Percent(80) < Percent(100)
    ensures FeePerByte(txs).med == Average(Details(txs), Percent(25), Percent(75))
    ensures FeePerByte(txs).high
            == Max(Average(Details(txs), Percent(80), Percent(100)),
                   1.3 * FeePerByte(txs).med + 1.0)
  {
    SortedDetailsOfAscending(txs);
    hide Average, AscendingTxs, LowLevel;
  }

  /** In a list in ascending order, the transaction at `i` has a byte between these two shares, in
      percent. */
  ghost predicate Between(txs: seq<Tx>, i: nat, low: nat, high: nat)
    requires i < |txs|
  {
    && Size(txs[..i]) <= Percent(high)
    && Size(txs[..i]) + txs[i].size > Percent(low)
  }

  /** The first `k` transactions have the same sizes, those between the shares also pay the same,
      and the rest, if there is any, begins above. */
  ghost predicate AlikeBetween(a: seq<Tx>, b: seq<Tx>, k: nat, low: nat, high: nat) {
    && k <= |a| && k <= |b|
    && (forall i | 0 <= i < k ::
          && a[i].size == b[i].size
          && (Between(a, i, low, high) ==> a[i].fee - a[i].minFee == b[i].fee - b[i].minFee))
    && ((k == |a| && k == |b|) || Size(a[..k]) > Percent(high))
  }

  lemma SameDetails(a: seq<Tx>, b: seq<Tx>, i: nat, low: nat, high: nat)
    requires ValidTxs(a) && ValidTxs(b) && i < |a| && i < |b| && a[i].size == b[i].size
    requires Between(a, i, low, high) ==> a[i].fee - a[i].minFee == b[i].fee - b[i].minFee
    ensures Details(a)[i].size == Details(b)[i].size > 0
    ensures Reaches(Details(a), i, Percent(low), Percent(high)) ==>
      Details(a)[i].priority == Details(b)[i].priority
  {
    hide Size, Bytes, Percent;
    assert a[i] in a;
    SizeIsBytes(a, i);
  }

  lemma DetailsHaveBytes(txs: seq<Tx>)
    requires ValidTxs(txs)
    ensures forall i | 0 <= i < |txs| :: Details(txs)[i].size > 0
  {
    forall i | 0 <= i < |txs| ensures Details(txs)[i].size > 0 { assert txs[i] in txs; }
  }

  lemma AlikeAverages(a: seq<Tx>, b: seq<Tx>, k: nat, low: nat, high: nat)
    requires ValidTxs(a) && ValidTxs(b) && AlikeBetween(a, b, k, low, high)
    requires Percent(low) < Percent(high)
    ensures Average(Details(a), Percent(low), Percent(high))
            == Average(Details(b), Percent(low), Percent(high))
  {
    hide Size, Bytes, Average, Percent, ValidTxs, Between, Reaches;
    forall i | 0 <= i < k
      ensures Details(a)[i].size == Details(b)[i].size > 0
      ensures Reaches(Details(a), i, Percent(low), Percent(high)) ==>
        Details(a)[i].priority == Details(b)[i].priority
    {
      SameDetails(a, b, i, low, high);
    }
    SizeIsBytes(a, k);
    DetailsHaveBytes(a);
    DetailsHaveBytes(b);
    AverageSeesItsWindow(Details(a), Details(b), k, Percent(low), Percent(high));
  }

  lemma FreeDetail(txs: seq<Tx>, i: nat, low: nat, high: nat)
    requires ValidTxs(txs) && i < |txs|
    requires Between(txs, i, low, high) ==> txs[i].fee == txs[i].minFee
    ensures Reaches(Details(txs), i, Percent(low), Percent(high)) ==>
      Details(txs)[i].priority == 0.0
  {
    hide Size, Bytes, Percent;
    assert txs[i] in txs;
    SizeIsBytes(txs, i);
  }

  lemma FreeAverage(txs: seq<Tx>, low: nat, high: nat)
    requires ValidTxs(txs) && Percent(low) < Percent(high)
    requires forall i | 0 <= i < |txs| ::
      Between(txs, i, low, high) ==> txs[i].fee == txs[i].minFee
    ensures Average(Details(txs), Percent(low), Percent(high)) == 0.0
  {
    hide Size, Bytes, Average, Percent, ValidTxs, Between, Reaches;
    forall i | 0 <= i < |txs|
      ensures Reaches(Details(txs), i, Percent(low), Percent(high)) ==>
        Details(txs)[i].priority == 0.0
    {
      FreeDetail(txs, i, low, high);
    }
    DetailsHaveBytes(txs);
    ZeroAverage(Details(txs), Percent(low), Percent(high));
  }

  // ---- The levels ----

  /** The medium level of a block in ascending order is decided by the bytes between 25 and 75
      percent. */
  lemma MedSeesItsWindow(a: seq<Tx>, b: seq<Tx>, k: nat)
    requires AscendingTxs(a) && AscendingTxs(b) && AlikeBetween(a, b, k, 25, 75)
    ensures ValidTxs(a) && ValidTxs(b) && FeePerByte(a).med == FeePerByte(b).med
  {
    hide *;
    LevelsInPercent(a);
    LevelsInPercent(b);
    AlikeAverages(a, b, k, 25, 75);
  }

  lemma FreeMiddleIsFree(txs: seq<Tx>)
    requires AscendingTxs(txs)
    requires forall i | 0 <= i < |txs| ::
      Between(txs, i, 25, 75) ==> txs[i].fee == txs[i].minFee
    ensures ValidTxs(txs) && FeePerByte(txs).med == 0.0
  {
    hide *;
    LevelsInPercent(txs);
    FreeAverage(txs, 25, 75);
  }

  /** The high level by those between 80 and 100 percent, and the medium level. */
  lemma HighSeesItsWindow(a: seq<Tx>, b: seq<Tx>, k: nat)
    requires AscendingTxs(a) && AscendingTxs(b) && AlikeBetween(a, b, k, 80, 100)
    ensures ValidTxs(a) && ValidTxs(b)
    ensures FeePerByte(a).med == FeePerByte(b).med ==> FeePerByte(a).high == FeePerByte(b).high
  {
    hide *;
    LevelsInPercent(a);
    LevelsInPercent(b);
    AlikeAverages(a, b, k, 80, 100);
  }

  lemma FreeTopIsMargin(txs: seq<Tx>)
    requires AscendingTxs(txs)
    requires forall i | 0 <= i < |txs| ::
      Between(txs, i, 80, 100) ==> txs[i].fee == txs[i].minFee
    requires forall i | 0 <= i < |txs| :: txs[i].fee >= txs[i].minFee
    ensures ValidTxs(txs) && FeePerByte(txs).high == 1.3 * FeePerByte(txs).med + 1.0
  {
    hide *;
    LevelsInPercent(txs);
    FreeAverage(txs, 80, 100);
    MedIsNotNegative(txs);
    MaxOfNothing(1.3 * FeePerByte(txs).med + 1.0);
  }

  lemma MaxOfNothing(x: real)
    requires x >= 0.0
    ensures Max(0.0, x) == x
  {
  }

  lemma MedIsNotNegative(txs: seq<Tx>)
    requires AscendingTxs(txs) && ValidTxs(txs)
    requires forall i | 0 <= i < |txs| :: txs[i].fee >= txs[i].minFee
    ensures FeePerByte(txs).med >= 0.0
  {
    hide FeePerByte;
    if txs != [] {
      var top := txs[|txs| - 1];
      forall tx | tx in txs ensures tx.fee >= tx.minFee && Priority(tx) <= Priority(top) {
        var i :| 0 <= i < |txs| && txs[i] == tx;
      }
      assert top in txs;
      PriorityIsNonNegative(top);
      FeePerByteIsBounded(txs, Priority(top));
    } else {
      FeePerByteIsBounded(txs, 0.0);
    }
  }

  /** The low level: the priority of the first transaction in order if the block has at least 12.5
      KiB, and nothing below. */
  lemma LowLevelIsFirst(txs: seq<Tx>)
    requires AscendingTxs(txs) && ValidTxs(txs)
    ensures Size(txs) < 12800 ==> FeePerByte(txs).low == 0.0
    ensures Size(txs) >= 12800 ==> txs != []
    ensures Size(txs) >= 12800 ==>
      FeePerByte(txs).low == ((txs[0].fee - txs[0].minFee) as real) / (txs[0].size as real)
  {
    SortedDetailsOfAscending(txs);
    NonEmptyWhenSized(txs);
    hide Average;
  }

  // ---- A full block of three transactions ----

  /** Transactions of 5120 bytes that pay nothing, 100 and 200 per byte above the minimum. */
  function ThreeTxs(minFee: nat): seq<Tx> {
    [Tx(minFee, minFee, 5120), Tx(minFee + 512000, minFee, 5120),
     Tx(minFee + 1024000, minFee, 5120)]
  }

  const THREE := [Detail(0.0, 5120), Detail(100.0, 5120), Detail(200.0, 5120)]

  lemma ThreePriorities(minFee: nat)
    ensures var txs := ThreeTxs(minFee);
            Priority(txs[0]) == 0.0 && Priority(txs[1]) == 100.0 && Priority(txs[2]) == 200.0
  {
  }

  lemma ThreeSizes(minFee: nat)
    ensures Size(ThreeTxs(minFee)) == 15360
  {
    var txs := ThreeTxs(minFee);
    assert txs[..2][..1] == txs[..1] && txs[..1][..0] == [] && txs[..3] == txs;
    assert Size(txs[..1]) == 5120;
    assert Size(txs[..2]) == 10240;
  }

  lemma ThreeDetails(minFee: nat)
    ensures AscendingTxs(ThreeTxs(minFee)) && ValidTxs(ThreeTxs(minFee))
    ensures SortedDetails(ThreeTxs(minFee)) == THREE
  {
    var txs := ThreeTxs(minFee);
    ThreePriorities(minFee);
    hide Priority, Sorting.Sort;
    PrioritiesAscend(txs);
    SortedDetailsOfAscending(txs);
    assert Details(txs) == THREE;
  }

  lemma PrioritiesAscend(txs: seq<Tx>)
    requires forall i | 0 <= i < |txs| :: txs[i].size > 0
    requires forall i, j | 0 <= i < j < |txs| :: Priority(txs[i]) <= Priority(txs[j])
    ensures AscendingTxs(txs)
  {
    forall i, j | 0 <= i < j < |txs|
      ensures ((txs[i].fee - txs[i].minFee) as real) / (txs[i].size as real)
              <= ((txs[j].fee - txs[j].minFee) as real) / (txs[j].size as real)
    {
      assert Priority(txs[i]) <= Priority(txs[j]);
    }
  }

  lemma ThreeTotals()
    ensures Total(THREE, 3840, 11520) == 768200.0
    ensures Total(THREE, 12288, 15360) == 614600.0
  {
    var ds := THREE;
    assert ds[..3] == ds && ds[..0] == [];
    TotalOfOneMore(ds, 0, 3840, 11520);
    TotalOfOneMore(ds, 1, 3840, 11520);
    TotalOfOneMore(ds, 2, 3840, 11520);
    TotalOfOneMore(ds, 0, 12288, 15360);
    TotalOfOneMore(ds, 1, 12288, 15360);
    TotalOfOneMore(ds, 2, 12288, 15360);
  }

  /** Its exact levels: free, 768200 / 7681 (about 100), and 200. */
  lemma ThreeTxLevels(minFee: nat)
    ensures ValidTxs(ThreeTxs(minFee))
    ensures FeePerByte(ThreeTxs(minFee)) == Fees(0.0, 768200.0 / 7681.0, 200.0)
  {
    ThreeDetails(minFee);
    ThreeTotals();
    ThreeSizes(minFee);
    hide Total, Size, LowLevel, AscendingTxs, SortedDetails;
    LowLevelIsFirst(ThreeTxs(minFee));
  }
}
