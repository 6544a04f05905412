/** The search for missing blocks: a batched SQL query over the indexed heights. */
module GapQuery {

  /** Both ends are part of the range. */
  datatype Range = Range(lo: int, hi: int)

  const BATCH_SIZE: nat := 25000

  // ---- The query of one batch ----

  /** MAX(height) below `n`. */
  function LowerIndexed(heights: set<nat>, n: nat): int {
    if n == 0 then -1
    else if n - 1 in heights then n - 1
    else LowerIndexed(heights, n - 1)
  }

  /** COALESCE(MAX(b0.height + 1), batch start) over the rows below `n`. */
  function GapStart(heights: set<nat>, start: nat, n: nat): int {
    var b0 := LowerIndexed(heights, n);
    if b0 < 0 then start else b0 + 1
  }

  /** The rows for b1 from `n` up to the batch end, which the query leaves out. */
  function QueryRows(heights: set<nat>, start: nat, end: nat, n: nat): seq<Range>
    requires n > 0
    decreases end - n
  {
    if n >= end then []
    else
      var rest := QueryRows(heights, start, end, n + 1);
      if n in heights && n - 1 !in heights
      then [Range(GapStart(heights, start, n), n - 1)] + rest
      else rest
  }

  // ---- What it means for a height to be reported ----

  predicate InRange(r: Range, h: int) {
    r.lo <= h <= r.hi
  }

  ghost predicate Reported(rows: seq<Range>, h: int) {
    exists i :: 0 <= i < |rows| && InRange(rows[i], h)
  }

  /** `n` is the lowest indexed height above `h`. */
  ghost predicate IsNext(heights: set<nat>, h: nat, n: nat) {
    n in heights && h < n && forall x | h < x < n :: x !in heights
  }

  ghost predicate SomeLower(heights: set<nat>, h: nat) {
    exists b :: b in heights && b < h
  }

  /** The gap in front of the indexed height `n`, as a batch starting at `start` sees it. */
  ghost predicate InGapBefore(heights: set<nat>, start: nat, n: nat, h: nat) {
    h !in heights && IsNext(heights, h, n) && (SomeLower(heights, h) || start <= h)
  }

  lemma {:induction false} LowerIndexedIsMax(heights: set<nat>, n: nat)
    ensures var m := LowerIndexed(heights, n);
            && -1 <= m < n
            && (m >= 0 ==> m in heights)
            && (forall x: nat | m < x < n :: x !in heights)
  {
    if n > 0 && n - 1 !in heights {
      LowerIndexedIsMax(heights, n - 1);
    }
  }

  lemma RowIsTheGap(heights: set<nat>, start: nat, n: nat, h: nat)
    requires 0 < start + 1 <= n && n in heights && n - 1 !in heights
    ensures InRange(Range(GapStart(heights, start, n), n - 1), h)
            <==> InGapBefore(heights, start, n, h)
  {
    LowerIndexedIsMax(heights, n);
  }

  /** Every height of the range is missing, and the range ends right below the next indexed one. */
  ghost predicate EndsItsGap(heights: set<nat>, r: Range) {
    forall h: nat | InRange(r, h) :: h !in heights && IsNext(heights, h, r.hi + 1)
  }

  /** Rows come in ascending order of the indexed height that ends their gap. */
  ghost predicate WellPlaced(heights: set<nat>, rows: seq<Range>, from: int, to: int) {
    && (forall i | 0 <= i < |rows| :: from <= rows[i].hi + 1 < to)
    && (forall i, j | 0 <= i < j < |rows| :: rows[i].hi < rows[j].hi)
    && (forall i | 0 <= i < |rows| :: EndsItsGap(heights, rows[i]))
  }

  lemma ReportedPrepend(r: Range, rows: seq<Range>, h: int)
    ensures Reported([r] + rows, h) <==> InRange(r, h) || Reported(rows, h)
  {
    var all := [r] + rows;
    if InRange(r, h) {
      assert InRange(all[0], h);
    }
    if Reported(rows, h) {
      var i :| 0 <= i < |rows| && InRange(rows[i], h);
      assert InRange(all[i + 1], h);
    }
  }

  lemma {:induction false} QueryRowsPlaced(heights: set<nat>, start: nat, end: nat, n: nat)
    requires start < n
    ensures WellPlaced(heights, QueryRows(heights, start, end, n), n, end)
    decreases end - n
  {
    if n < end {
      QueryRowsPlaced(heights, start, end, n + 1);
      var rest := QueryRows(heights, start, end, n + 1);
      if n in heights && n - 1 !in heights {
        var r := Range(GapStart(heights, start, n), n - 1);
        forall h: nat | InRange(r, h) ensures h !in heights && IsNext(heights, h, r.hi + 1) {
          RowIsTheGap(heights, start, n, h);
        }
        assert QueryRows(heights, start, end, n) == [r] + rest;
      }
    }
  }

  /** The rows of a batch report a height exactly when it lies in a gap that ends strictly
      inside the batch. */
  lemma {:induction false} QueryRowsReport(heights: set<nat>, start: nat, end: nat, n: nat, h: nat)
    requires start < n
    ensures Reported(QueryRows(heights, start, end, n), h)
            <==> exists m: nat :: n <= m < end && InGapBefore(heights, start, m, h)
    decreases end - n
  {
    if n < end {
      var rest := QueryRows(heights, start, end, n + 1);
      QueryRowsReport(heights, start, end, n + 1, h);
      assert (exists m: nat :: n <= m < end && InGapBefore(heights, start, m, h))
             <==> InGapBefore(heights, start, n, h)
                  || exists m: nat :: n + 1 <= m < end && InGapBefore(heights, start, m, h);
      if n in heights && n - 1 !in heights {
        RowIsTheGap(heights, start, n, h);
        ReportedPrepend(Range(GapStart(heights, start, n), n - 1), rest, h);
      } else if n > h + 1 {
        assert IsNext(heights, h, n) ==> n - 1 !in heights;
      }
    }
  }

  // ---- The batches ----

  function NumBatches(from: nat, to: nat): nat {
    if to <= from then 0 else (to - from + BATCH_SIZE - 1) / BATCH_SIZE
  }

  function BatchStart(from: nat, i: nat): nat {
    from + i * BATCH_SIZE
  }

  function BatchEnd(from: nat, to: nat, i: nat): nat {
    var end := BatchStart(from, i) + BATCH_SIZE;
    if end <= to then end else to
  }

  /** The exact criterion: the next indexed height lies strictly inside some batch, and either a
      lower height is indexed or the height is not below that batch. */
  ghost predicate InBatchGap(heights: set<nat>, from: nat, to: nat, i: nat, h: nat) {
    exists m: nat :: BatchStart(from, i) < m < BatchEnd(from, to, i)
                     && InGapBefore(heights, BatchStart(from, i), m, h)
  }

  ghost predicate ShouldReport(heights: set<nat>, from: nat, to: nat, batches: nat, h: nat) {
    exists i: nat :: i < batches && InBatchGap(heights, from, to, i, h)
  }

  function IndexedIn(heights: set<nat>, from: nat, to: nat): (r: set<nat>)
    ensures forall h :: h in r <==> h in heights && from <= h && h <= to
  {
    set h | h in heights && from <= h <= to
  }

  /** The batches cover the range but for the heights where two of them meet, and its two ends. */
  lemma BatchOf(from: nat, to: nat, m: nat, i: nat)
    ensures i < NumBatches(from, to) && BatchStart(from, i) < m < BatchEnd(from, to, i)
            <==> from < m < to && (m - from) % 25000 != 0 && i == (m - from) / 25000
  {
    if from < m < to && (m - from) % 25000 != 0 {
      var q := (m - from) / 25000;
      assert m - from == 25000 * q + (m - from) % 25000;
      assert q < NumBatches(from, to);
    }
  }

  lemma BatchesCoverRange(from: nat, to: nat, m: nat)
    requires from < m < to && (m - from) % 25000 != 0
    ensures exists i: nat :: i < NumBatches(from, to)
                             && BatchStart(from, i) < m < BatchEnd(from, to, i)
  {
    BatchOf(from, to, m, (m - from) / 25000);
  }

  /** A missing height whose next indexed height `m` lies inside the range, and not where two
      batches meet, and which is above an indexed height or not below the batch of `m`. */
  ghost predicate BelowIndexed(heights: set<nat>, from: nat, to: nat, h: nat, m: nat) {
    && h !in heights && m in heights && h < m && (forall x | h < x < m :: x !in heights)
    && from < m < to && (m - from) % 25000 != 0
    && ((exists b :: b in heights && b < h) || h >= from + (m - from) / 25000 * 25000)
  }

  /** The criterion, without the batches. */
  lemma ShouldReportIff(heights: set<nat>, from: nat, to: nat, h: nat)
    ensures ShouldReport(heights, from, to, NumBatches(from, to), h)
            <==> exists m: nat :: BelowIndexed(heights, from, to, h, m)
  {
    if i: nat :| i < NumBatches(from, to) && InBatchGap(heights, from, to, i, h) {
      var m: nat :| BatchStart(from, i) < m < BatchEnd(from, to, i)
                    && InGapBefore(heights, BatchStart(from, i), m, h);
      BatchOf(from, to, m, i);
      assert BelowIndexed(heights, from, to, h, m);
    }
    if m: nat :| BelowIndexed(heights, from, to, h, m) {
      var i := (m - from) / 25000;
      BatchOf(from, to, m, i);
      assert InGapBefore(heights, BatchStart(from, i), m, h);
      assert InBatchGap(heights, from, to, i, h);
    }
  }

  lemma AllShouldReportIff(heights: set<nat>, from: nat, to: nat)
    ensures forall h: nat :: ShouldReport(heights, from, to, NumBatches(from, to), h)
                             <==> exists m: nat :: BelowIndexed(heights, from, to, h, m)
  {
    forall h: nat
      ensures ShouldReport(heights, from, to, NumBatches(from, to), h)
              <==> exists m: nat :: BelowIndexed(heights, from, to, h, m)
    {
      ShouldReportIff(heights, from, to, h);
    }
  }

  lemma BatchesAscend(from: nat, to: nat, i: nat)
    ensures BatchStart(from, i + 1) == BatchStart(from, i) + BATCH_SIZE
    ensures BatchEnd(from, to, i) <= BatchStart(from, i + 1)
  {
  }

  lemma ReportedConcat(xs: seq<Range>, ys: seq<Range>, h: int)
    ensures Reported(xs + ys, h) <==> Reported(xs, h) || Reported(ys, h)
  {
    var all := xs + ys;
    if Reported(xs, h) {
      var i :| 0 <= i < |xs| && InRange(xs[i], h);
      assert InRange(all[i], h);
    }
    if Reported(ys, h) {
      var i :| 0 <= i < |ys| && InRange(ys[i], h);
      assert InRange(all[|xs| + i], h);
    }
  }

  lemma PlacedConcat(heights: set<nat>, xs: seq<Range>, ys: seq<Range>, from: int, mid: int,
                     mid': int, to: int)
    requires WellPlaced(heights, xs, from, mid) && WellPlaced(heights, ys, mid', to)
    requires from <= mid <= mid' <= to
    ensures WellPlaced(heights, xs + ys, from, to)
  {
  }

  lemma ShouldReportNext(heights: set<nat>, from: nat, to: nat, i: nat, h: nat)
    ensures ShouldReport(heights, from, to, i + 1, h)
            <==> ShouldReport(heights, from, to, i, h) || InBatchGap(heights, from, to, i, h)
  {
    if ShouldReport(heights, from, to, i + 1, h) {
      var j: nat :| j < i + 1 && InBatchGap(heights, from, to, j, h);
      assert j < i || j == i;
    }
  }

  function Interval(from: nat, n: nat): (r: set<nat>)
    ensures |r| == n && forall h :: h in r <==> from <= h < from + n
  {
    if n == 0 then {} else Interval(from, n - 1) + {from + n - 1}
  }

  lemma FullCountMeansAllIndexed(heights: set<nat>, from: nat, to: nat)
    requires from <= to && |IndexedIn(heights, from, to)| == to - from + 1
    ensures forall h | from <= h <= to :: h in heights
  {
    var all := Interval(from, to - from + 1);
    var some := IndexedIn(heights, from, to);
    var extra := all - some;
    assert all == some + extra && some !! extra;
    assert |extra| == 0;
    assert some == all;
    forall h | from <= h <= to ensures h in heights {
      assert h in all;
    }
  }

  lemma NothingToReportWhenFull(heights: set<nat>, from: nat, to: nat, batches: nat, h: nat)
    requires forall x | from <= x <= to :: x in heights
    ensures !ShouldReport(heights, from, to, batches, h)
  {
    forall i: nat, m: nat | i < batches && BatchStart(from, i) < m < BatchEnd(from, to, i)
      ensures !InGapBefore(heights, BatchStart(from, i), m, h)
    {
      assert m - 1 in heights;
    }
  }

  /** How far the ranges of the first `i` batches may reach. */
  function SearchedUpTo(from: nat, to: nat, i: nat): nat {
    if BatchStart(from, i) <= to then BatchStart(from, i) else to
  }

  lemma BatchReports(heights: set<nat>, from: nat, to: nat, i: nat, before: seq<Range>, h: nat)
    requires Reported(before, h) <==> ShouldReport(heights, from, to, i, h)
    ensures var start, end := BatchStart(from, i), BatchEnd(from, to, i);
            Reported(before + QueryRows(heights, start, end, start + 1), h)
            <==> ShouldReport(heights, from, to, i + 1, h)
  {
    hide QueryRows, Reported, ShouldReport, BatchStart, BatchEnd;
    var start, end := BatchStart(from, i), BatchEnd(from, to, i);
    ReportedConcat(before, QueryRows(heights, start, end, start + 1), h);
    QueryRowsReport(heights, start, end, start + 1, h);
    ShouldReportNext(heights, from, to, i, h);
  }

  lemma BatchIsPlaced(heights: set<nat>, from: nat, to: nat, i: nat, before: seq<Range>)
    requires i < NumBatches(from, to) && Proper(before)
    requires WellPlaced(heights, before, from, SearchedUpTo(from, to, i))
    ensures var start, end := BatchStart(from, i), BatchEnd(from, to, i);
            var ranges := before + QueryRows(heights, start, end, start + 1);
            Proper(ranges) && WellPlaced(heights, ranges, from, SearchedUpTo(from, to, i + 1))
  {
    hide QueryRows;
    var start, end := BatchStart(from, i), BatchEnd(from, to, i);
    var rows := QueryRows(heights, start, end, start + 1);
    QueryRowsPlaced(heights, start, end, start + 1);
    QueryRowsProper(heights, start, end, start + 1);
    BatchesAscend(from, to, i);
    PlacedConcat(heights, before, rows, from, start, start + 1, end);
  }

  lemma NothingSearched(heights: set<nat>, from: nat, to: nat)
    requires from <= to
    ensures WellPlaced(heights, [], from, SearchedUpTo(from, to, 0)) && Proper([])
    ensures forall h: nat :: !Reported([], h) && !ShouldReport(heights, from, to, 0, h)
    ensures SearchedUpTo(from, to, NumBatches(from, to)) == to
  {
  }

  /** The batch loop. */
  method SearchBatches(heights: set<nat>, from: nat, to: nat) returns (ranges: seq<Range>)
    requires from <= to
    ensures WellPlaced(heights, ranges, from, to) && Proper(ranges)
    ensures forall h: nat :: Reported(ranges, h)
                             <==> ShouldReport(heights, from, to, NumBatches(from, to), h)
  {
    hide Reported, ShouldReport, WellPlaced, Proper, QueryRows, SearchedUpTo;
    var batches := NumBatches(from, to);
    ranges := [];
    NothingSearched(heights, from, to);
    for i := 0 to batches
      invariant WellPlaced(heights, ranges, from, SearchedUpTo(from, to, i)) && Proper(ranges)
      invariant forall h: nat :: Reported(ranges, h) <==> ShouldReport(heights, from, to, i, h)
    {
      var start, end := BatchStart(from, i), BatchEnd(from, to, i);
      var rows := QueryRows(heights, start, end, start + 1);
      BatchIsPlaced(heights, from, to, i, ranges);
      forall h: nat ensures Reported(ranges + rows, h)
                            <==> ShouldReport(heights, from, to, i + 1, h)
      {
        BatchReports(heights, from, to, i, ranges, h);
      }
      ranges := ranges + rows;
    }
  }

  lemma NothingReportedWhenFull(heights: set<nat>, from: nat, to: nat)
    requires |IndexedIn(heights, from, to)| == to - from + 1 && from <= to
    ensures WellPlaced(heights, [], from, to) && Proper([])
    ensures forall h: nat :: !Reported([], h)
    ensures forall h: nat :: !ShouldReport(heights, from, to, NumBatches(from, to), h)
  {
    FullCountMeansAllIndexed(heights, from, to);
    forall h: nat ensures !ShouldReport(heights, from, to, NumBatches(from, to), h) {
      NothingToReportWhenFull(heights, from, to, NumBatches(from, to), h);
    }
  }

  /** The batched search. With fewer than three indexed heights in the range everything is
      reported; otherwise a height is reported exactly when it is missing, its next indexed
      height lies strictly inside a batch, and a lower height is indexed or the height is not
      below that batch. No height is reported by two ranges. */
  method FindMissingBlocksInRange(heights: set<nat>, from: nat, to: nat)
    returns (ranges: seq<Range>)
    ensures |IndexedIn(heights, from, to)| < 3 ==> ranges == [Range(from, to)]
    ensures |IndexedIn(heights, from, to)| >= 3 ==>
              && WellPlaced(heights, ranges, from, to) && Proper(ranges)
              && forall h: nat :: Reported(ranges, h)
                                  <==> ShouldReport(heights, from, to, NumBatches(from, to), h)
    // The same in terms of heights alone.
    ensures |IndexedIn(heights, from, to)| >= 3 ==>
              forall h: nat :: Reported(ranges, h)
                               <==> exists m: nat :: BelowIndexed(heights, from, to, h, m)
  {
    var count := |IndexedIn(heights, from, to)|;
    assert to < from ==> IndexedIn(heights, from, to) == {};
    if count < 3 {
      return [Range(from, to)];
    }
    AllShouldReportIff(heights, from, to);
    hide BelowIndexed, ShouldReport, WellPlaced, Proper, Reported;
    if count == to - from + 1 {
      NothingReportedWhenFull(heights, from, to);
      return [];
    }
    ranges := SearchBatches(heights, from, to);
  }

  /** No two ranges report the same height. */
  lemma RangesAreDisjoint(heights: set<nat>, ranges: seq<Range>, from: int, to: int, i: nat, j: nat,
                          h: nat)
    requires WellPlaced(heights, ranges, from, to) && i < j < |ranges|
    ensures !(InRange(ranges[i], h) && InRange(ranges[j], h))
  {
    assert EndsItsGap(heights, ranges[i]) && EndsItsGap(heights, ranges[j]);
    assert ranges[i].hi < ranges[j].hi;
    if InRange(ranges[i], h) {
      assert IsNext(heights, h, ranges[i].hi + 1);
    }
  }

  // ---- The list of missing heights ----

  /** `end` is not part of the result; an `end` of 0 makes `start` the end. */
  function RangeList(start: int, end: int): (r: seq<int>)
    requires if end == 0 then start >= 0 else start <= end
    ensures end != 0 ==> |r| == end - start && forall i | 0 <= i < |r| :: r[i] == start + i
    ensures end == 0 ==> |r| == start && forall i | 0 <= i < |r| :: r[i] == i
  {
    var (lo, hi) := if end == 0 then (0, start) else (start, end);
    seq(hi - lo, i => lo + i)
  }

  ghost predicate Distinct(hs: seq<int>) {
    forall i, j | 0 <= i < j < |hs| :: hs[i] != hs[j]
  }

  lemma DistinctConcat(xs: seq<int>, ys: seq<int>)
    requires Distinct(xs) && Distinct(ys) && forall y | y in ys :: y !in xs
    ensures Distinct(xs + ys)
  {
    var all := xs + ys;
    forall i, j | 0 <= i < j < |all| ensures all[i] != all[j] {
      if i < |xs| <= j {
        assert all[j] in ys && all[i] in xs;
      }
    }
  }

  ghost predicate Proper(ranges: seq<Range>) {
    forall i | 0 <= i < |ranges| :: 0 <= ranges[i].lo <= ranges[i].hi
  }

  lemma {:induction false} QueryRowsProper(heights: set<nat>, start: nat, end: nat, n: nat)
    requires start < n
    ensures Proper(QueryRows(heights, start, end, n))
    decreases end - n
  {
    if n < end {
      QueryRowsProper(heights, start, end, n + 1);
      LowerIndexedIsMax(heights, n);
    }
  }

  /** The heights of all ranges, one after the other. */
  method GetMissingBlocks(heights: set<nat>, from: nat, to: nat) returns (missing: seq<int>)
    requires from <= to + 1
    ensures |IndexedIn(heights, from, to)| < 3 ==> missing == RangeList(from, to + 1)
    ensures |IndexedIn(heights, from, to)| >= 3 ==>
              && Distinct(missing)
              && (forall h | h in missing :: h >= 0 && h !in heights)
              && forall h: nat :: h in missing
                                  <==> ShouldReport(heights, from, to, NumBatches(from, to), h)
    ensures |IndexedIn(heights, from, to)| >= 3 ==>
              forall h: nat :: h in missing
                               <==> exists m: nat :: BelowIndexed(heights, from, to, h, m)
  {
    AllShouldReportIff(heights, from, to);
    hide BelowIndexed;
    var ranges := FindMissingBlocksInRange(heights, from, to);
    missing := [];
    if |IndexedIn(heights, from, to)| < 3 {
      missing := RangeList(from, to + 1);
      return;
    }
    for i := 0 to |ranges|
      invariant forall h: int :: h in missing <==> Reported(ranges[..i], h)
      invariant Distinct(missing)
    {
      var r := ranges[i];
      var more := RangeList(r.lo, r.hi + 1);
      forall h: int ensures h in more <==> InRange(r, h) {
        if InRange(r, h) { assert more[h - r.lo] == h; }
      }
      forall h: int ensures Reported(ranges[..i + 1], h)
                            <==> Reported(ranges[..i], h) || InRange(r, h)
      {
        assert ranges[..i + 1] == ranges[..i] + [r];
        ReportedConcat(ranges[..i], [r], h);
        assert Reported([r], h) <==> InRange([r][0], h);
      }
      forall h: int | h in more ensures !Reported(ranges[..i], h) {
        forall j | 0 <= j < i ensures !InRange(ranges[j], h) {
          RangesAreDisjoint(heights, ranges, from, to, j, i, h);
        }
      }
      DistinctConcat(missing, more);
      missing := missing + more;
    }
    assert ranges[..|ranges|] == ranges;
    forall h | h in missing ensures h >= 0 && h !in heights {
      var i :| 0 <= i < |ranges| && InRange(ranges[i], h);
      assert EndsItsGap(heights, ranges[i]);
    }
  }
}
