/** The coordinator's periodic search for missing blocks and the jobs it schedules. */
module Scheduler {
  import opened Blocks
  import opened BlockIndex
  import opened IndexRuns
  import opened Convergence
  import opened GapQuery
  import Sorting

  const MAX_QUERY_RANGE: nat := 10000
  const MAX_BATCH_SIZE: nat := 15000
  const MAX_TAIL: nat := 100

  // ---- Scheduling a list of heights ----

  function HeightKey(): int -> real {
    (h: int) => h as real
  }

  ghost function Concat(batches: seq<seq<int>>): seq<int> {
    if batches == [] then [] else Concat(batches[..|batches| - 1]) + batches[|batches| - 1]
  }

  lemma ConcatPush(batches: seq<seq<int>>, batch: seq<int>)
    ensures Concat(batches + [batch]) == Concat(batches) + batch
  {
    assert (batches + [batch])[..|batches|] == batches;
  }

  /** Adding the jobs of one batch, one at a time. */
  method AddJobs(queue: seq<int>, batch: seq<int>) returns (r: seq<int>)
    ensures r == queue + batch
  {
    r := queue;
    for k := 0 to |batch|
      invariant r == queue + batch[..k]
    {
      r := r + [batch[k]];
    }
  }

  /** Where the batch `i` of a list of this length starts. */
  function SliceStart(length: nat, i: nat): (lo: nat)
    ensures lo <= length
  {
    if i * MAX_BATCH_SIZE <= length then i * MAX_BATCH_SIZE else length
  }

  function BatchCount(length: nat): nat {
    (length + MAX_BATCH_SIZE - 1) / MAX_BATCH_SIZE
  }

  lemma SliceSizes(length: nat, i: nat)
    requires i < BatchCount(length)
    ensures 0 < SliceStart(length, i + 1) - SliceStart(length, i) <= MAX_BATCH_SIZE
  {
  }

  lemma SlicesEnd(length: nat)
    ensures SliceStart(length, 0) == 0 && SliceStart(length, BatchCount(length)) == length
  {
  }

  /** Cutting a list into batches and adding them one after the other. */
  method AddInBatches(sorted: seq<int>) returns (queue: seq<int>, batches: seq<seq<int>>)
    ensures queue == sorted && Concat(batches) == queue
    ensures forall i | 0 <= i < |batches| :: 0 < |batches[i]| <= MAX_BATCH_SIZE
  {
    hide SliceStart, BatchCount, Concat;
    SlicesEnd(|sorted|);
    ConcatNone();
    queue, batches := [], [];
    for i := 0 to BatchCount(|sorted|)
      invariant queue == sorted[..SliceStart(|sorted|, i)]
      invariant Concat(batches) == queue
      invariant forall k | 0 <= k < |batches| :: 0 < |batches[k]| <= MAX_BATCH_SIZE
    {
      var lo, hi := SliceStart(|sorted|, i), SliceStart(|sorted|, i + 1);
      SliceSizes(|sorted|, i);
      var batch := sorted[lo..hi];
      queue := AddJobs(queue, batch);
      assert sorted[..lo] + sorted[lo..hi] == sorted[..hi];
      ConcatPush(batches, batch);
      batches := batches + [batch];
    }
  }

  lemma ConcatNone()
    ensures Concat([]) == []
  {
  }

  lemma SortedHeightsAscend(heights: seq<int>)
    ensures var sorted := Sorting.Sort(heights, HeightKey());
            && multiset(sorted) == multiset(heights)
            && forall i, j | 0 <= i < j < |sorted| :: sorted[i] <= sorted[j]
  {
    var sorted := Sorting.Sort(heights, HeightKey());
    Sorting.SortIsSortedPermutation(heights, HeightKey());
    forall i, j | 0 <= i < j < |sorted| ensures sorted[i] <= sorted[j] {
      assert HeightKey()(sorted[i]) <= HeightKey()(sorted[j]);
    }
  }

  /** The jobs are the given heights, each as often as given, in ascending order, added in batches
      of at most 15000. */
  method ScheduleBlocksIndexing(heights: seq<int>) returns (queue: seq<int>, batches: seq<seq<int>>)
    ensures multiset(queue) == multiset(heights)
    ensures forall i, j | 0 <= i < j < |queue| :: queue[i] <= queue[j]
    ensures Concat(batches) == queue
    ensures forall i | 0 <= i < |batches| :: 0 < |batches[i]| <= MAX_BATCH_SIZE
  {
    hide Concat, HeightKey;
    var sorted := Sorting.Sort(heights, HeightKey());
    SortedHeightsAscend(heights);
    queue, batches := AddInBatches(sorted);
  }

  // ---- The query batches ----

  function NumQueries(low: nat, high: nat): nat {
    if high <= low then 0 else (high - low + MAX_QUERY_RANGE - 1) / MAX_QUERY_RANGE
  }

  function QueryStart(low: nat, i: nat): nat {
    low + i * MAX_QUERY_RANGE
  }

  function QueryEnd(low: nat, high: nat, i: nat): nat {
    var end := QueryStart(low, i) + MAX_QUERY_RANGE;
    if end <= high then end else high
  }

  /** The batches cover the range, and neighbours share exactly one height. */
  lemma QueriesCover(low: nat, high: nat, h: nat)
    requires low < high && low <= h <= high
    ensures exists i: nat :: i < NumQueries(low, high)
                             && QueryStart(low, i) <= h <= QueryEnd(low, high, i)
    ensures forall i: nat | i + 1 < NumQueries(low, high) ::
              (QueryStart(low, i) <= h <= QueryEnd(low, high, i)
               && QueryStart(low, i + 1) <= h <= QueryEnd(low, high, i + 1))
              <==> h == QueryEnd(low, high, i)
    ensures forall i: nat | i < NumQueries(low, high) ::
              && QueryStart(low, i) == low + 10000 * i
              && QueryStart(low, i) < QueryEnd(low, high, i) <= QueryStart(low, i) + 10000
  {
    var n := NumQueries(low, high);
    var i := if h == high then n - 1 else (h - low) / MAX_QUERY_RANGE;
    assert i < n && QueryStart(low, i) <= h <= QueryEnd(low, high, i);
  }

  // ---- The periodic job ----

  lemma EmptyOrMember(s: seq<int>)
    requires forall h | h in s :: h >= 0
    ensures s == [] || exists h: nat :: h in s
  {
    if s != [] {
      assert s[0] in s;
      var h: nat := s[0];
      assert h in s;
    }
  }

  /** What the indexer answers for one query. */
  ghost predicate QueryReports(heights: set<nat>, start: nat, end: nat, h: nat) {
    if |IndexedIn(heights, start, end)| < 3 then start <= h <= end
    else ShouldReport(heights, start, end, NumBatches(start, end), h)
  }

  ghost predicate SomeQueryReports(heights: set<nat>, low: nat, high: nat, queries: nat, h: nat) {
    exists i: nat :: i < queries
                     && QueryReports(heights, QueryStart(low, i), QueryEnd(low, high, i), h)
  }

  lemma SomeQueryReportsNext(heights: set<nat>, low: nat, high: nat, i: nat, h: nat)
    ensures SomeQueryReports(heights, low, high, i + 1, h)
            <==> SomeQueryReports(heights, low, high, i, h)
                 || QueryReports(heights, QueryStart(low, i), QueryEnd(low, high, i), h)
  {
    if SomeQueryReports(heights, low, high, i + 1, h) {
      var j: nat :| j < i + 1
                    && QueryReports(heights, QueryStart(low, j), QueryEnd(low, high, j), h);
      assert j < i || j == i;
    }
  }

  /** The upper end of the searched range. */
  function SearchEnd(currentHeight: nat, lastVerified: nat, maxBlocks: nat): nat {
    if lastVerified + maxBlocks <= currentHeight then lastVerified + maxBlocks else currentHeight
  }

  /** It is the chain's height, capped by how many blocks one run may schedule. */
  lemma SearchIsCapped(currentHeight: nat, lastVerified: nat, maxBlocks: nat)
    ensures var end := SearchEnd(currentHeight, lastVerified, maxBlocks);
            && end <= currentHeight && end <= lastVerified + maxBlocks
            && (end == currentHeight || end == lastVerified + maxBlocks)
  {
  }

  method MissingFromQuery(heights: set<nat>, start: nat, end: nat) returns (missing: seq<int>)
    requires start <= end
    ensures forall h | h in missing :: h >= 0
    ensures forall h: nat :: h in missing <==> QueryReports(heights, start, end, h)
  {
    missing := GetMissingBlocks(heights, start, end);
    if |IndexedIn(heights, start, end)| < 3 {
      forall h: nat ensures h in missing <==> start <= h <= end {
        if start <= h <= end { assert missing[h - start] == h; }
      }
    }
  }

  /** `gaps` is what the queries report; `tail` is as many heights from the top of the chain as are
      still missing in the count, when these are 1 to 100. */
  ghost predicate Answers(heights: set<nat>, genesisHeight: nat, currentHeight: nat,
                          lastVerified: nat, maxBlocks: nat, gaps: seq<int>, tail: seq<int>)
  {
    var high := SearchEnd(currentHeight, lastVerified, maxBlocks);
    var stillMissing := currentHeight - genesisHeight + 1 - |heights| - |gaps|;
    && (forall h: nat :: h in gaps
          <==> SomeQueryReports(heights, lastVerified, high, NumQueries(lastVerified, high), h))
    && (forall h | h in gaps :: h >= 0)
    && tail == if 0 < stillMissing <= MAX_TAIL
               then RangeList(currentHeight - stillMissing + 1, currentHeight + 1) else []
  }

  /** What query number `i` finds between the two heights, in terms of heights alone. */
  ghost predicate QueryFinds(heights: set<nat>, low: nat, high: nat, i: nat, h: nat) {
    var start := low + 10000 * i;
    var end := if start + 10000 <= high then start + 10000 else high;
    start < high && Finds(heights, start, end, h)
  }

  /** Fewer than three indexed heights: everything. Otherwise the gaps below indexed heights. */
  ghost predicate Finds(heights: set<nat>, start: nat, end: nat, h: nat) {
    if |IndexedIn(heights, start, end)| < 3 then start <= h <= end
    else exists m: nat :: BelowIndexed(heights, start, end, h, m)
  }

  lemma QueryFindsIff(heights: set<nat>, low: nat, high: nat, i: nat, h: nat)
    ensures QueryFinds(heights, low, high, i, h)
      <==> && i < NumQueries(low, high)
           && QueryReports(heights, QueryStart(low, i), QueryEnd(low, high, i), h)
  {
    QueryBounds(low, high, i);
    ReportsByHeights(heights, QueryStart(low, i), QueryEnd(low, high, i), h);
    hide QueryStart, QueryEnd, NumQueries, QueryReports, Finds;
  }

  lemma ReportsByHeights(heights: set<nat>, start: nat, end: nat, h: nat)
    ensures QueryReports(heights, start, end, h) <==> Finds(heights, start, end, h)
  {
    hide BelowIndexed, ShouldReport;
    ShouldReportIff(heights, start, end, h);
  }

  lemma QueryBounds(low: nat, high: nat, i: nat)
    ensures i < NumQueries(low, high) <==> low + 10000 * i < high
    ensures QueryStart(low, i) == low + 10000 * i
    ensures QueryEnd(low, high, i)
            == if low + 10000 * i + 10000 <= high then low + 10000 * i + 10000 else high
  {
  }

  /** The gaps are what these queries find, up to the chain's height or the most blocks one run may
      schedule above the last verified height. */
  lemma GapsAreFound(heights: set<nat>, genesisHeight: nat, currentHeight: nat, lastVerified: nat,
                     maxBlocks: nat, gaps: seq<int>, tail: seq<int>, h: nat)
    requires Answers(heights, genesisHeight, currentHeight, lastVerified, maxBlocks, gaps, tail)
    ensures
      var high := if lastVerified + maxBlocks <= currentHeight then lastVerified + maxBlocks
                  else currentHeight;
      h in gaps <==> exists i: nat :: QueryFinds(heights, lastVerified, high, i, h)
  {
    var high := SearchEnd(currentHeight, lastVerified, maxBlocks);
    hide QueryFinds, QueryReports;
    forall i: nat ensures QueryFinds(heights, lastVerified, high, i, h)
      <==> i < NumQueries(lastVerified, high)
           && QueryReports(heights, QueryStart(lastVerified, i), QueryEnd(lastVerified, high, i), h)
    {
      QueryFindsIff(heights, lastVerified, high, i, h);
    }
    assert h in gaps
      <==> SomeQueryReports(heights, lastVerified, high, NumQueries(lastVerified, high), h);
  }

  /** The heights the job schedules: what the gap queries report, and, when only up to 100 more are
      missing, as many heights from the top of the chain. */
  method MissingBlocksToSchedule(heights: set<nat>, genesisHeight: nat, currentHeight: nat,
                                 lastVerified: nat, maxBlocks: nat)
    returns (gaps: seq<int>, tail: seq<int>)
    ensures Answers(heights, genesisHeight, currentHeight, lastVerified, maxBlocks, gaps, tail)
  {
    var high := SearchEnd(currentHeight, lastVerified, maxBlocks);
    gaps, tail := [], [];
    for i := 0 to NumQueries(lastVerified, high)
      invariant forall h | h in gaps :: h >= 0
      invariant forall h: nat :: h in gaps <==> SomeQueryReports(heights, lastVerified, high, i, h)
    {
      var start, end := QueryStart(lastVerified, i), QueryEnd(lastVerified, high, i);
      var result := MissingFromQuery(heights, start, end);
      forall h: nat ensures h in gaps + result
                            <==> SomeQueryReports(heights, lastVerified, high, i + 1, h)
      {
        SomeQueryReportsNext(heights, lastVerified, high, i, h);
      }
      gaps := gaps + result;
    }
    var stillMissing := currentHeight - genesisHeight + 1 - |heights| - |gaps|;
    if 0 < stillMissing <= MAX_TAIL {
      tail := RangeList(currentHeight - stillMissing + 1, currentHeight + 1);
    }
  }

  /** The indexed heights are one interval from genesis up. */
  ghost predicate Contiguous(heights: set<nat>, genesisHeight: nat) {
    forall h :: h in heights <==> genesisHeight <= h < genesisHeight + |heights|
  }

  /** Every query of the periodic job finds at least three indexed heights. */
  ghost predicate FullQueries(heights: set<nat>, currentHeight: nat, lastVerified: nat,
                              maxBlocks: nat)
  {
    var high := SearchEnd(currentHeight, lastVerified, maxBlocks);
    forall i: nat | i < NumQueries(lastVerified, high) ::
      |IndexedIn(heights, QueryStart(lastVerified, i), QueryEnd(lastVerified, high, i))| >= 3
  }

  /** On a contiguous index the queries report nothing if and only if each of them finds at least
      three indexed heights. */
  lemma NothingReportedIff(heights: set<nat>, genesisHeight: nat, currentHeight: nat,
                           lastVerified: nat, maxBlocks: nat, gaps: seq<int>, tail: seq<int>)
    requires Contiguous(heights, genesisHeight) && genesisHeight <= lastVerified
    requires Answers(heights, genesisHeight, currentHeight, lastVerified, maxBlocks, gaps, tail)
    ensures gaps == [] <==> FullQueries(heights, currentHeight, lastVerified, maxBlocks)
  {
    var high := SearchEnd(currentHeight, lastVerified, maxBlocks);
    if FullQueries(heights, currentHeight, lastVerified, maxBlocks) {
      forall h: nat ensures h !in gaps {
        forall i: nat | i < NumQueries(lastVerified, high)
          ensures !QueryReports(heights, QueryStart(lastVerified, i),
                                QueryEnd(lastVerified, high, i), h)
        {
          NoGapInContiguousIndex(heights, genesisHeight, QueryStart(lastVerified, i),
                                 QueryEnd(lastVerified, high, i), h);
        }
      }
      EmptyOrMember(gaps);
    }
    if gaps == [] {
      forall i: nat | i < NumQueries(lastVerified, high)
        ensures |IndexedIn(heights, QueryStart(lastVerified, i),
                           QueryEnd(lastVerified, high, i))| >= 3
      {
        var start, end := QueryStart(lastVerified, i), QueryEnd(lastVerified, high, i);
        assert start !in gaps && start <= end;
        assert !QueryReports(heights, start, end, start);
      }
    }
  }

  /** A height that some query reports only because it finds fewer than three indexed heights. */
  ghost predicate InSparseQuery(heights: set<nat>, low: nat, high: nat, h: nat) {
    exists i: nat :: i < NumQueries(low, high)
      && |IndexedIn(heights, QueryStart(low, i), QueryEnd(low, high, i))| < 3
      && QueryStart(low, i) <= h <= QueryEnd(low, high, i)
  }

  /** On a contiguous index exactly the heights of the queries that find fewer than three indexed
      heights are reported, indexed ones among them. */
  lemma SparseQueriesAreReported(heights: set<nat>, genesisHeight: nat, currentHeight: nat,
                                 lastVerified: nat, maxBlocks: nat, gaps: seq<int>,
                                 tail: seq<int>, h: nat)
    requires Contiguous(heights, genesisHeight) && genesisHeight <= lastVerified
    requires Answers(heights, genesisHeight, currentHeight, lastVerified, maxBlocks, gaps, tail)
    ensures h in gaps <==>
      InSparseQuery(heights, lastVerified, SearchEnd(currentHeight, lastVerified, maxBlocks), h)
  {
    var high := SearchEnd(currentHeight, lastVerified, maxBlocks);
    hide Contiguous, IndexedIn, ShouldReport, QueryStart, QueryEnd, NumQueries;
    forall i: nat | i < NumQueries(lastVerified, high)
      ensures QueryReports(heights, QueryStart(lastVerified, i), QueryEnd(lastVerified, high, i), h)
        <==> && |IndexedIn(heights, QueryStart(lastVerified, i), QueryEnd(lastVerified, high, i))|
                < 3
             && QueryStart(lastVerified, i) <= h <= QueryEnd(lastVerified, high, i)
    {
      StartsAtOrAbove(lastVerified, i);
      NoGapInContiguousIndex(heights, genesisHeight, QueryStart(lastVerified, i),
                             QueryEnd(lastVerified, high, i), h);
    }
    assert h in gaps
      <==> SomeQueryReports(heights, lastVerified, high, NumQueries(lastVerified, high), h);
  }

  lemma StartsAtOrAbove(low: nat, i: nat)
    ensures QueryStart(low, i) >= low
  {
  }

  /** On a contiguous index for which no gap is reported, the re-check schedules exactly the
      un-indexed heights at the top if there are 1 to 100 of them. A longer tail is not scheduled at
      all. */
  lemma TailIsScheduledExactlyUpTo100(heights: set<nat>, genesisHeight: nat, currentHeight: nat,
                                      lastVerified: nat, maxBlocks: nat, gaps: seq<int>,
                                      tail: seq<int>)
    requires Contiguous(heights, genesisHeight) && genesisHeight <= lastVerified
    requires forall h | h in heights :: genesisHeight <= h <= currentHeight
    requires Answers(heights, genesisHeight, currentHeight, lastVerified, maxBlocks, gaps, tail)
    requires gaps == []
    ensures forall h: int :: h in tail
              <==> && genesisHeight <= h <= currentHeight && h !in heights
                   && currentHeight - genesisHeight + 1 - |heights| <= 100
    ensures forall i | 0 < i < |tail| :: tail[i] == tail[i - 1] + 1
  {
    var next := genesisHeight + |heights|;
    forall h: int ensures h in tail <==> next <= h <= currentHeight && |tail| > 0 {
      if next <= h <= currentHeight && |tail| > 0 { assert tail[h - next] == h; }
    }
  }

  // ---- A tail that is not scheduled ----

  /** Only genesis and the two blocks above it are indexed. */
  const FIRST_THREE: set<nat> := {0, 1, 2}

  lemma FirstThreeAreContiguous()
    ensures Contiguous(FIRST_THREE, 0) && |FIRST_THREE| == 3
    ensures forall end: nat | end >= 2 :: IndexedIn(FIRST_THREE, 0, end) == FIRST_THREE
  {
    assert |FIRST_THREE| == 3;
  }

  /** With 101 heights missing at the top, nothing is scheduled: the query finds three indexed
      heights and reports nothing, and the re-check gives up beyond 100. */
  lemma TailOf101IsNotScheduled(maxBlocks: nat, gaps: seq<int>, tail: seq<int>)
    requires maxBlocks >= 103 && Answers(FIRST_THREE, 0, 103, 0, maxBlocks, gaps, tail)
    ensures gaps == [] && tail == [] && 103 - 0 + 1 - |FIRST_THREE| == 101
  {
    FirstThreeAreContiguous();
    assert SearchEnd(103, 0, maxBlocks) == 103 && NumQueries(0, 103) == 1;
    assert QueryStart(0, 0) == 0 && QueryEnd(0, 103, 0) == 103;
    assert FullQueries(FIRST_THREE, 103, 0, maxBlocks);
    NothingReportedIff(FIRST_THREE, 0, 103, 0, maxBlocks, gaps, tail);
  }

  lemma NoGapInContiguousIndex(heights: set<nat>, genesisHeight: nat, from: nat, to: nat, h: nat)
    requires Contiguous(heights, genesisHeight) && genesisHeight <= from
    ensures !ShouldReport(heights, from, to, NumBatches(from, to), h)
  {
    forall i: nat, m: nat | BatchStart(from, i) < m < BatchEnd(from, to, i)
      ensures !InGapBefore(heights, BatchStart(from, i), m, h)
    {
      if m in heights {
        assert m - 1 in heights;
      }
    }
  }

  // ---- Running the scheduled jobs ----

  /** One index job after another, with a node whose chain does not change. */
  ghost function RunJobs(env: Env, t: Tables, jobs: seq<nat>, node: seq<Block>): Tables
    requires node != []
  {
    if jobs == [] then t
    else
      var before := RunJobs(env, t, jobs[..|jobs| - 1], node);
      IndexJob(env, before, jobs[|jobs| - 1], env.genesisHeight + |node| - 1, node, false).0
  }

  lemma NextBlockExtends(env: Env, world: iset<Block>, genesis: Block, blocks: map<nat, Block>,
                         n: nat, node: seq<Block>)
    requires ValidNode(env, world, genesis, node) && 0 < n < |node|
    requires Represents(blocks, env.genesisHeight, node[..n])
    ensures Represents(blocks[node[n].height := node[n]], env.genesisHeight, node[..n + 1])
  {
    IndexingExtends(blocks, env.genesisHeight, node[..n], node[n]);
    assert node[..n] + [node[n]] == node[..n + 1];
  }

  lemma JobIndexesNext(env: Env, world: iset<Block>, genesis: Block, t: Tables, n: nat, job: nat,
                       node: seq<Block>)
    requires ValidNode(env, world, genesis, node) && 0 < n < |node|
    requires Represents(t.blocks, env.genesisHeight, node[..n])
    ensures Represents(
              IndexJob(env, t, job, env.genesisHeight + |node| - 1, node, false).0.blocks,
              env.genesisHeight, node[..n + 1])
  {
    AgreeingJobIndexes(env, world, genesis, t.blocks, n, node, job,
                       env.genesisHeight + |node| - 1);
    NextBlockExtends(env, world, genesis, t.blocks, n, node);
  }

  /** When the node agrees with the index, any order of any jobs, as many as heights are missing,
      indexes exactly the missing heights. */
  lemma {:induction false} AnyOrderIndexesTheTail(env: Env, world: iset<Block>, genesis: Block,
                                                  t: Tables, k: nat, jobs: seq<nat>,
                                                  node: seq<Block>)
    requires ValidNode(env, world, genesis, node)
    requires 0 < k && k + |jobs| <= |node|
    requires Represents(t.blocks, env.genesisHeight, node[..k])
    ensures Represents(RunJobs(env, t, jobs, node).blocks, env.genesisHeight,
                       node[..k + |jobs|])
  {
    hide Represents, ValidNode, IndexJob;
    if jobs != [] {
      var init, last := jobs[..|jobs| - 1], jobs[|jobs| - 1];
      AnyOrderIndexesTheTail(env, world, genesis, t, k, init, node);
      JobIndexesNext(env, world, genesis, RunJobs(env, t, init, node), k + |init|, last, node);
    }
  }
}
