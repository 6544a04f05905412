/** What every run of index jobs, deletion jobs, rollbacks and node reorganisations keeps. */
module IndexRuns {
  import opened Blocks
  import opened BlockIndex

  // ---- The index as a stack of blocks ----

  /** The block rows are exactly `s`, at consecutive heights from `base` up. */
  ghost predicate Represents(blocks: map<nat, Block>, base: nat, s: seq<Block>) {
    && (forall h :: h in blocks <==> base <= h < base + |s|)
    && (forall i | 0 <= i < |s| :: s[i].height == base + i && blocks[base + i] == s[i])
  }

  ghost predicate LinkedAt(s: seq<Block>, i: nat)
    requires i < |s|
  {
    i > 0 ==> s[i].prev == s[i - 1].id
  }

  ghost predicate Linked(s: seq<Block>) {
    forall i | 0 <= i < |s| :: LinkedAt(s, i)
  }

  /** Block ids are collision free among the blocks that nodes ever report. */
  ghost predicate IdsFaithful(world: iset<Block>) {
    forall a, b | a in world && b in world && a.id == b.id :: a == b
  }

  ghost predicate Within(s: seq<Block>, world: iset<Block>) {
    forall i | 0 <= i < |s| :: s[i] in world
  }

  /** A chain a node may report: it starts with the shared genesis block and is linked. */
  ghost predicate ValidNode(env: Env, world: iset<Block>, genesis: Block, node: seq<Block>) {
    && node != [] && node[0] == genesis
    && Within(node, world)
    && (forall i | 0 <= i < |node| :: node[i].height == env.genesisHeight + i)
    && Linked(node)
  }

  /** One contiguous interval of heights, starting at genesis or right above it, in which each
      block names the block one height below as its parent. */
  ghost predicate ChainInv(env: Env, world: iset<Block>, genesis: Block, blocks: map<nat, Block>,
                           base: nat, s: seq<Block>)
  {
    && Represents(blocks, base, s)
    && Linked(s)
    && Within(s, world)
    && (s != [] ==> base == env.genesisHeight || base == env.genesisHeight + 1)
    && (s != [] && base == env.genesisHeight ==> s[0] == genesis)
  }

  lemma HighestIsTop(blocks: map<nat, Block>, base: nat, s: seq<Block>)
    requires Represents(blocks, base, s)
    ensures s == [] <==> blocks == map[]
    ensures s != [] ==> Highest(blocks) == base + |s| - 1
  {
    if s != [] {
      assert base in blocks && base + |s| - 1 in blocks;
    }
  }

  /** How many of the blocks from `base` up lie below the height `low`. */
  function Kept(base: nat, length: nat, low: nat): nat {
    if low <= base then 0 else if low - base >= length then length else low - base
  }

  lemma ReverseLast(s: seq<Block>, k: nat)
    requires k < |s|
    ensures Reverse(s[k..]) == [s[|s| - 1]] + Reverse(s[..|s| - 1][k..])
  {
    assert s[k..] == s[..|s| - 1][k..] + [s[|s| - 1]];
  }

  lemma {:induction false} RowsFromTop(blocks: map<nat, Block>, base: nat, s: seq<Block>, low: nat)
    requires Represents(blocks, base, s)
    ensures RowsFrom(blocks, low) == Reverse(s[Kept(base, |s|, low)..])
    decreases |s|
  {
    var k := Kept(base, |s|, low);
    HighestIsTop(blocks, base, s);
    if k == |s| {
    } else {
      var top, init := base + |s| - 1, s[..|s| - 1];
      assert Represents(blocks - {top}, base, init);
      RowsFromTop(blocks - {top}, base, init, low);
      assert RowsFrom(blocks, low) == [s[|s| - 1]] + RowsFrom(blocks - {top}, low);
      ReverseLast(s, k);
    }
  }

  lemma ReverseIds(s: seq<Block>)
    ensures Ids(Reverse(s)) == Ids(s)
  {
    forall b | b in s ensures b in Reverse(s) {
      var i :| 0 <= i < |s| && s[i] == b;
      assert Reverse(s)[|s| - 1 - i] == b;
    }
  }

  lemma SuffixIds(world: iset<Block>, blocks: map<nat, Block>, base: nat, s: seq<Block>, k: nat,
                  i: nat)
    requires IdsFaithful(world) && Represents(blocks, base, s) && Within(s, world)
    requires k <= |s| && i < |s|
    ensures s[i].id in Ids(s[k..]) <==> k <= i
  {
    if k <= i {
      assert s[k..][i - k] == s[i];
    } else {
      forall c | c in s[k..] ensures c.id != s[i].id {
        var j :| 0 <= j < |s[k..]| && s[k..][j] == c;
        assert c == s[k + j] && c.height != s[i].height;
      }
    }
  }

  lemma RemovingSuffixIds(world: iset<Block>, blocks: map<nat, Block>, base: nat, s: seq<Block>,
                          k: nat)
    requires IdsFaithful(world) && Represents(blocks, base, s) && Within(s, world)
    requires k <= |s|
    ensures Represents(WithoutIds(blocks, Ids(s[k..])), base, s[..k])
  {
    var ids := Ids(s[k..]);
    forall h | h in blocks ensures blocks[h].id in ids <==> base + k <= h {
      assert blocks[h] == s[h - base];
      SuffixIds(world, blocks, base, s, k, h - base);
    }
  }

  /** A deletion removes exactly the blocks from its lowest height up. */
  lemma DeletionTruncates(env: Env, world: iset<Block>, t: Tables, base: nat, s: seq<Block>,
                          heights: seq<nat>)
    requires IdsFaithful(world) && Represents(t.blocks, base, s) && Within(s, world)
    requires heights != []
    ensures Represents(DeleteTables(env, t, heights).blocks, base,
                       s[..Kept(base, |s|, Lowest(heights))])
  {
    var k := Kept(base, |s|, Lowest(heights));
    RowsFromTop(t.blocks, base, s, Lowest(heights));
    ReverseIds(s[k..]);
    RemovingSuffixIds(world, t.blocks, base, s, k);
  }

  lemma IndexingExtends(blocks: map<nat, Block>, base: nat, s: seq<Block>, b: Block)
    requires Represents(blocks, base, s)
    requires s != [] ==> b.height == base + |s|
    ensures Represents(blocks[b.height := b], if s == [] then b.height else base, s + [b])
  {
  }

  // ---- Runs ----

  /** One step of a run. The node's chain is part of the step, so it may have been reorganised
      in any way since the last one; `fault` rolls the job's transaction back. */
  datatype Step =
    | IndexStep(height: nat, currentHeight: nat, node: seq<Block>, fault: bool)
    | DeleteStep(heights: seq<nat>, fault: bool)

  /** Reorganisations happen above genesis: nodes share it and no deletion names it. */
  ghost predicate Legal(env: Env, world: iset<Block>, genesis: Block, step: Step) {
    match step
    case IndexStep(_, _, node, _) => ValidNode(env, world, genesis, node)
    case DeleteStep(heights, _) => forall h | h in heights :: h > env.genesisHeight
  }

  ghost function Apply(env: Env, t: Tables, step: Step): Tables {
    match step
    case IndexStep(height, currentHeight, node, fault) =>
      IndexJob(env, t, height, currentHeight, node, fault).0
    case DeleteStep(heights, fault) => DeleteJob(env, t, heights, fault)
  }

  ghost function Run(env: Env, steps: seq<Step>): Tables {
    if steps == [] then EMPTY
    else Apply(env, Run(env, steps[..|steps| - 1]), steps[|steps| - 1])
  }

  ghost predicate LegalRun(env: Env, world: iset<Block>, genesis: Block, steps: seq<Step>) {
    IdsFaithful(world) && forall i | 0 <= i < |steps| :: Legal(env, world, genesis, steps[i])
  }

  lemma {:induction false} LowestIsMinimum(heights: seq<nat>)
    requires heights != []
    ensures Lowest(heights) in heights
    ensures forall h | h in heights :: Lowest(heights) <= h
  {
    assert forall h | h in heights :: h == heights[0] || h in heights[1..];
    if |heights| > 1 {
      LowestIsMinimum(heights[1..]);
    }
  }

  /** The stack after a step: one block more, a prefix, or the same. */
  ghost function StackAfter(env: Env, t: Tables, base: nat, s: seq<Block>, step: Step)
    : (nat, seq<Block>)
  {
    match step
    case IndexStep(height, currentHeight, node, fault) =>
      var out := IndexJob(env, t, height, currentHeight, node, fault).1;
      if out.Indexed? then (if s == [] then out.block.height else base, s + [out.block])
      else (base, s)
    case DeleteStep(heights, fault) =>
      if fault || heights == [] then (base, s)
      else (base, s[..Kept(base, |s|, Lowest(heights))])
  }

  lemma LinkedPush(s: seq<Block>, b: Block)
    requires Linked(s) && (s != [] ==> b.prev == s[|s| - 1].id)
    ensures Linked(s + [b])
  {
    forall i | 0 <= i < |s + [b]| ensures LinkedAt(s + [b], i) {
      if i < |s| {
        assert LinkedAt(s, i);
      }
    }
  }

  /** Whatever block an index job indexes, it sits one height above the top and names the top as
      its parent; right above genesis this rests on the shared genesis block. */
  lemma IndexedBlockFits(env: Env, world: iset<Block>, genesis: Block, blocks: map<nat, Block>,
                         base: nat, s: seq<Block>, jobHeight: nat, currentHeight: nat,
                         node: seq<Block>)
    requires ValidNode(env, world, genesis, node)
    requires ChainInv(env, world, genesis, blocks, base, s)
    requires Decide(env, blocks, jobHeight, currentHeight, node).Indexed?
    ensures var b := Decide(env, blocks, jobHeight, currentHeight, node).block;
            && b in world
            && (s != [] ==> b.height == base + |s| && b.prev == s[|s| - 1].id)
            && (s == [] ==> b.height == env.genesisHeight || b.height == env.genesisHeight + 1)
            && (b.height == env.genesisHeight ==> b == genesis)
  {
    HighestIsTop(blocks, base, s);
    var h := HeightToIndex(blocks, jobHeight);
    var b := node[h - env.genesisHeight];
    assert b.height == h;
    if s != [] {
      assert blocks[base + (|s| - 1)] == s[|s| - 1];
      if h == env.genesisHeight + 1 {
        assert LinkedAt(node, 1);
      }
    }
  }

  lemma IndexingSetsBlock(env: Env, t: Tables, step: Step)
    requires step.IndexStep?
    ensures var out := Decide(env, t.blocks, step.height, step.currentHeight, step.node);
            Apply(env, t, step).blocks
            == if !step.fault && out.Indexed? then t.blocks[out.block.height := out.block]
               else t.blocks
  {
    hide Decide, AddToTotals, AddRows, Credit;
  }

  lemma IndexStepKeepsChain(env: Env, world: iset<Block>, genesis: Block, t: Tables, base: nat,
                            s: seq<Block>, step: Step)
    requires step.IndexStep? && Legal(env, world, genesis, step)
    requires ChainInv(env, world, genesis, t.blocks, base, s)
    ensures var (base', s') := StackAfter(env, t, base, s, step);
            ChainInv(env, world, genesis, Apply(env, t, step).blocks, base', s')
  {
    hide Decide, ValidNode, Linked, IdsFaithful, Represents;
    var out := Decide(env, t.blocks, step.height, step.currentHeight, step.node);
    IndexingSetsBlock(env, t, step);
    hide IndexTables;
    if !step.fault && out.Indexed? {
      IndexedBlockFits(env, world, genesis, t.blocks, base, s, step.height, step.currentHeight,
                       step.node);
      IndexingExtends(t.blocks, base, s, out.block);
      LinkedPush(s, out.block);
    }
  }

  lemma DeleteStepKeepsChain(env: Env, world: iset<Block>, genesis: Block, t: Tables, base: nat,
                             s: seq<Block>, step: Step)
    requires step.DeleteStep? && IdsFaithful(world)
    requires ChainInv(env, world, genesis, t.blocks, base, s)
    ensures var (base', s') := StackAfter(env, t, base, s, step);
            ChainInv(env, world, genesis, Apply(env, t, step).blocks, base', s')
  {
    if !step.fault && step.heights != [] {
      DeletionTruncates(env, world, t, base, s, step.heights);
      var s' := s[..Kept(base, |s|, Lowest(step.heights))];
      forall i | 0 <= i < |s'| ensures LinkedAt(s', i) {
        assert LinkedAt(s, i);
      }
    } else if !step.fault {
      assert DeleteTables(env, t, []).blocks == t.blocks;
    }
  }

  // ---- Aggregates ----

  ghost function GenWeight(a: Address): Block -> int {
    (b: Block) => if b.generator == a then 1 else 0
  }

  ghost function CommissionWeight(env: Env, a: Address): Block -> int {
    (b: Block) => if b.generator == a then BlockCommission(env, b) else 0
  }

  ghost function NetWeight(t: Token): Block -> int {
    (b: Block) => Net(b.events, t)
  }

  /** What a block contributes to the locked total of a token; genesis also brings its assets. */
  ghost function LockWeight(env: Env, t: Token): Block -> int {
    (b: Block) => Net(b.events, t) +
                  (if b.height == env.genesisHeight then Stored(env.genesisLocked, t) else 0)
  }

  /** Counts and commissions are exact: each equals its sum over the indexed blocks. */
  ghost predicate CountsExact(env: Env, t: Tables, s: seq<Block>) {
    && (forall b | b in s :: b.generator in t.validators)
    && (forall a :: Generated(t, a) == Sum(s, GenWeight(a)))
    && (forall a :: Commission(t, a) == Sum(s, CommissionWeight(env, a)))
  }

  lemma SumPush(s: seq<Block>, b: Block, weight: Block -> int)
    ensures Sum(s + [b], weight) == Sum(s, weight) + weight(b)
  {
    assert (s + [b])[..|s|] == s;
  }

  lemma IndexingCounts(env: Env, t: Tables, b: Block)
    ensures var t' := IndexTables(env, t, b);
            && t'.validators.Keys == t.validators.Keys + {b.generator}
            && (forall a :: Generated(t', a) == Generated(t, a) + GenWeight(a)(b))
            && (forall a :: Commission(t', a) == Commission(t, a) + CommissionWeight(env, a)(b))
  {
  }

  lemma IndexingKeepsCounts(env: Env, t: Tables, s: seq<Block>, b: Block)
    requires CountsExact(env, t, s)
    ensures CountsExact(env, IndexTables(env, t, b), s + [b])
  {
    IndexingCounts(env, t, b);
    forall a ensures Sum(s + [b], GenWeight(a)) == Sum(s, GenWeight(a)) + GenWeight(a)(b)
                  && Sum(s + [b], CommissionWeight(env, a))
                     == Sum(s, CommissionWeight(env, a)) + CommissionWeight(env, a)(b)
    {
      SumPush(s, b, GenWeight(a));
      SumPush(s, b, CommissionWeight(env, a));
    }
  }

  lemma RevertingCounts(env: Env, committed: Tables, work: Tables, b: Block)
    requires b.height in committed.blocks && b.generator in work.validators
    ensures var t' := RevertBlock(env, committed, work, b);
            && t'.validators.Keys == work.validators.Keys
            && (forall a :: Generated(t', a) == Generated(work, a) - GenWeight(a)(b))
            && (forall a :: Commission(t', a) == Commission(work, a) - CommissionWeight(env, a)(b))
  {
  }

  lemma {:induction false} RevertingAllCounts(env: Env, committed: Tables, list: seq<Block>,
                                              a: Address)
    requires forall b | b in list :: b.height in committed.blocks
    requires forall b | b in list :: b.generator in committed.validators
    ensures var t' := RevertBlocks(env, committed, committed, list);
            && t'.validators.Keys == committed.validators.Keys
            && Generated(t', a) == Generated(committed, a) - Sum(list, GenWeight(a))
            && Commission(t', a) == Commission(committed, a) - Sum(list, CommissionWeight(env, a))
  {
    if list != [] {
      var init, last := list[..|list| - 1], list[|list| - 1];
      assert last in list && forall b | b in init :: b in list;
      RevertingAllCounts(env, committed, init, a);
      RevertingCounts(env, committed, RevertBlocks(env, committed, committed, init), last);
    }
  }

  /** The rows a deletion removes are indexed, and lie at or above its lowest height. */
  lemma DeletedRowsAreIndexed(blocks: map<nat, Block>, base: nat, s: seq<Block>,
                              heights: seq<nat>, b: Block)
    requires Represents(blocks, base, s) && heights != []
    requires b in BlocksToDelete(blocks, heights)
    ensures b in s && b.height in blocks && b.height >= Lowest(heights)
  {
    hide RowsFrom, Lowest;
    var low := Lowest(heights);
    RowsFromTop(blocks, base, s, low);
    InReverse(s[Kept(base, |s|, low)..], b);
    SuffixIsHigh(blocks, base, s, low, b);
  }

  lemma InReverse(s: seq<Block>, b: Block)
    requires b in Reverse(s)
    ensures b in s
  {
    var i :| 0 <= i < |s| && Reverse(s)[i] == b;
    assert s[|s| - 1 - i] == b;
  }

  lemma SuffixIsHigh(blocks: map<nat, Block>, base: nat, s: seq<Block>, low: nat, b: Block)
    requires Represents(blocks, base, s) && b in s[Kept(base, |s|, low)..]
    ensures b in s && b.height in blocks && b.height >= low
  {
    var k := Kept(base, |s|, low);
    var i :| 0 <= i < |s[k..]| && s[k..][i] == b;
    assert b == s[k + i] && s[k + i].height == base + (k + i);
  }

  /** Their sums split off the sums of the index. */
  lemma DeletedRows(blocks: map<nat, Block>, base: nat, s: seq<Block>, heights: seq<nat>,
                    weight: Block -> int)
    requires Represents(blocks, base, s) && heights != []
    ensures var list := BlocksToDelete(blocks, heights);
            var k := Kept(base, |s|, Lowest(heights));
            Sum(s[..k], weight) == Sum(s, weight) - Sum(list, weight)
  {
    hide Represents;
    var k := Kept(base, |s|, Lowest(heights));
    RowsFromTop(blocks, base, s, Lowest(heights));
    SumReverse(s[k..], weight);
    SumConcat(s[..k], s[k..], weight);
    assert s[..k] + s[k..] == s;
  }

  lemma DeletionCounts(env: Env, t: Tables, base: nat, s: seq<Block>, heights: seq<nat>,
                       a: Address)
    requires Represents(t.blocks, base, s) && CountsExact(env, t, s) && heights != []
    ensures var t' := DeleteTables(env, t, heights);
            var k := Kept(base, |s|, Lowest(heights));
            && t'.validators.Keys == t.validators.Keys
            && Generated(t', a) == Sum(s[..k], GenWeight(a))
            && Commission(t', a) == Sum(s[..k], CommissionWeight(env, a))
  {
    var list := BlocksToDelete(t.blocks, heights);
    forall b | b in list ensures b.height in t.blocks && b.generator in t.validators {
      DeletedRowsAreIndexed(t.blocks, base, s, heights, b);
    }
    DeletedRows(t.blocks, base, s, heights, GenWeight(a));
    DeletedRows(t.blocks, base, s, heights, CommissionWeight(env, a));
    RevertingAllCounts(env, t, list, a);
    var t' := RevertBlocks(env, t, t, list);
    assert DeleteTables(env, t, heights).validators == t'.validators;
  }

  lemma DeletionKeepsCounts(env: Env, t: Tables, base: nat, s: seq<Block>, heights: seq<nat>)
    requires Represents(t.blocks, base, s) && CountsExact(env, t, s) && heights != []
    ensures CountsExact(env, DeleteTables(env, t, heights),
                        s[..Kept(base, |s|, Lowest(heights))])
  {
    forall a ensures var t' := DeleteTables(env, t, heights);
                     var k := Kept(base, |s|, Lowest(heights));
                     && t'.validators.Keys == t.validators.Keys
                     && Generated(t', a) == Sum(s[..k], GenWeight(a))
                     && Commission(t', a) == Sum(s[..k], CommissionWeight(env, a))
    {
      DeletionCounts(env, t, base, s, heights, a);
    }
    DeletionCounts(env, t, base, s, heights, "");
  }

  // ---- Locked totals ----

  /** The net amount of the last block of the list that mentions the token. */
  ghost function LastNet(list: seq<Block>, t: Token): int {
    if list == [] then 0
    else
      var last := list[|list| - 1];
      if t in Mentioned(last.events) then Net(last.events, t)
      else LastNet(list[..|list| - 1], t)
  }

  /** What a deletion fails to take off a locked total. The stored total is read outside the
      transaction, so of several reverted blocks that mention a token only the last one, the
      lowest, has its change kept. */
  ghost function Overwritten(list: seq<Block>, t: Token): int {
    Sum(list, NetWeight(t)) - LastNet(list, t)
  }

  lemma {:induction false} RevertingTotals(env: Env, committed: Tables, list: seq<Block>, t: Token)
    requires forall b | b in list :: b.height in committed.blocks
    ensures Stored(RevertBlocks(env, committed, committed, list).locked, t)
            == Stored(committed.locked, t) - LastNet(list, t)
  {
    if list != [] {
      var init, last := list[..|list| - 1], list[|list| - 1];
      assert last in list && forall b | b in init :: b in list;
      RevertingTotals(env, committed, init, t);
      ChangeIsNet(last.events, true);
    }
  }

  /** Genesis events that mention a token overwrite what the genesis assets had just written. */
  lemma IndexingTotals(env: Env, t: Tables, b: Block, token: Token)
    ensures Stored(IndexTables(env, t, b).locked, token)
            == Stored(t.locked, token) + LockWeight(env, token)(b)
               - (if b.height == env.genesisHeight && token in Mentioned(b.events)
                  then Stored(env.genesisLocked, token) else 0)
  {
    ChangeIsNet(b.events, false);
    if token !in Mentioned(b.events) {
      UnmentionedNetsZero(b.events, token);
    }
  }

  lemma {:induction false} AboveGenesisWeighsNet(env: Env, s: seq<Block>, t: Token)
    requires forall b | b in s :: b.height != env.genesisHeight
    ensures Sum(s, LockWeight(env, t)) == Sum(s, NetWeight(t))
  {
    if s != [] {
      assert forall b | b in s[..|s| - 1] :: b in s;
      AboveGenesisWeighsNet(env, s[..|s| - 1], t);
    }
  }

  /** The exact effect of a deletion above genesis on a locked total. */
  lemma DeletionTotals(env: Env, t: Tables, base: nat, s: seq<Block>, heights: seq<nat>,
                       token: Token)
    requires Represents(t.blocks, base, s) && heights != []
    requires forall h | h in heights :: h > env.genesisHeight
    ensures var k := Kept(base, |s|, Lowest(heights));
            Stored(DeleteTables(env, t, heights).locked, token)
              - Sum(s[..k], LockWeight(env, token))
            == Stored(t.locked, token) - Sum(s, LockWeight(env, token))
               + Overwritten(BlocksToDelete(t.blocks, heights), token)
  {
    var list := BlocksToDelete(t.blocks, heights);
    DeletedRows(t.blocks, base, s, heights, LockWeight(env, token));
    LowestIsMinimum(heights);
    forall b | b in list ensures b.height in t.blocks && b.height != env.genesisHeight {
      DeletedRowsAreIndexed(t.blocks, base, s, heights, b);
    }
    AboveGenesisWeighsNet(env, list, token);
    RevertingTotals(env, t, list, token);
    assert DeleteTables(env, t, heights).locked == RevertBlocks(env, t, t, list).locked;
  }

  ghost function DriftOf(env: Env, t: Tables, step: Step, token: Token): int {
    match step
    case IndexStep(height, currentHeight, node, fault) =>
      var out := IndexJob(env, t, height, currentHeight, node, fault).1;
      if out.Indexed? && out.block.height == env.genesisHeight
         && token in Mentioned(out.block.events)
      then -Stored(env.genesisLocked, token) else 0
    case DeleteStep(heights, fault) =>
      if fault then 0 else Overwritten(BlocksToDelete(t.blocks, heights), token)
  }

  /** Everything the run lost to overwritten locked totals. */
  ghost function Drift(env: Env, steps: seq<Step>, token: Token): int {
    if steps == [] then 0
    else
      var before := steps[..|steps| - 1];
      Drift(env, before, token) + DriftOf(env, Run(env, before), steps[|steps| - 1], token)
  }

  // ---- The invariant of all runs ----

  ghost predicate RunInv(env: Env, world: iset<Block>, genesis: Block, steps: seq<Step>,
                         base: nat, s: seq<Block>)
  {
    var t := Run(env, steps);
    && ChainInv(env, world, genesis, t.blocks, base, s)
    && CountsExact(env, t, s)
    && (forall token ::
          Stored(t.locked, token) == Sum(s, LockWeight(env, token)) + Drift(env, steps, token))
  }

  lemma StepKeepsTotals(env: Env, world: iset<Block>, genesis: Block, t: Tables, base: nat,
                        s: seq<Block>, step: Step, token: Token)
    requires Legal(env, world, genesis, step)
    requires ChainInv(env, world, genesis, t.blocks, base, s)
    ensures var (_, s') := StackAfter(env, t, base, s, step);
            Stored(Apply(env, t, step).locked, token) - Sum(s', LockWeight(env, token))
            == Stored(t.locked, token) - Sum(s, LockWeight(env, token))
               + DriftOf(env, t, step, token)
  {
    hide IndexTables, DeleteTables, Decide, BlocksToDelete, Overwritten, Sum, Linked, Within;
    hide LockWeight, Lowest;
    match step
    case IndexStep(height, currentHeight, node, fault) =>
      var out := IndexJob(env, t, height, currentHeight, node, fault).1;
      if out.Indexed? {
        IndexingTotals(env, t, out.block, token);
        SumPush(s, out.block, LockWeight(env, token));
      }
    case DeleteStep(heights, fault) =>
      if !fault && heights != [] {
        DeletionTotals(env, t, base, s, heights, token);
      } else {
        EmptyDeletion(env, t, token);
      }
  }

  lemma EmptyDeletion(env: Env, t: Tables, token: Token)
    ensures DeleteTables(env, t, []).locked == t.locked
    ensures Overwritten(BlocksToDelete(t.blocks, []), token) == 0
  {
  }

  lemma StepKeepsCounts(env: Env, t: Tables, base: nat, s: seq<Block>, step: Step)
    requires Represents(t.blocks, base, s) && CountsExact(env, t, s)
    ensures CountsExact(env, Apply(env, t, step), StackAfter(env, t, base, s, step).1)
  {
    match step
    case IndexStep(height, currentHeight, node, fault) =>
      var out := IndexJob(env, t, height, currentHeight, node, fault).1;
      if out.Indexed? {
        IndexingKeepsCounts(env, t, s, out.block);
      }
    case DeleteStep(heights, fault) =>
      if !fault && heights != [] {
        DeletionKeepsCounts(env, t, base, s, heights);
      }
  }

  /** In every reachable state the indexed heights form one interval, every block names the block
      below it as its parent, block counts and commissions are exact, and each locked total is
      off by exactly the accumulated drift. */
  lemma {:induction false} EveryRunKeepsTheIndex(env: Env, world: iset<Block>, genesis: Block,
                                                 steps: seq<Step>)
    requires LegalRun(env, world, genesis, steps)
    ensures exists base, s :: RunInv(env, world, genesis, steps, base, s)
  {
    if steps == [] {
      assert RunInv(env, world, genesis, steps, 0, []);
    } else {
      var before, step := steps[..|steps| - 1], steps[|steps| - 1];
      EveryRunKeepsTheIndex(env, world, genesis, before);
      var base, s :| RunInv(env, world, genesis, before, base, s);
      var t := Run(env, before);
      var (base', s') := StackAfter(env, t, base, s, step);
      assert Legal(env, world, genesis, step);
      if step.IndexStep? {
        IndexStepKeepsChain(env, world, genesis, t, base, s, step);
      } else {
        DeleteStepKeepsChain(env, world, genesis, t, base, s, step);
      }
      StepKeepsCounts(env, t, base, s, step);
      forall token ensures Stored(Run(env, steps).locked, token)
                           == Sum(s', LockWeight(env, token)) + Drift(env, steps, token)
      {
        StepKeepsTotals(env, world, genesis, t, base, s, step, token);
      }
      assert RunInv(env, world, genesis, steps, base', s');
    }
  }
}
