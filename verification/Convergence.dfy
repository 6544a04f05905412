/** Repeating index jobs, each followed by the deletion it schedules, brings the index to the
    node's chain. */
module Convergence {
  import opened Blocks
  import opened BlockIndex
  import opened IndexRuns

  /** An index job that knows the node's height, then the deletion it scheduled, if any. The height
      in the job matters on an empty index only: there it is `first`. */
  ghost function Cycle(env: Env, t: Tables, node: seq<Block>, first: nat): Tables
    requires node != []
  {
    var top := env.genesisHeight + |node| - 1;
    var (t', out) := IndexJob(env, t, first, top, node, false);
    if out.DeletionScheduled? then DeleteJob(env, t', [out.block.height], false) else t'
  }

  ghost function Cycles(env: Env, t: Tables, node: seq<Block>, first: nat, n: nat): Tables
    requires node != []
    decreases n
  {
    if n == 0 then t else Cycles(env, Cycle(env, t, node, first), node, first, n - 1)
  }

  /** How many indexed blocks are not on the node's chain. */
  ghost function OffChain(s: seq<Block>, node: seq<Block>): nat {
    if s == [] then 0
    else OffChain(s[..|s| - 1], node)
         + if |s| <= |node| && s[|s| - 1] == node[|s| - 1] then 0 else 1
  }

  /** Any index that a run can reach, next to any chain that a node can report. */
  ghost predicate Fits(env: Env, world: iset<Block>, genesis: Block, t: Tables, base: nat,
                       s: seq<Block>, node: seq<Block>)
  {
    && IdsFaithful(world)
    && ValidNode(env, world, genesis, node)
    && ChainInv(env, world, genesis, t.blocks, base, s)
  }

  /** The part of the node's chain from the lowest indexed height up. */
  ghost function From(env: Env, base: nat, node: seq<Block>): seq<Block>
    requires node != []
  {
    if base == env.genesisHeight + 1 then node[1..] else node
  }

  /** Parent ids determine parents: agreement at one height means agreement below it. */
  lemma {:induction false} AgreementIsAPrefix(world: iset<Block>, s: seq<Block>, node: seq<Block>)
    requires IdsFaithful(world) && Linked(s) && Linked(node)
    requires Within(s, world) && Within(node, world)
    requires s != [] && |s| <= |node| && s[|s| - 1] == node[|s| - 1]
    ensures s == node[..|s|]
  {
    if |s| > 1 {
      var init := s[..|s| - 1];
      assert LinkedAt(s, |s| - 1) && LinkedAt(node, |s| - 1);
      forall i | 0 <= i < |init| ensures LinkedAt(init, i) { assert LinkedAt(s, i); }
      assert init[|init| - 1] in world && node[|init| - 1] in world;
      AgreementIsAPrefix(world, init, node);
      assert s == init + [s[|s| - 1]];
    }
  }

  lemma {:induction false} OnChainCountsZero(node: seq<Block>, k: nat)
    requires k <= |node|
    ensures OffChain(node[..k], node) == 0
  {
    if k > 0 {
      assert node[..k][..k - 1] == node[..k - 1];
      OnChainCountsZero(node, k - 1);
    }
  }

  lemma SuffixIsLinked(env: Env, world: iset<Block>, genesis: Block, node: seq<Block>)
    requires ValidNode(env, world, genesis, node)
    ensures Linked(node[1..]) && Within(node[1..], world)
  {
    forall i | 0 <= i < |node[1..]| ensures LinkedAt(node[1..], i) {
      assert LinkedAt(node, i + 1);
    }
  }

  /** The top indexed block tells whether the whole index is on the node's chain. */
  lemma TopDecides(env: Env, world: iset<Block>, genesis: Block, t: Tables, base: nat,
                   s: seq<Block>, node: seq<Block>)
    requires Fits(env, world, genesis, t, base, s, node) && |s| <= |From(env, base, node)|
    ensures var chain := From(env, base, node);
            && (OffChain(s, chain) == 0 <==> s == chain[..|s|])
            && (s != [] && OffChain(s, chain) > 0 ==> s[|s| - 1] != chain[|s| - 1])
  {
    var chain := From(env, base, node);
    SuffixIsLinked(env, world, genesis, node);
    if s != [] && s[|s| - 1] == chain[|s| - 1] {
      AgreementIsAPrefix(world, s, chain);
    }
    OnChainCountsZero(chain, |s|);
  }

  lemma AgreeingJobIndexes(env: Env, world: iset<Block>, genesis: Block, blocks: map<nat, Block>,
                           k: nat, node: seq<Block>, jobHeight: nat, currentHeight: nat)
    requires ValidNode(env, world, genesis, node) && k < |node|
    requires Represents(blocks, env.genesisHeight, node[..k])
    requires currentHeight >= env.genesisHeight + k
    requires k == 0 ==> jobHeight == env.genesisHeight
    ensures Decide(env, blocks, jobHeight, currentHeight, node) == Indexed(node[k])
  {
    HighestIsTop(blocks, env.genesisHeight, node[..k]);
    if k > 0 {
      assert LinkedAt(node, k);
      assert node[..k][k - 1] == node[k - 1];
      assert blocks[env.genesisHeight + (k - 1)] == node[k - 1];
    }
  }

  // ---- One cycle ----

  /** Where the index stands next to a taller chain: the parent id of the node's next block is the
      id of the top indexed block exactly when that block is on the chain. */
  lemma ParentCheck(env: Env, world: iset<Block>, genesis: Block, t: Tables, base: nat,
                    s: seq<Block>, node: seq<Block>, first: nat)
    requires Fits(env, world, genesis, t, base, s, node) && 0 < |s| < |From(env, base, node)|
    ensures var chain := From(env, base, node);
            Decide(env, t.blocks, first, env.genesisHeight + |node| - 1, node)
            == if s[|s| - 1] == chain[|s| - 1] then Indexed(chain[|s|])
               else DeletionScheduled(s[|s| - 1])
  {
    HighestIsTop(t.blocks, base, s);
    var chain := From(env, base, node);
    var h := base + |s|;
    assert node[h - env.genesisHeight] == chain[|s|];
    assert node[h - 1 - env.genesisHeight] == chain[|s| - 1];
    assert LinkedAt(node, h - env.genesisHeight);
    assert t.blocks[base + (|s| - 1)] == s[|s| - 1];
    assert s[|s| - 1] in world && chain[|s| - 1] in world;
    assert h == env.genesisHeight + 1 ==> |s| == 1 && s[0] == genesis == chain[0];
  }

  lemma ForkedCycleDeletes(env: Env, world: iset<Block>, genesis: Block, t: Tables, base: nat,
                           s: seq<Block>, node: seq<Block>, first: nat)
    requires Fits(env, world, genesis, t, base, s, node) && 0 < |s| < |From(env, base, node)|
    requires s[|s| - 1] != From(env, base, node)[|s| - 1]
    ensures Fits(env, world, genesis, Cycle(env, t, node, first), base, s[..|s| - 1], node)
  {
    hide DeleteTables, IndexTables, Decide, Linked, From, Within;
    var top := s[|s| - 1];
    var step := DeleteStep([top.height], false);
    ParentCheck(env, world, genesis, t, base, s, node, first);
    assert Cycle(env, t, node, first) == Apply(env, t, step);
    assert Lowest(step.heights) == top.height == base + (|s| - 1);
    DeleteStepKeepsChain(env, world, genesis, t, base, s, step);
  }

  lemma IndexCycleIsAStep(env: Env, t: Tables, node: seq<Block>, first: nat)
    requires node != []
    ensures var top := env.genesisHeight + |node| - 1;
            Decide(env, t.blocks, first, top, node).Indexed? ==>
              Cycle(env, t, node, first) == Apply(env, t, IndexStep(first, top, node, false))
  {
    hide IndexTables, Decide, DeleteTables;
  }

  lemma AgreeingCycleIndexes(env: Env, world: iset<Block>, genesis: Block, t: Tables, base: nat,
                             s: seq<Block>, node: seq<Block>, first: nat)
    requires Fits(env, world, genesis, t, base, s, node) && 0 < |s| < |From(env, base, node)|
    requires s[|s| - 1] == From(env, base, node)[|s| - 1]
    ensures Fits(env, world, genesis, Cycle(env, t, node, first), base,
                 s + [From(env, base, node)[|s|]], node)
  {
    hide IndexTables, DeleteTables, Decide, From, ChainInv, Cycle, Linked;
    var step := IndexStep(first, env.genesisHeight + |node| - 1, node, false);
    ParentCheck(env, world, genesis, t, base, s, node, first);
    IndexCycleIsAStep(env, t, node, first);
    IndexStepKeepsChain(env, world, genesis, t, base, s, step);
  }

  /** On an empty index a job for genesis or the height above indexes the node's block there. */
  lemma EmptyCycleIndexes(env: Env, world: iset<Block>, genesis: Block, t: Tables,
                          node: seq<Block>, k: nat)
    requires Fits(env, world, genesis, t, env.genesisHeight, [], node)
    requires k < |node| && k <= 1
    ensures Fits(env, world, genesis, Cycle(env, t, node, env.genesisHeight + k),
                 env.genesisHeight + k, [node[k]], node)
  {
    hide IndexTables, DeleteTables, Linked, Cycle, Decide, Represents, Within, IdsFaithful;
    var g, top := env.genesisHeight, env.genesisHeight + |node| - 1;
    var step := IndexStep(g + k, top, node, false);
    EmptyDecides(env, t, node, g + k);
    IndexCycleIsAStep(env, t, node, g + k);
    IndexStepKeepsChain(env, world, genesis, t, g, [], step);
    assert [] + [node[k]] == [node[k]];
  }

  lemma EmptyDecides(env: Env, t: Tables, node: seq<Block>, first: nat)
    requires Represents(t.blocks, env.genesisHeight, []) && node != []
    ensures var g := env.genesisHeight;
            Decide(env, t.blocks, first, g + |node| - 1, node)
            == if g <= first <= g + 1 && first - g < |node| then Indexed(node[first - g])
               else Failed
  {
    HighestIsTop(t.blocks, env.genesisHeight, []);
  }

  lemma EmptyCycleFails(env: Env, t: Tables, node: seq<Block>, first: nat)
    requires Represents(t.blocks, env.genesisHeight, []) && node != []
    requires first != env.genesisHeight && (first == env.genesisHeight + 1 ==> |node| == 1)
    ensures Cycle(env, t, node, first) == t
  {
    hide Decide, IndexTables, DeleteTables;
    EmptyDecides(env, t, node, first);
  }

  /** A node chain that is not taller than the index is never looked at. */
  lemma SkippedCycle(env: Env, world: iset<Block>, genesis: Block, t: Tables, base: nat,
                     s: seq<Block>, node: seq<Block>, first: nat)
    requires Fits(env, world, genesis, t, base, s, node)
    requires s != [] && |s| >= |From(env, base, node)|
    ensures Cycle(env, t, node, first) == t
  {
    HighestIsTop(t.blocks, base, s);
  }

  lemma {:induction false} StuckUnlessTaller(env: Env, world: iset<Block>, genesis: Block,
                                             t: Tables, base: nat, s: seq<Block>,
                                             node: seq<Block>, first: nat, n: nat)
    requires Fits(env, world, genesis, t, base, s, node)
    requires s != [] && |s| >= |From(env, base, node)|
    ensures Cycles(env, t, node, first, n) == t
    decreases n
  {
    hide Fits, Cycle, From;
    if n > 0 {
      SkippedCycle(env, world, genesis, t, base, s, node, first);
      StuckUnlessTaller(env, world, genesis, t, base, s, node, first, n - 1);
    }
  }

  // ---- An index that starts at genesis ----

  /** The stack of blocks after one cycle. */
  ghost function After(s: seq<Block>, node: seq<Block>): seq<Block>
    requires |s| < |node|
  {
    if OffChain(s, node) > 0 && s != [] then s[..|s| - 1] else s + [node[|s|]]
  }

  ghost function Remaining(s: seq<Block>, node: seq<Block>): int {
    |node| - |s| + 2 * OffChain(s, node)
  }

  lemma ExtensionStaysOnChain(node: seq<Block>, k: nat)
    requires k < |node|
    ensures node[..k] + [node[k]] == node[..k + 1]
    ensures OffChain(node[..k] + [node[k]], node) == 0
  {
    OnChainCountsZero(node, k + 1);
  }

  lemma CycleMakesProgress(env: Env, world: iset<Block>, genesis: Block, t: Tables, s: seq<Block>,
                           node: seq<Block>, first: nat)
    requires Fits(env, world, genesis, t, env.genesisHeight, s, node) && |s| < |node|
    requires s == [] ==> first == env.genesisHeight
    ensures Fits(env, world, genesis, Cycle(env, t, node, first), env.genesisHeight,
                 After(s, node), node)
    ensures Remaining(After(s, node), node) == Remaining(s, node) - 1
    ensures After(s, node) != [] && (|After(s, node)| < |node| || After(s, node) == node)
  {
    hide Fits, Cycle;
    var g := env.genesisHeight;
    TopDecides(env, world, genesis, t, g, s, node);
    if s == [] {
      EmptyCycleIndexes(env, world, genesis, t, node, 0);
      ExtensionStaysOnChain(node, 0);
      assert s + [node[0]] == [node[0]];
    } else if OffChain(s, node) > 0 {
      ForkedCycleDeletes(env, world, genesis, t, g, s, node, first);
      SharedGenesisStays(env, world, genesis, t, s, node);
    } else {
      assert s[|s| - 1] == node[..|s|][|s| - 1];
      AgreeingCycleIndexes(env, world, genesis, t, g, s, node, first);
      ExtensionStaysOnChain(node, |s|);
    }
  }

  lemma SharedGenesisStays(env: Env, world: iset<Block>, genesis: Block, t: Tables, s: seq<Block>,
                           node: seq<Block>)
    requires Fits(env, world, genesis, t, env.genesisHeight, s, node)
    requires s != [] && |s| <= |node| && s[|s| - 1] != node[|s| - 1]
    ensures |s| > 1
  {
  }

  /** The block rows are the node's chain after `n` cycles. */
  ghost predicate Reached(env: Env, t: Tables, node: seq<Block>, first: nat, n: nat)
    requires node != []
  {
    Represents(Cycles(env, t, node, first, n).blocks, env.genesisHeight, node)
  }

  lemma ReachedLater(env: Env, t: Tables, node: seq<Block>, first: nat, n: nat)
    requires node != [] && n > 0
    ensures Reached(env, t, node, first, n)
            <==> Reached(env, Cycle(env, t, node, first), node, first, n - 1)
  {
  }

  lemma NotYetReached(env: Env, world: iset<Block>, genesis: Block, t: Tables, s: seq<Block>,
                      node: seq<Block>, first: nat)
    requires Fits(env, world, genesis, t, env.genesisHeight, s, node) && |s| < |node|
    ensures !Reached(env, t, node, first, 0)
  {
    assert env.genesisHeight + |s| !in t.blocks;
  }

  /** Once the index equals the node's chain it stays so. */
  lemma ReachedStays(env: Env, world: iset<Block>, genesis: Block, t: Tables, node: seq<Block>,
                     first: nat, n: nat)
    requires Fits(env, world, genesis, t, env.genesisHeight, node, node)
    ensures Reached(env, t, node, first, n) && Remaining(node, node) == 0
  {
    StuckUnlessTaller(env, world, genesis, t, env.genesisHeight, node, node, first, n);
    OnChainCountsZero(node, |node|);
    assert node[..|node|] == node;
  }

  lemma {:induction false} ConvergesFromGenesis(env: Env, world: iset<Block>, genesis: Block,
                                                t: Tables, s: seq<Block>, node: seq<Block>,
                                                first: nat, n: nat)
    requires Fits(env, world, genesis, t, env.genesisHeight, s, node)
    requires |s| < |node| || s == node
    requires s == [] ==> first == env.genesisHeight
    ensures Reached(env, t, node, first, n) <==> n >= Remaining(s, node)
    decreases n
  {
    hide Fits, Reached, After, Cycle, OffChain;
    if s == node {
      ReachedStays(env, world, genesis, t, node, first, n);
    } else if n == 0 {
      NotYetReached(env, world, genesis, t, s, node, first);
    } else {
      CycleMakesProgress(env, world, genesis, t, s, node, first);
      ReachedLater(env, t, node, first, n);
      ConvergesFromGenesis(env, world, genesis, Cycle(env, t, node, first), After(s, node), node,
                           first, n - 1);
    }
  }

  lemma RepresentedStackIsUnique(blocks: map<nat, Block>, base: nat, s: seq<Block>, r: seq<Block>)
    requires Represents(blocks, base, s) && Represents(blocks, base, r)
    ensures s == r
  {
    assert base + |s| !in blocks && base + |r| !in blocks;
    assert |s| == |r|;
    forall i | 0 <= i < |s| ensures s[i] == r[i] {
      assert blocks[base + i] == s[i];
    }
  }

  lemma NeverFromGenesis(env: Env, world: iset<Block>, genesis: Block, t: Tables, s: seq<Block>,
                         node: seq<Block>, first: nat, n: nat)
    requires Fits(env, world, genesis, t, env.genesisHeight, s, node)
    requires s != [] && |s| >= |node| && s != node
    ensures !Reached(env, t, node, first, n)
  {
    StuckUnlessTaller(env, world, genesis, t, env.genesisHeight, s, node, first, n);
    if Represents(t.blocks, env.genesisHeight, node) {
      RepresentedStackIsUnique(t.blocks, env.genesisHeight, s, node);
    }
  }

  // ---- An index that starts right above genesis ----

  /** Its lowest block is the node's: then it stays, and genesis is never indexed. */
  ghost predicate WithoutGenesis(env: Env, world: iset<Block>, genesis: Block, t: Tables,
                                 s: seq<Block>, node: seq<Block>)
  {
    && Fits(env, world, genesis, t, env.genesisHeight + 1, s, node)
    && s != [] && |node| > 1 && s[0] == node[1]
  }

  ghost function AfterAbove(s: seq<Block>, chain: seq<Block>): seq<Block>
    requires s != []
  {
    if |s| >= |chain| then s
    else if s[|s| - 1] == chain[|s| - 1] then s + [chain[|s|]]
    else s[..|s| - 1]
  }

  lemma CycleKeepsLowest(env: Env, world: iset<Block>, genesis: Block, t: Tables, s: seq<Block>,
                         node: seq<Block>, first: nat)
    requires WithoutGenesis(env, world, genesis, t, s, node)
    ensures WithoutGenesis(env, world, genesis, Cycle(env, t, node, first),
                           AfterAbove(s, node[1..]), node)
  {
    hide Fits, Cycle;
    var base, chain := env.genesisHeight + 1, node[1..];
    assert From(env, base, node) == chain;
    if |s| >= |chain| {
      SkippedCycle(env, world, genesis, t, base, s, node, first);
    } else if s[|s| - 1] == chain[|s| - 1] {
      AgreeingCycleIndexes(env, world, genesis, t, base, s, node, first);
    } else {
      ForkedCycleDeletes(env, world, genesis, t, base, s, node, first);
      assert |s| > 1;
    }
  }

  lemma GenesisIsMissing(env: Env, world: iset<Block>, genesis: Block, t: Tables, s: seq<Block>,
                         node: seq<Block>, first: nat)
    requires Fits(env, world, genesis, t, env.genesisHeight + 1, s, node)
    ensures !Represents(t.blocks, env.genesisHeight, node)
    ensures !Reached(env, t, node, first, 0)
  {
    assert env.genesisHeight !in t.blocks;
  }

  lemma {:induction false} NeverWithoutGenesis(env: Env, world: iset<Block>, genesis: Block,
                                               t: Tables, s: seq<Block>, node: seq<Block>,
                                               first: nat, n: nat)
    requires WithoutGenesis(env, world, genesis, t, s, node)
    ensures !Reached(env, t, node, first, n)
    decreases n
  {
    hide Fits, Cycle, Reached, AfterAbove;
    if n == 0 {
      GenesisIsMissing(env, world, genesis, t, s, node, first);
    } else {
      CycleKeepsLowest(env, world, genesis, t, s, node, first);
      ReachedLater(env, t, node, first, n);
      NeverWithoutGenesis(env, world, genesis, Cycle(env, t, node, first),
                          AfterAbove(s, node[1..]), node, first, n - 1);
    }
  }

  lemma StartsAbove(env: Env, world: iset<Block>, genesis: Block, t: Tables, node: seq<Block>)
    requires |node| > 1 && Fits(env, world, genesis, t, env.genesisHeight + 1, [node[1]], node)
    ensures WithoutGenesis(env, world, genesis, t, [node[1]], node)
  {
    hide Fits;
  }

  lemma FitsEmpty(env: Env, world: iset<Block>, genesis: Block, t: Tables, node: seq<Block>)
    requires Fits(env, world, genesis, t, env.genesisHeight, [], node)
    ensures node != [] && Represents(t.blocks, env.genesisHeight, [])
  {
  }

  /** On an empty index everything rests on the height in the job. */
  lemma {:induction false} NeverFromEmpty(env: Env, world: iset<Block>, genesis: Block, t: Tables,
                                          node: seq<Block>, first: nat, n: nat)
    requires Fits(env, world, genesis, t, env.genesisHeight, [], node)
    requires first != env.genesisHeight
    ensures !Reached(env, t, node, first, n)
    decreases n
  {
    hide *;
    FitsEmpty(env, world, genesis, t, node);
    if n == 0 {
      NotYetReached(env, world, genesis, t, [], node, first);
    } else {
      ReachedLater(env, t, node, first, n);
      if first == env.genesisHeight + 1 && |node| > 1 {
        EmptyCycleIndexes(env, world, genesis, t, node, 1);
        StartsAbove(env, world, genesis, Cycle(env, t, node, first), node);
        NeverWithoutGenesis(env, world, genesis, Cycle(env, t, node, first), [node[1]], node, first,
                            n - 1);
      } else {
        EmptyCycleFails(env, t, node, first);
        NeverFromEmpty(env, world, genesis, t, node, first, n - 1);
      }
    }
  }

  lemma NeverUnlessTaller(env: Env, world: iset<Block>, genesis: Block, t: Tables, s: seq<Block>,
                          node: seq<Block>, first: nat, n: nat)
    requires Fits(env, world, genesis, t, env.genesisHeight + 1, s, node)
    requires s != [] && |s| + 1 >= |node|
    ensures !Reached(env, t, node, first, n)
  {
    StuckUnlessTaller(env, world, genesis, t, env.genesisHeight + 1, s, node, first, n);
    GenesisIsMissing(env, world, genesis, t, s, node, first);
  }

  /** An empty index has no base of its own. */
  lemma EmptyFitsAnywhere(env: Env, world: iset<Block>, genesis: Block, t: Tables, base: nat,
                          base': nat, node: seq<Block>)
    requires Fits(env, world, genesis, t, base, [], node)
    ensures Fits(env, world, genesis, t, base', [], node)
  {
  }

  /** If its lowest block is not the node's, all blocks are deleted, one per cycle, and what follows
      depends on the job that meets the empty index. */
  lemma {:induction false} DivergedFromAbove(env: Env, world: iset<Block>, genesis: Block,
                                             t: Tables, s: seq<Block>, node: seq<Block>,
                                             first: nat, n: nat)
    requires Fits(env, world, genesis, t, env.genesisHeight + 1, s, node)
    requires |s| + 1 < |node| && (s != [] ==> s[0] != node[1])
    ensures Reached(env, t, node, first, n)
            <==> first == env.genesisHeight && n >= |node| + |s|
    decreases |s|
  {
    hide Fits, Reached, Cycle, OffChain;
    var base, chain := env.genesisHeight + 1, node[1..];
    assert From(env, base, node) == chain;
    if s == [] {
      NothingOffChain(node);
      EmptyFitsAnywhere(env, world, genesis, t, base, env.genesisHeight, node);
      if first == env.genesisHeight {
        ConvergesFromGenesis(env, world, genesis, t, [], node, first, n);
      } else {
        NeverFromEmpty(env, world, genesis, t, node, first, n);
      }
    } else if n == 0 {
      GenesisIsMissing(env, world, genesis, t, s, node, first);
    } else {
      DivergedTop(env, world, genesis, t, s, node);
      ForkedCycleDeletes(env, world, genesis, t, base, s, node, first);
      ReachedLater(env, t, node, first, n);
      DivergedFromAbove(env, world, genesis, Cycle(env, t, node, first), s[..|s| - 1], node, first,
                        n - 1);
    }
  }

  lemma NothingOffChain(node: seq<Block>)
    ensures OffChain([], node) == 0
  {
  }

  lemma DivergedTop(env: Env, world: iset<Block>, genesis: Block, t: Tables, s: seq<Block>,
                    node: seq<Block>)
    requires Fits(env, world, genesis, t, env.genesisHeight + 1, s, node)
    requires s != [] && |s| + 1 < |node| && s[0] != node[1]
    ensures s[|s| - 1] != node[1..][|s| - 1]
  {
    TopDecides(env, world, genesis, t, env.genesisHeight + 1, s, node);
    assert node[1..][..|s|][0] == node[1];
  }

  // ---- Convergence ----

  /** What the index, the node and the job for an empty index must be like. */
  ghost predicate Converging(env: Env, base: nat, s: seq<Block>, node: seq<Block>, first: nat)
    requires node != []
  {
    if s == [] then first == env.genesisHeight
    else if base == env.genesisHeight then |node| > |s| || s == node
    else |node| > |s| + 1 && s[0] != node[1] && first == env.genesisHeight
  }

  /** The number of cycles it then takes. With H the height of the node and m the number of indexed
      blocks off its chain, it is (H - last) + 2m, and one more for genesis if that is missing. */
  ghost function CyclesNeeded(env: Env, base: nat, s: seq<Block>, node: seq<Block>): int {
    if s == [] || base == env.genesisHeight then |node| - |s| + 2 * OffChain(s, node)
    else (|node| - 1 - |s|) + 2 * |s| + 1
  }

  /** From every index that a run can reach, the node's chain is reached after exactly that many
      cycles, and kept; otherwise it is never reached. */
  lemma ConvergesInExactly(env: Env, world: iset<Block>, genesis: Block, t: Tables, base: nat,
                           s: seq<Block>, node: seq<Block>, first: nat, n: nat)
    requires IdsFaithful(world) && ValidNode(env, world, genesis, node)
    requires ChainInv(env, world, genesis, t.blocks, base, s)
    ensures Reached(env, t, node, first, n)
            <==> Converging(env, base, s, node, first) && n >= CyclesNeeded(env, base, s, node)
  {
    assert Fits(env, world, genesis, t, base, s, node);
    hide Reached, OffChain, Linked, Within, Represents, IdsFaithful;
    var g := env.genesisHeight;
    if s == [] {
      EmptyFitsAnywhere(env, world, genesis, t, base, g, node);
      if first == g {
        ConvergesFromGenesis(env, world, genesis, t, s, node, first, n);
      } else {
        NeverFromEmpty(env, world, genesis, t, node, first, n);
      }
    } else if base == g {
      if |node| > |s| || s == node {
        ConvergesFromGenesis(env, world, genesis, t, s, node, first, n);
      } else {
        NeverFromGenesis(env, world, genesis, t, s, node, first, n);
      }
    } else if |s| + 1 >= |node| {
      NeverUnlessTaller(env, world, genesis, t, s, node, first, n);
    } else if s[0] == node[1] {
      NeverWithoutGenesis(env, world, genesis, t, s, node, first, n);
    } else {
      DivergedFromAbove(env, world, genesis, t, s, node, first, n);
    }
  }

  /** The index reaches the node's chain if and only if
      - it is empty and the job names the genesis height, or
      - it starts at genesis, and the node's chain is taller or equal to it, or
      - it starts right above genesis, the node's chain is taller and has another block there, and
        the job that meets the emptied index names the genesis height. */
  lemma ConvergesIff(env: Env, world: iset<Block>, genesis: Block, t: Tables, base: nat,
                     s: seq<Block>, node: seq<Block>, first: nat)
    requires IdsFaithful(world) && ValidNode(env, world, genesis, node)
    requires ChainInv(env, world, genesis, t.blocks, base, s)
    ensures (exists n: nat :: Reached(env, t, node, first, n))
            <==> Converging(env, base, s, node, first)
  {
    assert node != [];
    hide Reached, Converging, ValidNode, ChainInv, IdsFaithful;
    var needed := CyclesNeeded(env, base, s, node);
    var n: nat := if needed >= 0 then needed else 0;
    ConvergesInExactly(env, world, genesis, t, base, s, node, first, n);
    forall n: nat
      ensures Reached(env, t, node, first, n) ==> Converging(env, base, s, node, first)
    {
      ConvergesInExactly(env, world, genesis, t, base, s, node, first, n);
    }
  }

  /** A run of one job that leaves genesis out: on empty tables the job's own height is used, and
      right above genesis no parent is asked for. From then on the chain of that node, however tall,
      is never reached. */
  lemma SkippedGenesisIsNeverIndexed(env: Env, world: iset<Block>, genesis: Block,
                                     node: seq<Block>, first: nat, n: nat)
    requires IdsFaithful(world) && ValidNode(env, world, genesis, node) && |node| > 1
    ensures var g := env.genesisHeight;
            var steps := [IndexStep(g + 1, g + |node| - 1, node, false)];
            && LegalRun(env, world, genesis, steps)
            && ChainInv(env, world, genesis, Run(env, steps).blocks, g + 1, [node[1]])
            && !Reached(env, Run(env, steps), node, first, n)
  {
    var g := env.genesisHeight;
    var steps := [IndexStep(g + 1, g + |node| - 1, node, false)];
    assert steps[..0] == [] && Run(env, steps) == Apply(env, EMPTY, steps[0]);
    EmptyTablesFit(env, world, genesis, node);
    EmptyDecides(env, EMPTY, node, g + 1);
    IndexCycleIsAStep(env, EMPTY, node, g + 1);
    EmptyCycleIndexes(env, world, genesis, EMPTY, node, 1);
    hide Cycle, Decide, IndexTables, Reached;
    NeverWithoutGenesis(env, world, genesis, Run(env, steps), [node[1]], node, first, n);
  }

  lemma EmptyTablesFit(env: Env, world: iset<Block>, genesis: Block, node: seq<Block>)
    requires IdsFaithful(world) && ValidNode(env, world, genesis, node)
    ensures Fits(env, world, genesis, EMPTY, env.genesisHeight, [], node)
  {
  }
}
