/** The transaction and event rows over whole runs: exactly those of the indexed blocks. */
module RowRuns {
  import opened Blocks
  import opened BlockIndex
  import opened IndexRuns
  import opened Convergence
  import opened RoundTrip

  /** No two blocks of the chain share a transaction or an event id. */
  ghost predicate UniqueRows(s: seq<Block>) {
    forall i, j | 0 <= i < j < |s| :: Disjoint(s[i], s[j])
  }

  ghost predicate Disjoint(a: Block, b: Block) {
    && (forall id | id in a.txs :: id !in b.txs)
    && (forall id | id in EventIds(a) :: id !in EventIds(b))
  }

  /** A row per transaction and event of the indexed blocks, naming its block, and no other row. */
  ghost predicate RowsExact(t: Tables, s: seq<Block>) {
    && (forall id :: id in t.txs <==> HasTx(s, id))
    && (forall b, id | b in s && id in b.txs :: id in t.txs && t.txs[id] == b.id)
    && (forall id :: id in t.events <==> HasEvent(s, id))
    && (forall b, id | b in s && id in EventIds(b) :: id in t.events && t.events[id] == b.id)
  }

  /** A run whose node chains have unique rows. */
  ghost predicate UniqueRun(steps: seq<Step>) {
    forall step | step in steps && step.IndexStep? :: UniqueRows(step.node)
  }

  // ---- Indexing ----

  /** A block that is indexed extends a part of the node's chain. */
  lemma IndexedPartOfNode(env: Env, world: iset<Block>, genesis: Block, blocks: map<nat, Block>,
                          base: nat, s: seq<Block>, jobHeight: nat, currentHeight: nat,
                          node: seq<Block>)
    requires IdsFaithful(world) && ValidNode(env, world, genesis, node)
    requires ChainInv(env, world, genesis, blocks, base, s)
    requires Decide(env, blocks, jobHeight, currentHeight, node).Indexed?
    ensures var chain := From(env, base, node);
            s != [] ==> |s| < |chain| && s == chain[..|s|]
                        && Decide(env, blocks, jobHeight, currentHeight, node).block == chain[|s|]
  {
    if s != [] {
      HighestIsTop(blocks, base, s);
      IndexedBlockFits(env, world, genesis, blocks, base, s, jobHeight, currentHeight, node);
      var chain := From(env, base, node);
      assert chain[|s|] == node[base + |s| - env.genesisHeight];
      assert LinkedAt(node, base + |s| - env.genesisHeight);
      assert s[|s| - 1] in world && chain[|s| - 1] in world;
      assert s[|s| - 1] == chain[|s| - 1];
      SuffixIsLinked(env, world, genesis, node);
      AgreementIsAPrefix(world, s, chain);
    }
  }

  lemma UniquePart(env: Env, base: nat, node: seq<Block>, k: nat)
    requires node != [] && k <= |From(env, base, node)| && UniqueRows(node)
    ensures UniqueRows(From(env, base, node)[..k])
  {
    hide Disjoint;
  }

  lemma HasOneMore(s: seq<Block>, b: Block, id: Id)
    ensures HasTx(s + [b], id) <==> HasTx(s, id) || id in b.txs
    ensures HasEvent(s + [b], id) <==> HasEvent(s, id) || id in EventIds(b)
  {
    var all := s + [b];
    assert b in all && forall c | c in s :: c in all;
  }

  lemma IndexingKeepsRows(env: Env, t: Tables, s: seq<Block>, b: Block)
    requires RowsExact(t, s) && UniqueRows(s + [b])
    ensures RowsExact(IndexTables(env, t, b), s + [b])
  {
    hide IndexTables, HasTx, HasEvent;
    IndexingSetsRows(env, t, b);
    var t', all := IndexTables(env, t, b), s + [b];
    forall id ensures id in t'.txs <==> HasTx(all, id)
              ensures id in t'.events <==> HasEvent(all, id)
    {
      HasOneMore(s, b, id);
    }
    forall c | c in s ensures Disjoint(c, b) {
      var i :| 0 <= i < |s| && s[i] == c;
      assert Disjoint(all[i], all[|s|]);
    }
  }

  // ---- Deletion ----

  lemma PrefixOfUnique(s: seq<Block>, k: nat)
    requires k <= |s| && UniqueRows(s)
    ensures UniqueRows(s[..k])
  {
    hide Disjoint;
  }

  /** A row of an indexed block goes exactly when its block goes. */
  lemma BlockOfRow(s: seq<Block>, k: nat, i: nat, id: Id)
    requires k <= |s| && i < |s| && UniqueRows(s)
    ensures id in s[i].txs ==> (HasTx(s[..k], id) <==> i < k)
    ensures id in EventIds(s[i]) ==> (HasEvent(s[..k], id) <==> i < k)
    ensures id in EventIds(s[i]) ==> (HasEvent(s[k..], id) <==> k <= i)
  {
    hide EventIds;
    if i < k {
      assert s[..k][i] in s[..k];
    } else {
      assert s[k..][i - k] in s[k..];
    }
    forall b | b in s[..k] && i >= k ensures Disjoint(b, s[i]) {
      var j :| 0 <= j < k && s[..k][j] == b;
      assert Disjoint(s[j], s[i]);
    }
    forall b | b in s[k..] && i < k ensures Disjoint(s[i], b) {
      var j :| 0 <= j < |s[k..]| && s[k..][j] == b;
      assert Disjoint(s[i], s[k + j]);
    }
  }

  lemma DeletedRowsGone(env: Env, world: iset<Block>, t: Tables, base: nat, s: seq<Block>,
                        heights: seq<nat>, id: Id)
    requires IdsFaithful(world) && Represents(t.blocks, base, s) && Within(s, world)
    requires heights != []
    ensures var k := Kept(base, |s|, Lowest(heights));
            var t' := DeleteTables(env, t, heights);
            && (id in t'.txs <==> id in t.txs && t.txs[id] !in Ids(s[k..]))
            && (id in t'.txs ==> t'.txs[id] == t.txs[id])
            && (id in t'.events <==> id in t.events && !HasEvent(s[k..], id))
            && (id in t'.events ==> t'.events[id] == t.events[id])
  {
    var k := Kept(base, |s|, Lowest(heights));
    var list := BlocksToDelete(t.blocks, heights);
    RowsFromTop(t.blocks, base, s, Lowest(heights));
    forall b | b in list ensures b.height in t.blocks {
      DeletedRowsAreIndexed(t.blocks, base, s, heights, b);
    }
    hide RevertBlocks, HasEvent, Ids, Represents, BlocksToDelete;
    ReverseIds(s[k..]);
    SameEventsReversed(s[k..], id);
    RevertingRows(env, t, list, id);
  }

  lemma DeletionKeepsRows(env: Env, world: iset<Block>, t: Tables, base: nat, s: seq<Block>,
                          heights: seq<nat>)
    requires IdsFaithful(world) && Represents(t.blocks, base, s) && Within(s, world)
    requires RowsExact(t, s) && UniqueRows(s) && heights != []
    ensures RowsExact(DeleteTables(env, t, heights), s[..Kept(base, |s|, Lowest(heights))])
  {
    hide DeleteTables, Lowest, RowsExact, UniqueRows, Represents, IdsFaithful, Within, HasTx;
    hide HasEvent, Ids;
    var k := Kept(base, |s|, Lowest(heights));
    var t' := DeleteTables(env, t, heights);
    forall id ensures RowKept(t, t', s, k, id) {
      DeletedRowsGone(env, world, t, base, s, heights, id);
      KeptTxRow(world, t, base, s, k, id);
      KeptEventRow(t, s, k, id);
    }
    AllRowsKept(t, t', s, k);
  }

  /** What becomes of one id when the blocks from position `k` up go. */
  ghost predicate RowKept(t: Tables, t': Tables, s: seq<Block>, k: nat, id: Id)
    requires k <= |s|
  {
    && (id in t'.txs <==> HasTx(s[..k], id))
    && (id in t'.txs ==> id in t.txs && t'.txs[id] == t.txs[id])
    && (id in t'.events <==> HasEvent(s[..k], id))
    && (id in t'.events ==> id in t.events && t'.events[id] == t.events[id])
  }

  lemma KeptTxRow(world: iset<Block>, t: Tables, base: nat, s: seq<Block>, k: nat, id: Id)
    requires IdsFaithful(world) && Represents(t.blocks, base, s) && Within(s, world)
    requires RowsExact(t, s) && UniqueRows(s) && k <= |s|
    ensures id in t.txs && t.txs[id] !in Ids(s[k..]) <==> HasTx(s[..k], id)
  {
    PartHasNoMore(s, k, id);
    if id in t.txs {
      var b :| b in s && id in b.txs;
      var i :| 0 <= i < |s| && s[i] == b;
      hide HasTx, UniqueRows, Ids, Represents;
      SuffixIds(world, t.blocks, base, s, k, i);
      BlockOfRow(s, k, i, id);
    }
  }

  lemma KeptEventRow(t: Tables, s: seq<Block>, k: nat, id: Id)
    requires RowsExact(t, s) && UniqueRows(s) && k <= |s|
    ensures id in t.events && !HasEvent(s[k..], id) <==> HasEvent(s[..k], id)
  {
    PartHasNoMore(s, k, id);
    if id in t.events {
      var b :| b in s && id in EventIds(b);
      var i :| 0 <= i < |s| && s[i] == b;
      hide HasEvent, UniqueRows;
      BlockOfRow(s, k, i, id);
    }
  }

  lemma PartHasNoMore(s: seq<Block>, k: nat, id: Id)
    requires k <= |s|
    ensures HasTx(s[..k], id) ==> HasTx(s, id)
    ensures HasEvent(s[..k], id) ==> HasEvent(s, id)
  {
    assert forall b | b in s[..k] :: b in s;
  }

  lemma AllRowsKept(t: Tables, t': Tables, s: seq<Block>, k: nat)
    requires k <= |s| && RowsExact(t, s) && forall id :: RowKept(t, t', s, k, id)
    ensures RowsExact(t', s[..k])
  {
    forall b, id | b in s[..k] && id in b.txs ensures id in t'.txs && t'.txs[id] == b.id {
      assert b in s && RowKept(t, t', s, k, id) && HasTx(s[..k], id);
    }
    forall b, id | b in s[..k] && id in EventIds(b)
      ensures id in t'.events && t'.events[id] == b.id
    {
      assert b in s && RowKept(t, t', s, k, id) && HasEvent(s[..k], id);
    }
    forall id ensures id in t'.txs <==> HasTx(s[..k], id)
              ensures id in t'.events <==> HasEvent(s[..k], id)
    {
      assert RowKept(t, t', s, k, id);
    }
  }

  // ---- Runs ----

  ghost predicate RowInv(env: Env, world: iset<Block>, genesis: Block, t: Tables, base: nat,
                         s: seq<Block>)
  {
    ChainInv(env, world, genesis, t.blocks, base, s) && UniqueRows(s) && RowsExact(t, s)
  }

  lemma IndexStepKeepsRows(env: Env, world: iset<Block>, genesis: Block, t: Tables, base: nat,
                           s: seq<Block>, step: Step)
    requires step.IndexStep? && Legal(env, world, genesis, step) && IdsFaithful(world)
    requires UniqueRows(step.node) && RowInv(env, world, genesis, t, base, s)
    ensures var (base', s') := StackAfter(env, t, base, s, step);
            RowInv(env, world, genesis, Apply(env, t, step), base', s')
  {
    hide Decide, IndexTables, ChainInv, RowsExact, UniqueRows, ValidNode, IdsFaithful;
    IndexStepKeepsChain(env, world, genesis, t, base, s, step);
    var out := Decide(env, t.blocks, step.height, step.currentHeight, step.node);
    if !step.fault && out.Indexed? {
      IndexedPartOfNode(env, world, genesis, t.blocks, base, s, step.height, step.currentHeight,
                        step.node);
      NodeIsNotEmpty(env, world, genesis, step.node);
      var chain := From(env, base, step.node);
      if s == [] {
        OneBlockIsUnique(out.block);
        assert s + [out.block] == [out.block];
      } else {
        UniquePart(env, base, step.node, |s| + 1);
        assert s + [out.block] == chain[..|s| + 1];
      }
      IndexingKeepsRows(env, t, s, out.block);
    }
  }

  lemma NodeIsNotEmpty(env: Env, world: iset<Block>, genesis: Block, node: seq<Block>)
    requires ValidNode(env, world, genesis, node)
    ensures node != []
  {
  }

  lemma OneBlockIsUnique(b: Block)
    ensures UniqueRows([b])
  {
  }

  lemma NothingDeletedKeepsRows(env: Env, t: Tables, s: seq<Block>)
    requires RowsExact(t, s)
    ensures RowsExact(DeleteTables(env, t, []), s)
  {
    assert DeleteTables(env, t, []).txs == t.txs && DeleteTables(env, t, []).events == t.events;
  }

  lemma DeleteStepKeepsRows(env: Env, world: iset<Block>, genesis: Block, t: Tables, base: nat,
                            s: seq<Block>, step: Step)
    requires step.DeleteStep? && IdsFaithful(world)
    requires RowInv(env, world, genesis, t, base, s)
    ensures var (base', s') := StackAfter(env, t, base, s, step);
            RowInv(env, world, genesis, Apply(env, t, step), base', s')
  {
    hide DeleteTables, RowsExact, UniqueRows, IdsFaithful, Represents, Linked, Within, Lowest;
    DeleteStepKeepsChain(env, world, genesis, t, base, s, step);
    if !step.fault && step.heights != [] {
      DeletionKeepsRows(env, world, t, base, s, step.heights);
      PrefixOfUnique(s, Kept(base, |s|, Lowest(step.heights)));
    } else {
      NothingDeletedKeepsRows(env, t, s);
    }
  }

  /** In every reachable state the transaction and event rows are exactly those of the indexed
      blocks, as long as no node chain has a transaction or an event twice. */
  lemma {:induction false} EveryRunKeepsRows(env: Env, world: iset<Block>, genesis: Block,
                                             steps: seq<Step>)
    requires LegalRun(env, world, genesis, steps) && UniqueRun(steps)
    ensures exists base, s :: RowInv(env, world, genesis, Run(env, steps), base, s)
  {
    if steps == [] {
      assert RowInv(env, world, genesis, Run(env, steps), 0, []);
    } else {
      var before, step := steps[..|steps| - 1], steps[|steps| - 1];
      assert step in steps && forall x | x in before :: x in steps;
      EveryRunKeepsRows(env, world, genesis, before);
      hide RowInv, Legal, UniqueRows;
      var t := Run(env, before);
      var base, s :| RowInv(env, world, genesis, t, base, s);
      var (base', s') := StackAfter(env, t, base, s, step);
      assert Legal(env, world, genesis, step);
      if step.IndexStep? {
        IndexStepKeepsRows(env, world, genesis, t, base, s, step);
      } else {
        DeleteStepKeepsRows(env, world, genesis, t, base, s, step);
      }
      assert RowInv(env, world, genesis, Run(env, steps), base', s');
    }
  }

  /** In such a state further blocks of the same chain bring only fresh rows, so that the round trip
      restores all rows. */
  lemma ReachableRoundTrip(env: Env, world: iset<Block>, genesis: Block, t: Tables, base: nat,
                           s: seq<Block>, bs: seq<Block>)
    requires RowInv(env, world, genesis, t, base, s)
    requires Continues(env, world, t, base, s, bs) && bs != [] && UniqueRows(s + bs)
    ensures AfterRoundTrip(env, t, bs).txs == t.txs
    ensures AfterRoundTrip(env, t, bs).events == t.events
  {
    forall b, c | b in s && c in bs ensures b.id != c.id && Disjoint(b, c) {
      var i :| 0 <= i < |s| && s[i] == b;
      var j :| 0 <= j < |bs| && bs[j] == c;
      assert Disjoint((s + bs)[i], (s + bs)[|s| + j]);
      assert b in world && c in world && b.height != c.height;
    }
    FreshOnTop(t, s, bs);
    RowsRestoredIff(env, world, t, base, s, bs);
  }

  lemma FreshOnTop(t: Tables, s: seq<Block>, bs: seq<Block>)
    requires RowsExact(t, s)
    requires forall b, c | b in s && c in bs :: b.id != c.id && Disjoint(b, c)
    ensures FreshRows(t, bs)
  {
    forall id | id in t.txs ensures !HasTx(bs, id) && t.txs[id] !in Ids(bs) {
      var b :| b in s && id in b.txs;
    }
    forall id | id in t.events ensures !HasEvent(bs, id) {
      var b :| b in s && id in EventIds(b);
    }
    FreshMeansNoneShared(t, bs);
  }
}
