/** Indexing further blocks and deleting them again. */
module RoundTrip {
  import opened Blocks
  import opened BlockIndex
  import opened IndexRuns

  /** The tables after committed index jobs for the blocks, in order. */
  ghost function IndexAll(env: Env, t: Tables, bs: seq<Block>): Tables {
    if bs == [] then t
    else IndexTables(env, IndexAll(env, t, bs[..|bs| - 1]), bs[|bs| - 1])
  }

  /** `bs` continues the index above genesis. */
  ghost predicate Continues(env: Env, world: iset<Block>, t: Tables, base: nat, s: seq<Block>,
                            bs: seq<Block>)
  {
    && IdsFaithful(world) && Within(s, world) && Within(bs, world)
    && Represents(t.blocks, base, s)
    && base + |s| > env.genesisHeight
    && forall i | 0 <= i < |bs| :: bs[i].height == base + |s| + i
  }

  ghost function AfterRoundTrip(env: Env, t: Tables, bs: seq<Block>): Tables
    requires bs != []
  {
    DeleteTables(env, IndexAll(env, t, bs), [bs[0].height])
  }

  lemma ContinuesShorter(env: Env, world: iset<Block>, t: Tables, base: nat, s: seq<Block>,
                         bs: seq<Block>)
    requires Continues(env, world, t, base, s, bs) && bs != []
    ensures Continues(env, world, t, base, s, bs[..|bs| - 1])
  {
  }

  // ---- Block rows ----

  lemma {:induction false} IndexAllExtends(env: Env, world: iset<Block>, t: Tables, base: nat,
                                           s: seq<Block>, bs: seq<Block>)
    requires Continues(env, world, t, base, s, bs)
    ensures Represents(IndexAll(env, t, bs).blocks, base, s + bs)
  {
    if bs == [] {
      assert s + bs == s;
    } else {
      var init, last := bs[..|bs| - 1], bs[|bs| - 1];
      ContinuesShorter(env, world, t, base, s, bs);
      IndexAllExtends(env, world, t, base, s, init);
      assert s + bs == s + init + [last];
      IndexingExtends(IndexAll(env, t, init).blocks, base, s + init, last);
    }
  }

  lemma RepresentedRowsAreUnique(m: map<nat, Block>, n: map<nat, Block>, base: nat, s: seq<Block>)
    requires Represents(m, base, s) && Represents(n, base, s)
    ensures m == n
  {
    forall h | h in m ensures h in n && m[h] == n[h] {
      assert m[base + (h - base)] == s[h - base];
    }
  }

  /** The deletion works through exactly the new blocks, highest first. */
  lemma DeletionListIsNewBlocks(env: Env, world: iset<Block>, t: Tables, base: nat, s: seq<Block>,
                                bs: seq<Block>)
    requires Continues(env, world, t, base, s, bs) && bs != []
    ensures BlocksToDelete(IndexAll(env, t, bs).blocks, [bs[0].height]) == Reverse(bs)
    ensures forall b | b in Reverse(bs) :: b in bs && b.height in IndexAll(env, t, bs).blocks
  {
    IndexAllExtends(env, world, t, base, s, bs);
    var blocks := IndexAll(env, t, bs).blocks;
    RowsFromTop(blocks, base, s + bs, bs[0].height);
    assert (s + bs)[|s|..] == bs;
    forall b | b in Reverse(bs) ensures b in bs && b.height in blocks {
      var i :| 0 <= i < |bs| && Reverse(bs)[i] == b;
      assert b == bs[|bs| - 1 - i];
    }
  }

  /** The block rows are restored. */
  lemma BlocksRestored(env: Env, world: iset<Block>, t: Tables, base: nat, s: seq<Block>,
                       bs: seq<Block>)
    requires Continues(env, world, t, base, s, bs) && bs != []
    ensures AfterRoundTrip(env, t, bs).blocks == t.blocks
  {
    IndexAllExtends(env, world, t, base, s, bs);
    var t' := IndexAll(env, t, bs);
    assert Within(s + bs, world);
    DeletionTruncates(env, world, t', base, s + bs, [bs[0].height]);
    assert (s + bs)[..|s|] == s;
    RepresentedRowsAreUnique(AfterRoundTrip(env, t, bs).blocks, t.blocks, base, s);
  }

  // ---- Counts, commissions and locked totals ----

  lemma {:induction false} IndexAllCounts(env: Env, t: Tables, bs: seq<Block>, a: Address)
    ensures var t' := IndexAll(env, t, bs);
            && Generated(t', a) == Generated(t, a) + Sum(bs, GenWeight(a))
            && Commission(t', a) == Commission(t, a) + Sum(bs, CommissionWeight(env, a))
            && (forall b | b in bs :: b.generator in t'.validators)
  {
    if bs != [] {
      var init, last := bs[..|bs| - 1], bs[|bs| - 1];
      IndexAllCounts(env, t, init, a);
      IndexingCounts(env, IndexAll(env, t, init), last);
      assert forall b | b in bs :: b in init || b == last;
    }
  }

  /** The round trip, without the block rows, is the reverting of the new blocks. */
  lemma RoundTripReverts(env: Env, t: Tables, bs: seq<Block>)
    requires bs != []
    requires BlocksToDelete(IndexAll(env, t, bs).blocks, [bs[0].height]) == Reverse(bs)
    ensures var t' := IndexAll(env, t, bs);
            AfterRoundTrip(env, t, bs)
            == RevertBlocks(env, t', t', Reverse(bs))
                 .(blocks := AfterRoundTrip(env, t, bs).blocks)
  {
    hide IndexAll, RevertBlocks, BlocksToDelete;
  }

  lemma SameCounts(t: Tables, r: Tables, a: Address)
    requires t.validators == r.validators
    ensures Generated(t, a) == Generated(r, a) && Commission(t, a) == Commission(r, a)
  {
  }

  /** Every validator's count and commission are restored; a missing row counts as zero. */
  lemma CountsRestored(env: Env, world: iset<Block>, t: Tables, base: nat, s: seq<Block>,
                       bs: seq<Block>, a: Address)
    requires Continues(env, world, t, base, s, bs) && bs != []
    ensures Generated(AfterRoundTrip(env, t, bs), a) == Generated(t, a)
    ensures Commission(AfterRoundTrip(env, t, bs), a) == Commission(t, a)
  {
    hide *;
    var t' := IndexAll(env, t, bs);
    DeletionListIsNewBlocks(env, world, t, base, s, bs);
    RoundTripReverts(env, t, bs);
    IndexAllCounts(env, t, bs, a);
    RevertingAllCounts(env, t', Reverse(bs), a);
    SumReverse(bs, GenWeight(a));
    SumReverse(bs, CommissionWeight(env, a));
    SameCounts(AfterRoundTrip(env, t, bs), RevertBlocks(env, t', t', Reverse(bs)), a);
  }

  lemma {:induction false} IndexAllTotals(env: Env, t: Tables, bs: seq<Block>, token: Token)
    requires forall b | b in bs :: b.height != env.genesisHeight
    ensures Stored(IndexAll(env, t, bs).locked, token)
            == Stored(t.locked, token) + Sum(bs, NetWeight(token))
  {
    if bs != [] {
      var init, last := bs[..|bs| - 1], bs[|bs| - 1];
      assert last in bs && forall b | b in init :: b in bs;
      IndexAllTotals(env, t, init, token);
      IndexingTotals(env, IndexAll(env, t, init), last, token);
    }
  }

  lemma NewBlocksAreAbove(env: Env, world: iset<Block>, t: Tables, base: nat, s: seq<Block>,
                          bs: seq<Block>)
    requires Continues(env, world, t, base, s, bs)
    ensures forall b | b in bs :: b.height != env.genesisHeight
  {
  }

  /** A locked total is restored if and only if the new blocks together net to what the lowest of
      them that mentions the token nets to; what is left over otherwise is given exactly. */
  lemma TotalsRestoredIff(env: Env, world: iset<Block>, t: Tables, base: nat, s: seq<Block>,
                          bs: seq<Block>, token: Token)
    requires Continues(env, world, t, base, s, bs) && bs != []
    ensures Stored(AfterRoundTrip(env, t, bs).locked, token)
            == Stored(t.locked, token) + Sum(bs, NetWeight(token)) - LastNet(Reverse(bs), token)
    ensures Stored(AfterRoundTrip(env, t, bs).locked, token) == Stored(t.locked, token)
            <==> Sum(bs, NetWeight(token)) == LastNet(Reverse(bs), token)
  {
    var t' := IndexAll(env, t, bs);
    NewBlocksAreAbove(env, world, t, base, s, bs);
    hide *;
    DeletionListIsNewBlocks(env, world, t, base, s, bs);
    RoundTripReverts(env, t, bs);
    IndexAllTotals(env, t, bs, token);
    RevertingTotals(env, t', Reverse(bs), token);
  }

  // ---- Transaction and event rows ----

  /** The ids of the new rows are new, and no old row already names one of the new blocks. */
  ghost predicate FreshRows(t: Tables, bs: seq<Block>) {
    && (forall b, id | b in bs && id in b.txs :: id !in t.txs)
    && (forall b, id | b in bs && id in EventIds(b) :: id !in t.events)
    && (forall id | id in t.txs :: t.txs[id] !in Ids(bs))
  }

  ghost predicate HasTx(bs: seq<Block>, id: Id) {
    exists b :: b in bs && id in b.txs
  }

  ghost predicate HasEvent(bs: seq<Block>, id: Id) {
    exists b :: b in bs && id in EventIds(b)
  }

  lemma IndexingSetsRows(env: Env, t: Tables, b: Block)
    ensures IndexTables(env, t, b).txs == AddRows(t.txs, b.txs, b.id)
    ensures IndexTables(env, t, b).events == AddRows(t.events, EventIds(b), b.id)
  {
    hide AddRows, AddToTotals, Credit, PushDex;
  }

  lemma {:induction false} IndexAllRows(env: Env, t: Tables, bs: seq<Block>, id: Id)
    ensures var t' := IndexAll(env, t, bs);
            && (id in t'.txs <==> id in t.txs || HasTx(bs, id))
            && (HasTx(bs, id) ==> t'.txs[id] in Ids(bs))
            && (id in t.txs && !HasTx(bs, id) ==> t'.txs[id] == t.txs[id])
            && (id in t'.events <==> id in t.events || HasEvent(bs, id))
            && (id in t.events && !HasEvent(bs, id) ==> t'.events[id] == t.events[id])
  {
    if bs != [] {
      hide IndexTables;
      var init, last := bs[..|bs| - 1], bs[|bs| - 1];
      IndexingSetsRows(env, IndexAll(env, t, init), last);
      assert forall b :: b in bs <==> b in init || b == last;
      IndexAllRows(env, t, init, id);
      assert HasTx(bs, id) <==> HasTx(init, id) || id in last.txs;
      assert HasEvent(bs, id) <==> HasEvent(init, id) || id in EventIds(last);
      assert last.id in Ids(bs) && Ids(init) <= Ids(bs);
    }
  }

  lemma {:induction false} RevertingRows(env: Env, committed: Tables, list: seq<Block>, id: Id)
    requires forall b | b in list :: b.height in committed.blocks
    ensures var t' := RevertBlocks(env, committed, committed, list);
            && (id in t'.txs <==> id in committed.txs && committed.txs[id] !in Ids(list))
            && (id in t'.txs ==> t'.txs[id] == committed.txs[id])
            && (id in t'.events <==> id in committed.events && !HasEvent(list, id))
            && (id in t'.events ==> t'.events[id] == committed.events[id])
  {
    if list != [] {
      var init, last := list[..|list| - 1], list[|list| - 1];
      assert forall b :: b in list <==> b in init || b == last;
      RevertingRows(env, committed, init, id);
      assert HasEvent(list, id) <==> HasEvent(init, id) || id in EventIds(last);
      assert Ids(list) == Ids(init) + {last.id};
    }
  }

  lemma SameBlocksReversed(bs: seq<Block>, b: Block)
    ensures b in Reverse(bs) <==> b in bs
  {
    if b in bs {
      var i :| 0 <= i < |bs| && bs[i] == b;
      assert Reverse(bs)[|bs| - 1 - i] == b;
    }
  }

  lemma SameEventsReversed(bs: seq<Block>, id: Id)
    ensures HasEvent(Reverse(bs), id) <==> HasEvent(bs, id)
  {
    forall b ensures b in Reverse(bs) <==> b in bs {
      SameBlocksReversed(bs, b);
    }
  }

  /** The old rows that are left: those that neither share an id with a new row nor name a new
      block. */
  lemma RowsLeft(env: Env, world: iset<Block>, t: Tables, base: nat, s: seq<Block>,
                 bs: seq<Block>, id: Id)
    requires Continues(env, world, t, base, s, bs) && bs != []
    ensures var r := AfterRoundTrip(env, t, bs);
            && (id in r.txs <==> id in t.txs && !HasTx(bs, id) && t.txs[id] !in Ids(bs))
            && (id in r.txs ==> r.txs[id] == t.txs[id])
            && (id in r.events <==> id in t.events && !HasEvent(bs, id))
            && (id in r.events ==> r.events[id] == t.events[id])
  {
    var t' := IndexAll(env, t, bs);
    DeletionListIsNewBlocks(env, world, t, base, s, bs);
    hide IndexAll, RevertBlocks, HasTx, HasEvent, Continues, Ids;
    ReverseIds(bs);
    IndexAllRows(env, t, bs, id);
    RevertingRows(env, t', Reverse(bs), id);
    SameEventsReversed(bs, id);
  }

  /** The transaction and event rows are restored if and only if the new rows are fresh. */
  lemma RowsRestoredIff(env: Env, world: iset<Block>, t: Tables, base: nat, s: seq<Block>,
                        bs: seq<Block>)
    requires Continues(env, world, t, base, s, bs) && bs != []
    ensures (&& AfterRoundTrip(env, t, bs).txs == t.txs
             && AfterRoundTrip(env, t, bs).events == t.events)
            <==> FreshRows(t, bs)
  {
    hide AfterRoundTrip, Continues;
    var r := AfterRoundTrip(env, t, bs);
    forall id ensures && (id in r.txs <==> id in t.txs && !HasTx(bs, id) && t.txs[id] !in Ids(bs))
                      && (id in r.txs ==> r.txs[id] == t.txs[id])
                      && (id in r.events <==> id in t.events && !HasEvent(bs, id))
                      && (id in r.events ==> r.events[id] == t.events[id])
    {
      RowsLeft(env, world, t, base, s, bs, id);
    }
    FreshMeansNoneShared(t, bs);
  }

  lemma FreshMeansNoneShared(t: Tables, bs: seq<Block>)
    ensures FreshRows(t, bs) <==>
      && (forall id | id in t.txs :: !HasTx(bs, id) && t.txs[id] !in Ids(bs))
      && (forall id | id in t.events :: !HasEvent(bs, id))
  {
    hide Ids, EventIds;
    if (forall id | id in t.txs :: !HasTx(bs, id)) {
      forall b, id | b in bs && id in b.txs ensures id !in t.txs {
        assert HasTx(bs, id);
      }
    }
    if (forall id | id in t.events :: !HasEvent(bs, id)) {
      forall b, id | b in bs && id in EventIds(b) ensures id !in t.events {
        assert HasEvent(bs, id);
      }
    }
  }

  // ---- DEX effects ----

  ghost function DexLog(bs: seq<Block>): seq<DexOp> {
    if bs == [] then []
    else
      var last := bs[|bs| - 1];
      DexLog(bs[..|bs| - 1]) + [AddPrice(last.id), ApplySwap(last.id)]
  }

  lemma {:induction false} IndexAllDex(env: Env, t: Tables, bs: seq<Block>)
    ensures IndexAll(env, t, bs).dex == t.dex + DexLog(bs)
  {
    hide PushDex, IndexTables;
    if bs != [] {
      var init, last := bs[..|bs| - 1], bs[|bs| - 1];
      IndexAllDex(env, t, init);
      IndexingPushes(env, IndexAll(env, t, init), last);
      assert (t.dex + DexLog(init)) + [AddPrice(last.id), ApplySwap(last.id)]
          == t.dex + (DexLog(init) + [AddPrice(last.id), ApplySwap(last.id)]);
    }
  }

  lemma IndexingPushes(env: Env, t: Tables, b: Block)
    ensures IndexTables(env, t, b).dex == t.dex + [AddPrice(b.id), ApplySwap(b.id)]
  {
    hide AddToTotals, AddRows, Credit;
    assert t.dex + [AddPrice(b.id)] + [ApplySwap(b.id)]
        == t.dex + [AddPrice(b.id), ApplySwap(b.id)];
  }

  /** Reverting the swap and then the price of the latest block leaves the effects below it. */
  lemma RevertingPops(log: seq<DexOp>, id: Id)
    ensures PushDex(PushDex(log + [AddPrice(id), ApplySwap(id)], RevertSwap(id)), DeletePrice(id))
            == log
  {
    var full := log + [AddPrice(id), ApplySwap(id)];
    assert full[..|full| - 1] == log + [AddPrice(id)];
    assert (log + [AddPrice(id)])[..|log|] == log;
  }

  lemma RevertingPopsDex(env: Env, committed: Tables, work: Tables, b: Block, log: seq<DexOp>)
    requires b.height in committed.blocks
    requires work.dex == log + [AddPrice(b.id), ApplySwap(b.id)]
    ensures RevertBlock(env, committed, work, b).dex == log
  {
    hide AddToTotals, Credit;
    RevertingPops(log, b.id);
  }

  lemma DexLogLast(log: seq<DexOp>, bs: seq<Block>, k: nat)
    requires k < |bs|
    ensures log + DexLog(bs[..k + 1])
            == (log + DexLog(bs[..k])) + [AddPrice(bs[k].id), ApplySwap(bs[k].id)]
  {
    assert bs[..k + 1][..k] == bs[..k] && bs[..k + 1][k] == bs[k];
  }

  lemma RevertOneMore(env: Env, committed: Tables, list: seq<Block>, j: nat)
    requires j < |list|
    ensures RevertBlocks(env, committed, committed, list[..j + 1])
            == RevertBlock(env, committed, RevertBlocks(env, committed, committed, list[..j]),
                           list[j])
  {
    assert list[..j + 1][..j] == list[..j];
  }

  /** With the `j` highest blocks reverted, the effects of the others are left. */
  lemma {:induction false} RevertingDex(env: Env, committed: Tables, log: seq<DexOp>,
                                        bs: seq<Block>, j: nat)
    requires j <= |bs| && committed.dex == log + DexLog(bs)
    requires forall b | b in bs :: b.height in committed.blocks
    ensures RevertBlocks(env, committed, committed, Reverse(bs)[..j]).dex
            == log + DexLog(bs[..|bs| - j])
    decreases j
  {
    if j == 0 {
      assert bs[..|bs|] == bs && Reverse(bs)[..0] == [];
    } else {
      hide RevertBlock, RevertBlocks, DexLog;
      RevertingDex(env, committed, log, bs, j - 1);
      var k := |bs| - j;
      var work := RevertBlocks(env, committed, committed, Reverse(bs)[..j - 1]);
      assert Reverse(bs)[j - 1] == bs[k] && bs[k] in bs;
      DexLogLast(log, bs, k);
      RevertingPopsDex(env, committed, work, bs[k], log + DexLog(bs[..k]));
      RevertOneMore(env, committed, Reverse(bs), j - 1);
    }
  }

  /** All DEX effects cancel: the deletion goes highest first, swap before price. */
  lemma DexRestored(env: Env, world: iset<Block>, t: Tables, base: nat, s: seq<Block>,
                    bs: seq<Block>)
    requires Continues(env, world, t, base, s, bs) && bs != []
    ensures AfterRoundTrip(env, t, bs).dex == t.dex
  {
    var t' := IndexAll(env, t, bs);
    DeletionListIsNewBlocks(env, world, t, base, s, bs);
    IndexAllDex(env, t, bs);
    forall b | b in bs ensures b.height in t'.blocks {
      SameBlocksReversed(bs, b);
    }
    RevertingDex(env, t', t.dex, bs, |bs|);
    assert Reverse(bs)[..|bs|] == Reverse(bs) && bs[..0] == [];
  }
}
