/** The block index: what one index job and one deletion job do to the tables. */
module BlockIndex {
  import opened Options
  import opened Blocks

  /** A missing validator row stands for two zeros. */
  datatype Validator = Validator(generatedBlocks: int, totalCommission: int)

  /** DEX bookkeeping of one block. Each effect is undone by its own inverse and by nothing else. */
  datatype DexOp = AddPrice(id: Id) | ApplySwap(id: Id) | RevertSwap(id: Id) | DeletePrice(id: Id)

  /** The tables. A block row keeps the whole block, so that claims can speak of its parent id
      and its events; the jobs read only what the stored columns hold. */
  datatype Tables = Tables(
    blocks: map<nat, Block>,
    validators: map<Address, Validator>,
    locked: map<Token, int>,
    txs: map<Id, Id>,
    events: map<Id, Id>,
    dex: seq<DexOp>)

  const EMPTY := Tables(map[], map[], map[], map[], map[], [])

  /** What stays fixed: the genesis height, the amounts the genesis assets lock, and the
      commission of a generator for a height and reward. */
  datatype Env = Env(
    genesisHeight: nat,
    genesisLocked: map<Token, int>,
    commission: (Address, nat, nat) -> int)

  // ---- Reading the tables ----

  function Stored(locked: map<Token, int>, t: Token): int {
    if t in locked then locked[t] else 0
  }

  function Generated(t: Tables, a: Address): int {
    if a in t.validators then t.validators[a].generatedBlocks else 0
  }

  function Commission(t: Tables, a: Address): int {
    if a in t.validators then t.validators[a].totalCommission else 0
  }

  lemma {:induction false} HighestExists(s: set<nat>)
    requires s != {}
    ensures exists h :: h in s && forall x | x in s :: x <= h
  {
    var x :| x in s;
    var rest := s - {x};
    assert forall y :: y in s <==> y == x || y in rest;
    if rest == {} {
      assert forall y | y in s :: y <= x;
    } else {
      HighestExists(rest);
      var h :| h in rest && forall y | y in rest :: y <= h;
      var top := if x > h then x else h;
      assert top in s && forall y | y in s :: y <= top;
    }
  }

  /** ORDER BY height DESC LIMIT 1. */
  function Highest(blocks: map<nat, Block>): (h: nat)
    requires blocks != map[]
    ensures h in blocks && forall x | x in blocks :: x <= h
  {
    assert blocks.Keys != {};
    HighestExists(blocks.Keys);
    var h :| h in blocks && forall x | x in blocks :: x <= h;
    h
  }

  /** The rows at or above a height, highest first. */
  function RowsFrom(blocks: map<nat, Block>, low: nat): seq<Block>
    decreases |blocks|
  {
    if blocks == map[] || Highest(blocks) < low then []
    else
      var top := Highest(blocks);
      var rest := blocks - {top};
      assert rest.Keys == blocks.Keys - {top};
      [blocks[top]] + RowsFrom(rest, low)
  }

  // ---- Effects of one block ----

  /** The stored totals are read outside the transaction (`committed`) and written inside it. */
  ghost function AddToTotals(committed: map<Token, int>, work: map<Token, int>,
                             change: map<Token, int>): (r: map<Token, int>)
    ensures forall t :: t in r <==> t in work || t in change
    ensures forall t | t in r ::
              r[t] == if t in change then Stored(committed, t) + change[t] else work[t]
    decreases |change|
  {
    if change == map[] then work
    else
      assert change.Keys != {};
      var t :| t in change;
      var rest := change - {t};
      assert rest.Keys == change.Keys - {t};
      AddToTotals(committed, work, rest)[t := Stored(committed, t) + change[t]]
  }

  method UpdateTotalLockedAmounts(committed: map<Token, int>, work: map<Token, int>,
                                  change: map<Token, int>) returns (r: map<Token, int>)
    ensures r == AddToTotals(committed, work, change)
  {
    r := work;
    var tokens := change.Keys;
    while tokens != {}
      invariant tokens <= change.Keys
      invariant forall t :: t in r <==> t in work || (t in change && t !in tokens)
      invariant forall t | t in r ::
                  r[t] == if t in change && t !in tokens then Stored(committed, t) + change[t]
                          else work[t]
    {
      var t :| t in tokens;
      r := r[t := Stored(committed, t) + change[t]];
      tokens := tokens - {t};
    }
  }

  /** Upserting one row per id. */
  function AddRows(rows: map<Id, Id>, ids: seq<Id>, value: Id): (r: map<Id, Id>)
    ensures forall id :: id in r <==> id in rows || id in ids
    ensures forall id | id in r :: r[id] == if id in ids then value else rows[id]
  {
    if ids == [] then rows
    else AddRows(rows, ids[..|ids| - 1], value)[ids[|ids| - 1] := value]
  }

  function Credit(validators: map<Address, Validator>, a: Address, blocks: int, commission: int)
    : map<Address, Validator>
  {
    if a !in validators then validators
    else
      var v := validators[a];
      validators[a := Validator(v.generatedBlocks + blocks, v.totalCommission + commission)]
  }

  function BlockCommission(env: Env, b: Block): int {
    var reward := Reward(b.events);
    if reward == 0 then 0 else env.commission(b.generator, b.height, reward)
  }

  /** An inverse cancels the effect it undoes when that effect is the latest one. */
  function PushDex(log: seq<DexOp>, op: DexOp): seq<DexOp> {
    if log != [] && (
         (op.RevertSwap? && log[|log| - 1] == ApplySwap(op.id)) ||
         (op.DeletePrice? && log[|log| - 1] == AddPrice(op.id)))
    then log[..|log| - 1]
    else log + [op]
  }

  function EventIds(b: Block): (ids: seq<Id>)
    ensures |ids| == |b.events|
    ensures forall i | 0 <= i < |ids| :: ids[i] == b.events[i].id
  {
    seq(|b.events|, i requires 0 <= i < |b.events| => b.events[i].id)
  }

  /** The tables after the transaction that indexes block `b` on top of tables `t`. */
  ghost function IndexTables(env: Env, t: Tables, b: Block): Tables {
    var locked := if b.height == env.genesisHeight
                  then AddToTotals(t.locked, t.locked, env.genesisLocked) else t.locked;
    var rows := if b.generator in t.validators then t.validators
                else t.validators[b.generator := Validator(0, 0)];
    Tables(
      t.blocks[b.height := b],
      Credit(rows, b.generator, 1, BlockCommission(env, b)),
      AddToTotals(t.locked, locked, Change(b.events, false)),
      AddRows(t.txs, b.txs, b.id),
      AddRows(t.events, EventIds(b), b.id),
      PushDex(PushDex(t.dex, AddPrice(b.id)), ApplySwap(b.id)))
  }

  /** Undoing one block inside a deletion transaction that began at the tables `committed`. */
  ghost function RevertBlock(env: Env, committed: Tables, work: Tables, b: Block): Tables {
    if b.height !in committed.blocks then work
    else
      work.(
        validators := Credit(work.validators, b.generator, -1, -BlockCommission(env, b)),
        locked := AddToTotals(committed.locked, work.locked, Change(b.events, true)),
        txs := work.txs - (set id | id in committed.txs && committed.txs[id] == b.id),
        events := work.events - (set id | id in EventIds(b)),
        dex := PushDex(PushDex(work.dex, RevertSwap(b.id)), DeletePrice(b.id)))
  }

  ghost function RevertBlocks(env: Env, committed: Tables, work: Tables, list: seq<Block>): Tables {
    if list == [] then work
    else RevertBlock(env, committed,
                     RevertBlocks(env, committed, work, list[..|list| - 1]), list[|list| - 1])
  }

  function Ids(list: seq<Block>): set<Id> {
    set b | b in list :: b.id
  }

  function Lowest(heights: seq<nat>): nat
    requires heights != []
  {
    if |heights| == 1 then heights[0]
    else
      var m := Lowest(heights[1..]);
      if heights[0] < m then heights[0] else m
  }

  /** The rows a deletion job removes: everything from its lowest height up. */
  function BlocksToDelete(blocks: map<nat, Block>, heights: seq<nat>): seq<Block> {
    if heights == [] then [] else RowsFrom(blocks, Lowest(heights))
  }

  /** Rows are removed by block id. */
  function WithoutIds(blocks: map<nat, Block>, ids: set<Id>): map<nat, Block> {
    blocks - (set h | h in blocks && blocks[h].id in ids)
  }

  /** The tables after a committed deletion job for blocks at the given heights. */
  ghost function DeleteTables(env: Env, t: Tables, heights: seq<nat>): Tables {
    var list := BlocksToDelete(t.blocks, heights);
    RevertBlocks(env, t, t, list).(blocks := WithoutIds(t.blocks, Ids(list)))
  }

  // ---- The decision of an index job ----

  datatype Outcome = Skipped | Failed | Indexed(block: Block) | DeletionScheduled(block: Block)

  function NodeBlock(env: Env, node: seq<Block>, h: nat): Option<Block> {
    if env.genesisHeight <= h < env.genesisHeight + |node|
    then Some(node[h - env.genesisHeight]) else None
  }

  /** Sequential indexing: always the highest indexed height plus one. */
  function HeightToIndex(blocks: map<nat, Block>, jobHeight: nat): nat {
    if blocks == map[] then jobHeight else Highest(blocks) + 1
  }

  /** The height an index job picks is never indexed yet, so the branches that compare the
      node's block with an indexed block at the same height are never entered. */
  lemma HeightToIndexIsFree(blocks: map<nat, Block>, jobHeight: nat)
    ensures HeightToIndex(blocks, jobHeight) !in blocks
  {
    if blocks != map[] {
      assert Highest(blocks) + 1 !in blocks;
    }
  }

  /** What an index job does when nothing fails, with the node's chain at that moment. A missing
      parent row makes the job throw; a parent with another id is scheduled for deletion. */
  function Decide(env: Env, blocks: map<nat, Block>, jobHeight: nat, currentHeight: nat,
                  node: seq<Block>): Outcome
  {
    var h := HeightToIndex(blocks, jobHeight);
    if blocks != map[] && currentHeight < h then Skipped
    else match NodeBlock(env, node, h)
      case None => Failed
      case Some(b) =>
        if h <= env.genesisHeight + 1 then Indexed(b)
        else if h - 1 !in blocks then Failed
        else if blocks[h - 1].id != b.prev then DeletionScheduled(blocks[h - 1])
        else Indexed(b)
  }

  /** One index job; a fault anywhere before the commit rolls everything back. */
  ghost function IndexJob(env: Env, t: Tables, jobHeight: nat, currentHeight: nat, node: seq<Block>,
                    fault: bool): (Tables, Outcome)
  {
    if fault then (t, Failed)
    else
      var out := Decide(env, t.blocks, jobHeight, currentHeight, node);
      (if out.Indexed? then IndexTables(env, t, out.block) else t, out)
  }

  /** One deletion job, with the same all-or-nothing reading of its transaction. */
  ghost function DeleteJob(env: Env, t: Tables, heights: seq<nat>, fault: bool): Tables {
    if fault then t else DeleteTables(env, t, heights)
  }

  // ---- The jobs as code over the database ----

  /** Taking a block and its commission off its generator's row. */
  method DebitGenerator(env: Env, validators: map<Address, Validator>, b: Block)
    returns (vs: map<Address, Validator>)
    ensures vs == Credit(validators, b.generator, -1, -BlockCommission(env, b))
  {
    vs := validators;
    var a := b.generator;
    if a in vs {
      vs := vs[a := vs[a].(generatedBlocks := vs[a].generatedBlocks - 1)];
      var reward := Reward(b.events);
      if reward != 0 {
        var commission := env.commission(a, b.height, reward);
        vs := vs[a := vs[a].(totalCommission := vs[a].totalCommission - commission)];
      }
    }
  }

  class Database {
    var blocks: map<nat, Block>
    var validators: map<Address, Validator>
    var locked: map<Token, int>
    var txs: map<Id, Id>
    var events: map<Id, Id>
    var dex: seq<DexOp>

    function Snapshot(): Tables
      reads this
    {
      Tables(blocks, validators, locked, txs, events, dex)
    }

    constructor ()
      ensures Snapshot() == EMPTY
    {
      blocks, validators, locked, txs, events, dex := map[], map[], map[], map[], map[], [];
    }

    method Commit(t: Tables)
      modifies this
      ensures Snapshot() == t
    {
      blocks, validators, locked := t.blocks, t.validators, t.locked;
      txs, events, dex := t.txs, t.events, t.dex;
    }

    method IndexBlock(env: Env, jobHeight: nat, currentHeight: nat, node: seq<Block>, fault: bool)
      returns (out: Outcome)
      modifies this
      ensures (Snapshot(), out) ==
              IndexJob(env, old(Snapshot()), jobHeight, currentHeight, node, fault)
    {
      hide IndexTables;
      if fault { return Failed; }
      var height := jobHeight;
      if blocks != map[] {
        height := Highest(blocks) + 1;
        if currentHeight < height { return Skipped; }
      }
      if height < env.genesisHeight || height >= env.genesisHeight + |node| { return Failed; }
      var block := node[height - env.genesisHeight];
      if height > env.genesisHeight + 1 {
        if height - 1 !in blocks { return Failed; }
        var parent := blocks[height - 1];
        if parent.id != block.prev { return DeletionScheduled(parent); }
      }
      var t := ExtendWith(env, block);
      Commit(t);
      out := Indexed(block);
    }

    /** The statements of the indexing transaction, in their order. */
    method ExtendWith(env: Env, b: Block) returns (t: Tables)
      ensures t == IndexTables(env, Snapshot(), b)
    {
      var totals := locked;
      if b.height == env.genesisHeight {
        totals := UpdateTotalLockedAmounts(locked, totals, env.genesisLocked);
      }
      var txRows := AddRows(txs, b.txs, b.id);
      var vs := CreditGenerator(env, b);
      var eventRows := events;
      if b.events != [] {
        eventRows := AddRows(events, EventIds(b), b.id);
        var change := LockedChange(b.events, false);
        totals := UpdateTotalLockedAmounts(locked, totals, change);
      }
      var log := PushDex(dex, AddPrice(b.id));
      log := PushDex(log, ApplySwap(b.id));
      t := Tables(blocks[b.height := b], vs, totals, txRows, eventRows, log);
    }

    /** Counting the block for its generator, then the generator's commission. */
    method CreditGenerator(env: Env, b: Block) returns (vs: map<Address, Validator>)
      ensures vs == IndexTables(env, Snapshot(), b).validators
    {
      vs := validators;
      var a := b.generator;
      if a in vs {
        vs := vs[a := vs[a].(generatedBlocks := vs[a].generatedBlocks + 1)];
      } else {
        vs := vs[a := Validator(1, 0)];
      }
      var reward := Reward(b.events);
      if reward != 0 {
        var commission := env.commission(a, b.height, reward);
        vs := vs[a := vs[a].(totalCommission := vs[a].totalCommission + commission)];
      }
    }

    /** Undoing one block in the deletion transaction `work`; reads see the committed tables. */
    method Undo(env: Env, work: Tables, b: Block) returns (t: Tables)
      ensures t == RevertBlock(env, Snapshot(), work, b)
    {
      if b.height !in blocks { return work; }
      var forked := set id | id in txs && txs[id] == b.id;
      var vs := DebitGenerator(env, work.validators, b);
      var change := LockedChange(b.events, true);
      var totals := UpdateTotalLockedAmounts(locked, work.locked, change);
      var log := PushDex(work.dex, RevertSwap(b.id));
      log := PushDex(log, DeletePrice(b.id));
      t := Tables(work.blocks, vs, totals, work.txs - forked,
                  work.events - (set id | id in EventIds(b)), log);
    }

    method DeleteIndexedBlocks(env: Env, heights: seq<nat>, fault: bool)
      modifies this
      ensures Snapshot() == DeleteJob(env, old(Snapshot()), heights, fault)
    {
      var list := BlocksToDelete(blocks, heights);
      var committed := Snapshot();
      var t := committed;
      for i := 0 to |list|
        invariant Snapshot() == committed
        invariant t == RevertBlocks(env, committed, committed, list[..i])
      {
        assert list[..i + 1][..i] == list[..i];
        t := Undo(env, t, list[i]);
      }
      assert list[..|list|] == list;
      if fault { return; }
      Commit(t.(blocks := WithoutIds(blocks, Ids(list))));
    }
  }
}
