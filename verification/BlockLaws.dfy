/** What indexing or reverting one block does to the aggregates, told from its events. */
module BlockLaws {
  import opened Blocks
  import opened BlockIndex
  import opened IndexRuns

  // ---- Rewards and commissions ----

  /** The first reward event of the list is at position `i` and mints `amount`. */
  ghost predicate FirstReward(events: seq<Event>, i: nat, amount: nat) {
    && i < |events| && events[i].kind == RewardMinted(amount)
    && forall j | 0 <= j < i :: !events[j].kind.RewardMinted?
  }

  ghost predicate NoReward(events: seq<Event>) {
    forall j | 0 <= j < |events| :: !events[j].kind.RewardMinted?
  }

  lemma {:induction false} RewardIsTheFirst(events: seq<Event>, i: nat, amount: nat)
    requires FirstReward(events, i, amount)
    ensures Reward(events) == amount
    decreases i
  {
    if i > 0 {
      assert !events[0].kind.RewardMinted?;
      RewardIsTheFirst(events[1..], i - 1, amount);
    }
  }

  lemma {:induction false} NoRewardIsZero(events: seq<Event>)
    requires NoReward(events)
    ensures Reward(events) == 0
  {
    if events != [] {
      assert !events[0].kind.RewardMinted?;
      NoRewardIsZero(events[1..]);
    }
  }

  /** The generator's row gains one block and the commission `amount`; every other row stays. */
  ghost predicate Gains(before: Tables, after: Tables, generator: Address, blocks: int, amount: int)
  {
    forall a ::
      && Generated(after, a) == Generated(before, a) + (if a == generator then blocks else 0)
      && Commission(after, a) == Commission(before, a) + (if a == generator then amount else 0)
  }

  lemma IndexingGains(env: Env, t: Tables, b: Block)
    ensures Gains(t, IndexTables(env, t, b), b.generator, 1, BlockCommission(env, b))
  {
    IndexingCounts(env, t, b);
  }

  lemma RevertingGains(env: Env, committed: Tables, work: Tables, b: Block)
    requires b.height in committed.blocks && b.generator in work.validators
    ensures Gains(work, RevertBlock(env, committed, work, b), b.generator, -1,
                  -BlockCommission(env, b))
  {
    RevertingCounts(env, committed, work, b);
  }

  /** The commission is the one for the first reward event, wherever it stands among the events. */
  lemma FirstRewardIsCredited(env: Env, t: Tables, b: Block, i: nat, amount: nat)
    requires FirstReward(b.events, i, amount)
    ensures Gains(t, IndexTables(env, t, b), b.generator, 1,
                  if amount == 0 then 0 else env.commission(b.generator, b.height, amount))
  {
    RewardIsTheFirst(b.events, i, amount);
    hide IndexTables;
    IndexingGains(env, t, b);
  }

  lemma WithoutRewardNoCommission(env: Env, t: Tables, b: Block)
    requires NoReward(b.events)
    ensures Gains(t, IndexTables(env, t, b), b.generator, 1, 0)
  {
    NoRewardIsZero(b.events);
    hide IndexTables;
    IndexingGains(env, t, b);
  }

  lemma FirstRewardIsDebited(env: Env, committed: Tables, work: Tables, b: Block, i: nat,
                             amount: nat)
    requires b.height in committed.blocks && b.generator in work.validators
    requires FirstReward(b.events, i, amount)
    ensures Gains(work, RevertBlock(env, committed, work, b), b.generator, -1,
                  if amount == 0 then 0 else -env.commission(b.generator, b.height, amount))
  {
    RewardIsTheFirst(b.events, i, amount);
    hide RevertBlock;
    RevertingGains(env, committed, work, b);
  }

  lemma WithoutRewardNoDebit(env: Env, committed: Tables, work: Tables, b: Block)
    requires b.height in committed.blocks && b.generator in work.validators
    requires NoReward(b.events)
    ensures Gains(work, RevertBlock(env, committed, work, b), b.generator, -1, 0)
  {
    NoRewardIsZero(b.events);
    hide RevertBlock;
    RevertingGains(env, committed, work, b);
  }

  // ---- Locked totals ----

  lemma NetOfOneMore(events: seq<Event>, e: Event, token: Token)
    ensures Net(events + [e], token) == Net(events, token) + Effect(e, token)
  {
    assert (events + [e])[..|events|] == events;
  }

  lemma TotalAboveGenesis(env: Env, t: Tables, b: Block, token: Token)
    requires b.height != env.genesisHeight
    ensures Stored(IndexTables(env, t, b).locked, token)
            == Stored(t.locked, token) + Net(b.events, token)
  {
    IndexingTotals(env, t, b, token);
  }

  /** A block above genesis without events leaves every locked total. One more event moves the
      total of its own token, up by a lock and down by an unlock, and no other. */
  lemma EventMovesTotal(env: Env, t: Tables, b: Block, e: Event, token: Token)
    requires b.height != env.genesisHeight
    ensures b.events == [] ==>
      Stored(IndexTables(env, t, b).locked, token) == Stored(t.locked, token)
    ensures
      var more := b.(events := b.events + [e]);
      Stored(IndexTables(env, t, more).locked, token)
      == Stored(IndexTables(env, t, b).locked, token)
         + match e.kind
           case Lock(of, amount) => if of == token then amount else 0
           case Unlock(of, amount) => if of == token then 0 - amount else 0
           case RewardMinted(_) => 0
           case OtherEvent => 0
  {
    hide IndexTables;
    var more := b.(events := b.events + [e]);
    TotalAboveGenesis(env, t, b, token);
    TotalAboveGenesis(env, t, more, token);
    NetOfOneMore(b.events, e, token);
  }

  /** Reverting one block takes its net amount off the committed total. */
  lemma RevertedTotal(env: Env, committed: Tables, work: Tables, b: Block, token: Token)
    requires b.height in committed.blocks
    ensures Stored(RevertBlock(env, committed, work, b).locked, token)
            == if token in Mentioned(b.events)
               then Stored(committed.locked, token) - Net(b.events, token)
               else Stored(work.locked, token)
  {
    ChangeIsNet(b.events, true);
  }
}
