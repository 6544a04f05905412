/** When the stored locked totals are exact, and a reachable state in which they are not. */
module LockedTotals {
  import opened Blocks
  import opened BlockIndex
  import opened IndexRuns
  import opened Convergence

  /** The promise: each stored total is the genesis amount plus locks minus unlocks over the
      events of all indexed blocks. */
  ghost predicate TotalsExact(env: Env, t: Tables, s: seq<Block>) {
    forall token :: Stored(t.locked, token) == Sum(s, LockWeight(env, token))
  }

  /** A deletion above genesis keeps exact totals exact if and only if, for every token, the rows
      it removes net to what the lowest of them that mentions the token nets to. */
  lemma DeletionKeepsTotalsExactIff(env: Env, t: Tables, base: nat, s: seq<Block>,
                                    heights: seq<nat>)
    requires Represents(t.blocks, base, s) && heights != []
    requires forall h | h in heights :: h > env.genesisHeight
    requires TotalsExact(env, t, s)
    ensures TotalsExact(env, DeleteTables(env, t, heights),
                        s[..Kept(base, |s|, Lowest(heights))])
            <==> forall token ::
                   Sum(BlocksToDelete(t.blocks, heights), NetWeight(token))
                   == LastNet(BlocksToDelete(t.blocks, heights), token)
  {
    var k := Kept(base, |s|, Lowest(heights));
    var list := BlocksToDelete(t.blocks, heights);
    forall token
      ensures Stored(DeleteTables(env, t, heights).locked, token)
              == Sum(s[..k], LockWeight(env, token))
              <==> Sum(list, NetWeight(token)) == LastNet(list, token)
    {
      DeletionTotals(env, t, base, s, heights, token);
    }
  }

  /** At most one block of the list mentions the token. */
  ghost predicate MentionedOnce(list: seq<Block>, token: Token) {
    forall i, j | 0 <= i < j < |list| ::
      token !in Mentioned(list[i].events) || token !in Mentioned(list[j].events)
  }

  lemma {:induction false} UnmentionedSumsZero(list: seq<Block>, token: Token)
    requires forall i | 0 <= i < |list| :: token !in Mentioned(list[i].events)
    ensures Sum(list, NetWeight(token)) == 0
  {
    if list != [] {
      UnmentionedSumsZero(list[..|list| - 1], token);
      UnmentionedNetsZero(list[|list| - 1].events, token);
    }
  }

  /** In particular nothing is lost when no two deleted blocks mention the same token, so a
      deletion of a single block is always exact. */
  lemma {:induction false} MentionedOnceLosesNothing(list: seq<Block>, token: Token)
    requires MentionedOnce(list, token)
    ensures Overwritten(list, token) == 0
  {
    if list != [] {
      var init, last := list[..|list| - 1], list[|list| - 1];
      if token in Mentioned(last.events) {
        UnmentionedSumsZero(init, token);
      } else {
        MentionedOnceLosesNothing(init, token);
        UnmentionedNetsZero(last.events, token);
      }
    }
  }

  /** Genesis itself is indexed exactly if and only if no token with genesis assets is mentioned
      by the genesis events. */
  lemma GenesisTotalsExactIff(env: Env, genesis: Block)
    requires genesis.height == env.genesisHeight
    ensures TotalsExact(env, IndexTables(env, EMPTY, genesis), [genesis])
            <==> forall token | token in Mentioned(genesis.events) ::
                   Stored(env.genesisLocked, token) == 0
  {
    forall token
      ensures Stored(IndexTables(env, EMPTY, genesis).locked, token)
              == Sum([genesis], LockWeight(env, token))
              <==> (token in Mentioned(genesis.events) ==> Stored(env.genesisLocked, token) == 0)
    {
      IndexingTotals(env, EMPTY, genesis, token);
      SumPush([], genesis, LockWeight(env, token));
      assert [] + [genesis] == [genesis];
    }
  }

  // ---- A reachable state with a wrong total ----

  const GENESIS := Block("g", 0, "", "v", [], [])
  const LOWER := Block("a", 1, "g", "v", [], [Event("ea", Lock("K", 5))])
  const UPPER := Block("b", 2, "a", "v", [], [Event("eb", Lock("K", 7))])
  const NODE := [GENESIS, LOWER, UPPER]
  ghost const WORLD := iset{GENESIS, LOWER, UPPER}

  /** Index genesis and two blocks that lock 5 and 7 of one token, then delete both. */
  function Scenario(): seq<Step> {
    [ IndexStep(0, 2, NODE, false), IndexStep(1, 2, NODE, false), IndexStep(2, 2, NODE, false),
      DeleteStep([1], false) ]
  }

  lemma NodeIsValid(env: Env)
    requires env.genesisHeight == 0
    ensures IdsFaithful(WORLD) && ValidNode(env, WORLD, GENESIS, NODE)
  {
    forall i | 0 <= i < |NODE| ensures LinkedAt(NODE, i) {
    }
  }

  lemma ScenarioIsLegal(env: Env)
    requires env.genesisHeight == 0
    ensures LegalRun(env, WORLD, GENESIS, Scenario())
  {
    NodeIsValid(env);
  }

  lemma ScenarioNets()
    ensures Net(LOWER.events, "K") == 5 && "K" in Mentioned(LOWER.events)
    ensures Net(UPPER.events, "K") == 7 && "K" in Mentioned(UPPER.events)
  {
    assert LOWER.events[..0] == [] && UPPER.events[..0] == [];
    assert LOWER.events[0] in LOWER.events && UPPER.events[0] in UPPER.events;
    assert LOWER.events[0].kind.token in Mentioned(LOWER.events);
    assert UPPER.events[0].kind.token in Mentioned(UPPER.events);
  }

  /** An index job of the scenario adds the node's next block. */
  lemma ScenarioStep(env: Env, t: Tables, k: nat)
    requires env.genesisHeight == 0 && k < |NODE|
    requires Represents(t.blocks, 0, NODE[..k])
    ensures Apply(env, t, Scenario()[k]) == IndexTables(env, t, NODE[k])
    ensures Represents(IndexTables(env, t, NODE[k]).blocks, 0, NODE[..k + 1])
  {
    NodeIsValid(env);
    AgreeingJobIndexes(env, WORLD, GENESIS, t.blocks, k, NODE, k, 2);
    IndexingExtends(t.blocks, 0, NODE[..k], NODE[k]);
    assert NODE[..k] + [NODE[k]] == NODE[..k + 1];
  }

  lemma RunExtends(env: Env, steps: seq<Step>, k: nat)
    requires k < |steps|
    ensures Run(env, steps[..k + 1]) == Apply(env, Run(env, steps[..k]), steps[k])
  {
    assert steps[..k + 1][..k] == steps[..k];
  }

  /** The state after the first `k` index jobs of the scenario. */
  lemma {:induction false} ScenarioIndexes(env: Env, k: nat)
    requires env.genesisHeight == 0 && env.genesisLocked == map[] && k <= |NODE|
    ensures Represents(Run(env, Scenario()[..k]).blocks, 0, NODE[..k])
    ensures Stored(Run(env, Scenario()[..k]).locked, "K")
            == if k <= 1 then 0 else if k == 2 then 5 else 12
  {
    if k > 0 {
      ScenarioIndexes(env, k - 1);
      var t := Run(env, Scenario()[..k - 1]);
      RunExtends(env, Scenario(), k - 1);
      ScenarioStep(env, t, k - 1);
      IndexingTotals(env, t, NODE[k - 1], "K");
      ScenarioNets();
    }
  }

  /** Only genesis is left, it locks nothing, and yet the stored total is 7: the change of the
      upper block was overwritten by that of the lower one. */
  lemma DeletedLocksStayCounted(env: Env)
    requires env.genesisHeight == 0 && env.genesisLocked == map[]
    ensures LegalRun(env, WORLD, GENESIS, Scenario())
    ensures Represents(Run(env, Scenario()).blocks, 0, [GENESIS])
    ensures Sum([GENESIS], LockWeight(env, "K")) == 0
    ensures Stored(Run(env, Scenario()).locked, "K") == 7
  {
    ScenarioIsLegal(env);
    ScenarioIndexes(env, 3);
    var t := Run(env, Scenario()[..3]);
    RunExtends(env, Scenario(), 3);
    assert Scenario()[..4] == Scenario();
    assert NODE[..3] == NODE && NODE[..1] == [GENESIS];
    NodeIsValid(env);
    DeletionTruncates(env, WORLD, t, 0, NODE, [1]);
    ScenarioDeletion(env, t);
    assert [GENESIS][..0] == [];
  }

  lemma ScenarioDeletion(env: Env, t: Tables)
    requires Represents(t.blocks, 0, NODE)
    ensures Stored(DeleteTables(env, t, [1]).locked, "K") == Stored(t.locked, "K") - 5
  {
    RowsFromTop(t.blocks, 0, NODE, 1);
    var list := BlocksToDelete(t.blocks, [1]);
    assert list == [UPPER, LOWER];
    forall b | b in list ensures b.height in t.blocks {
      DeletedRowsAreIndexed(t.blocks, 0, NODE, [1], b);
    }
    RevertingTotals(env, t, list, "K");
    ScenarioNets();
  }
}
