/** The token balances of the genesis block: the base value of the locked totals. */
module GenesisAssets {
  import opened Blocks
  import opened BlockIndex
  import opened IndexRuns

  /** A token balance of a user; each locked amount belongs to some module. */
  datatype User = User(address: Address, token: Token, available: nat, locked: seq<nat>)

  datatype Balance = Balance(address: Address, token: Token, amount: nat)

  ghost function Total(amounts: seq<nat>): nat {
    if amounts == [] then 0 else Total(amounts[..|amounts| - 1]) + amounts[|amounts| - 1]
  }

  ghost function LockedOf(users: seq<User>, t: Token): nat {
    if users == [] then 0
    else
      var last := users[|users| - 1];
      LockedOf(users[..|users| - 1], t) + (if last.token == t then Total(last.locked) else 0)
  }

  ghost function AvailableOf(users: seq<User>, t: Token): nat {
    if users == [] then 0
    else
      var last := users[|users| - 1];
      AvailableOf(users[..|users| - 1], t) + (if last.token == t then last.available else 0)
  }

  ghost function BalanceOf(balances: seq<Balance>, t: Token): nat {
    if balances == [] then 0
    else
      var last := balances[|balances| - 1];
      BalanceOf(balances[..|balances| - 1], t) + (if last.token == t then last.amount else 0)
  }

  lemma {:induction false} TotalAdds(a: seq<nat>, b: seq<nat>, x: nat)
    ensures Total(a + b) == Total(a) + Total(b) && Total([x]) == x
    decreases |b|
  {
    assert [x][..0] == [];
    if b == [] {
      assert a + b == a;
    } else {
      TotalAdds(a, b[..|b| - 1], x);
      assert (a + b)[..|a + b| - 1] == a + b[..|b| - 1];
    }
  }

  /** What one more user locks counts for the user's token alone. */
  lemma LockedAdds(users: seq<User>, u: User, t: Token)
    ensures LockedOf([], t) == 0
    ensures LockedOf(users + [u], t)
            == LockedOf(users, t) + if u.token == t then Total(u.locked) else 0
  {
    assert (users + [u])[..|users|] == users;
  }

  /** Some user has a locked amount of the token, be it zero. */
  ghost predicate LocksToken(users: seq<User>, t: Token) {
    exists u :: u in users && u.token == t && u.locked != []
  }

  method AddLocked(change: map<Token, int>, u: User) returns (r: map<Token, int>)
    ensures forall t :: t in r <==> t in change || (t == u.token && u.locked != [])
    ensures forall t ::
      Stored(r, t) == Stored(change, t) + (if t == u.token then Total(u.locked) else 0)
  {
    r := change;
    assert Total(u.locked[..0]) == 0;
    for i := 0 to |u.locked|
      invariant forall t :: t in r <==> t in change || (t == u.token && i > 0)
      invariant forall t ::
        Stored(r, t) == Stored(change, t) + (if t == u.token then Total(u.locked[..i]) else 0)
    {
      assert u.locked[..i + 1][..i] == u.locked[..i];
      if u.token !in r {
        r := r[u.token := 0];
      }
      r := r[u.token := r[u.token] + u.locked[i]];
    }
    assert u.locked[..|u.locked|] == u.locked;
  }

  method TotalLocked(u: User) returns (sum: nat)
    ensures sum == Total(u.locked)
  {
    sum := 0;
    for i := 0 to |u.locked|
      invariant sum == Total(u.locked[..i])
    {
      assert u.locked[..i + 1][..i] == u.locked[..i];
      sum := sum + u.locked[i];
    }
    assert u.locked[..|u.locked|] == u.locked;
  }

  ghost predicate Balances(users: seq<User>, balances: seq<Balance>) {
    && |balances| == |users|
    && forall i | 0 <= i < |users| ::
         balances[i] == Balance(users[i].address, users[i].token,
                                users[i].available + Total(users[i].locked))
  }

  lemma LocksOneMore(users: seq<User>, i: nat, t: Token)
    requires i < |users|
    ensures LocksToken(users[..i + 1], t)
            <==> LocksToken(users[..i], t) || (t == users[i].token && users[i].locked != [])
    ensures LockedOf(users[..i + 1], t)
            == LockedOf(users[..i], t) + (if t == users[i].token then Total(users[i].locked) else 0)
  {
    var init, all := users[..i], users[..i + 1];
    assert all == init + [users[i]] && all[..i] == init;
    assert users[i] in all;
  }

  /** The locked amounts per token, and the account balances. */
  method IndexTokenModuleAssets(users: seq<User>)
    returns (change: map<Token, int>, balances: seq<Balance>)
    ensures forall t :: t in change <==> LocksToken(users, t)
    ensures forall t :: Stored(change, t) == LockedOf(users, t)
    ensures Balances(users, balances)
  {
    hide LocksToken, LockedOf, Total;
    change, balances := map[], [];
    NothingLocked();
    assert users[..0] == [];
    for i := 0 to |users|
      invariant forall t :: t in change <==> LocksToken(users[..i], t)
      invariant forall t :: Stored(change, t) == LockedOf(users[..i], t)
      invariant Balances(users[..i], balances)
    {
      var u := users[i];
      var sum := TotalLocked(u);
      balances := balances + [Balance(u.address, u.token, u.available + sum)];
      change := AddLocked(change, u);
      forall t
        ensures t in change <==> LocksToken(users[..i + 1], t)
        ensures Stored(change, t) == LockedOf(users[..i + 1], t)
      {
        LocksOneMore(users, i, t);
      }
    }
    assert users[..|users|] == users;
  }

  lemma NothingLocked()
    ensures forall t :: !LocksToken([], t) && LockedOf([], t) == 0
  {
  }

  /** No coin is lost: the balances of a token add up to what is available and what is locked. */
  lemma {:induction false} BalancesAddUp(users: seq<User>, balances: seq<Balance>, t: Token)
    requires Balances(users, balances)
    ensures BalanceOf(balances, t) == AvailableOf(users, t) + LockedOf(users, t)
  {
    hide Total;
    if users != [] {
      BalancesAddUp(users[..|users| - 1], balances[..|users| - 1], t);
    }
  }

  /** With these amounts, indexing a genesis block whose events leave the tokens alone stores, for
      every token, what the genesis users have locked. */
  lemma GenesisTotalIsLockedBalance(env: Env, genesis: Block, users: seq<User>, t: Token)
    requires genesis.height == env.genesisHeight && Mentioned(genesis.events) == {}
    requires forall token :: Stored(env.genesisLocked, token) == LockedOf(users, token)
    ensures Stored(IndexTables(env, EMPTY, genesis).locked, t) == LockedOf(users, t)
  {
    IndexingTotals(env, EMPTY, genesis, t);
    UnmentionedNetsZero(genesis.events, t);
  }
}
