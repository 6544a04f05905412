/** Blocks as the node reports them, and the per-block quantities the indexer aggregates. */
module Blocks {

  type Id = string
  type Address = string
  type Token = string

  /** The event kinds the indexer looks at; every other event only becomes an event row.
      `RewardMinted` stands for a reward event of either reward module. */
  datatype EventKind =
    | Lock(token: Token, amount: nat)
    | Unlock(token: Token, amount: nat)
    | RewardMinted(reward: nat)
    | OtherEvent

  datatype Event = Event(id: string, kind: EventKind)

  /** A block together with its events; `prev` is the id of the parent block. */
  datatype Block = Block(
    id: Id,
    height: nat,
    prev: Id,
    generator: Address,
    txs: seq<Id>,
    events: seq<Event>)

  /** The signed effect of one event on the locked total of a token. */
  function Effect(e: Event, t: Token): int {
    match e.kind
    case Lock(token, amount) => if token == t then amount else 0
    case Unlock(token, amount) => if token == t then 0 - amount else 0
    case _ => 0
  }

  /** Locks minus unlocks of a token over an event list. */
  function Net(events: seq<Event>, t: Token): int {
    if events == [] then 0
    else Net(events[..|events| - 1], t) + Effect(events[|events| - 1], t)
  }

  /** The tokens that some lock or unlock event names. */
  function Mentioned(events: seq<Event>): set<Token> {
    set e | e in events && (e.kind.Lock? || e.kind.Unlock?) :: e.kind.token
  }

  lemma {:induction false} UnmentionedNetsZero(events: seq<Event>, t: Token)
    requires t !in Mentioned(events)
    ensures Net(events, t) == 0
  {
    if events != [] {
      var init, last := events[..|events| - 1], events[|events| - 1];
      assert last in events;
      assert forall e | e in init :: e in events;
      UnmentionedNetsZero(init, t);
    }
  }

  /** The change map after one more event. */
  ghost function Accumulate(change: map<Token, int>, kind: EventKind, undo: bool): map<Token, int> {
    if kind.Lock? || kind.Unlock? then
      var amount := if kind.Lock? == undo then 0 - kind.amount else kind.amount;
      change[kind.token := (if kind.token in change then change[kind.token] else 0) + amount]
    else
      change
  }

  /** The map of locked-amount changes of a block. */
  ghost function Change(events: seq<Event>, undo: bool): map<Token, int> {
    if events == [] then map[]
    else Accumulate(Change(events[..|events| - 1], undo), events[|events| - 1].kind, undo)
  }

  /** It has an entry for every mentioned token: its net amount, negated when undoing. */
  lemma {:induction false} ChangeIsNet(events: seq<Event>, undo: bool)
    ensures Change(events, undo).Keys == Mentioned(events)
    ensures forall t | t in Mentioned(events) ::
              Change(events, undo)[t] == if undo then -Net(events, t) else Net(events, t)
  {
    if events != [] {
      var init, last := events[..|events| - 1], events[|events| - 1];
      ChangeIsNet(init, undo);
      assert forall e :: e in events <==> e in init || e == last;
      if last.kind.Lock? || last.kind.Unlock? {
        assert Mentioned(events) == Mentioned(init) + {last.kind.token};
        if last.kind.token !in Mentioned(init) {
          UnmentionedNetsZero(init, last.kind.token);
        }
      } else {
        assert Mentioned(events) == Mentioned(init);
      }
    }
  }

  /** The accumulation loop over the events; `undo` is the sign-flipped copy used on deletion. */
  method LockedChange(events: seq<Event>, undo: bool) returns (change: map<Token, int>)
    ensures change == Change(events, undo)
  {
    change := map[];
    for i := 0 to |events|
      invariant change == Change(events[..i], undo)
    {
      var kind := events[i].kind;
      assert events[..i + 1][..i] == events[..i];
      if kind.Lock? || kind.Unlock? {
        if kind.token !in change {
          change := change[kind.token := 0];
        }
        if kind.Lock? == undo {
          change := change[kind.token := change[kind.token] - kind.amount];
        } else {
          change := change[kind.token := change[kind.token] + kind.amount];
        }
      }
    }
    assert events[..|events|] == events;
  }

  /** The amount of the first reward event, 0 when there is none. */
  function Reward(events: seq<Event>): nat {
    if events == [] then 0
    else if events[0].kind.RewardMinted? then events[0].kind.reward
    else Reward(events[1..])
  }

  /** Sum of a per-block weight over a list of blocks. */
  ghost function Sum(bs: seq<Block>, weight: Block -> int): int {
    if bs == [] then 0 else Sum(bs[..|bs| - 1], weight) + weight(bs[|bs| - 1])
  }

  lemma {:induction false} SumConcat(xs: seq<Block>, ys: seq<Block>, weight: Block -> int)
    ensures Sum(xs + ys, weight) == Sum(xs, weight) + Sum(ys, weight)
  {
    if ys == [] {
      assert xs + ys == xs;
    } else {
      var init := ys[..|ys| - 1];
      assert (xs + ys)[..|xs + ys| - 1] == xs + init;
      SumConcat(xs, init, weight);
    }
  }

  function Reverse(bs: seq<Block>): (r: seq<Block>)
    ensures |r| == |bs|
    ensures forall i | 0 <= i < |bs| :: r[i] == bs[|bs| - 1 - i]
  {
    seq(|bs|, i requires 0 <= i < |bs| => bs[|bs| - 1 - i])
  }

  lemma {:induction false} SumReverse(bs: seq<Block>, weight: Block -> int)
    ensures Sum(Reverse(bs), weight) == Sum(bs, weight)
  {
    if bs != [] {
      var init, last := bs[..|bs| - 1], bs[|bs| - 1];
      assert Reverse(bs) == [last] + Reverse(init);
      SumConcat([last], Reverse(init), weight);
      assert [last][..0] == [];
      SumReverse(init, weight);
    }
  }
}
