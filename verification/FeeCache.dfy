/**
 * The cached incremental loop of the fee estimator. A call continues from the cached estimate and
 * writes the cache as it goes; it may die at any pass. The cache always holds a value of the plain
 * fold of the one-block estimator over the chain.
 */
module FeeCache {
  import opened Options
  import opened FeeEstimator

  datatype Estimate = Estimate(height: int, id: string, fees: Fees)

  /** What the estimator sees: a fixed chain above a genesis height. */
  datatype Chain = Chain(genesis: nat, blocks: map<nat, FeeBlock>)

  ghost predicate ValidChain(chain: Chain) {
    forall h | h in chain.blocks ::
      chain.blocks[h].height == h && ValidTxs(chain.blocks[h].txs)
  }

  /** The lowest height a call may estimate. */
  function Start(chain: Chain, config: Config, from: int): nat {
    var lowest := if config.startHeight > chain.genesis + 1 then config.startHeight
                  else chain.genesis + 1;
    if from > lowest then from else lowest
  }

  /** It is the largest of the configured height, the height above genesis and the one asked for. */
  lemma StartIsLargest(chain: Chain, config: Config, from: int)
    ensures Start(chain, config, from) >= config.startHeight
    ensures Start(chain, config, from) >= chain.genesis + 1
    ensures Start(chain, config, from) >= from
    ensures Start(chain, config, from) in {config.startHeight, chain.genesis + 1, from}
  {
  }

  // ---- The batch for one height ----

  function BatchSize(chain: Chain, config: Config, prev: int): int {
    var most := prev - chain.genesis;
    if config.emaBatchSize > most then most + 1 else config.emaBatchSize
  }

  /** The height of the batch entry `i`. */
  function HeightRead(prev: int, i: nat): int {
    prev + 1 - i
  }

  /** Every block of the batch above `prev` can be had. */
  predicate Readable(chain: Chain, config: Config, prev: int) {
    forall i: nat | i < BatchSize(chain, config, prev) ::
      HeightRead(prev, i) >= 0 && HeightRead(prev, i) in chain.blocks
  }

  /** The blocks at `prev + 1` and below. */
  function Batch(chain: Chain, config: Config, prev: int): (batch: seq<FeeBlock>)
    requires prev >= chain.genesis && config.emaBatchSize > 0 && Readable(chain, config, prev)
    ensures |batch| == BatchSize(chain, config, prev)
    ensures prev + 1 in chain.blocks && batch != [] && batch[0] == chain.blocks[prev + 1]
  {
    assert HeightRead(prev, 0) == prev + 1;
    seq(BatchSize(chain, config, prev),
        i requires 0 <= i < BatchSize(chain, config, prev) => chain.blocks[HeightRead(prev, i)])
  }

  /** The batch holds as many blocks above genesis as there are, up to the configured number. It is
      never empty, starts at the height to estimate, and stays above genesis. */
  lemma BatchStaysAboveGenesis(chain: Chain, config: Config, prev: int)
    requires prev >= chain.genesis && config.emaBatchSize > 0
    ensures BatchSize(chain, config, prev) ==
      (if prev + 1 - chain.genesis < config.emaBatchSize then prev + 1 - chain.genesis
       else config.emaBatchSize)
    ensures 1 <= BatchSize(chain, config, prev)
    ensures forall i: nat | i < BatchSize(chain, config, prev) ::
      chain.genesis < HeightRead(prev, i) <= prev + 1
  {
  }

  /** A pass needs the blocks of its batch and no other: from the height to estimate down, as many
      as configured, but none at or below genesis. */
  lemma ReadableIff(chain: Chain, config: Config, prev: int)
    requires prev >= chain.genesis && config.emaBatchSize > 0
    ensures Readable(chain, config, prev) <==>
      forall h: nat | chain.genesis < h && prev + 1 - config.emaBatchSize < h <= prev + 1 ::
        h in chain.blocks
  {
    if Readable(chain, config, prev) {
      forall h: nat | chain.genesis < h && prev + 1 - config.emaBatchSize < h <= prev + 1
        ensures h in chain.blocks
      {
        assert HeightRead(prev, prev + 1 - h) == h;
      }
    }
  }

  /** Entry `i` of the batch is the block `i` heights below the newest. */
  lemma BatchEntry(chain: Chain, config: Config, prev: int, i: nat)
    requires prev >= chain.genesis && config.emaBatchSize > 0 && Readable(chain, config, prev)
    requires i < |Batch(chain, config, prev)|
    ensures prev + 1 - i in chain.blocks
    ensures Batch(chain, config, prev)[i] == chain.blocks[prev + 1 - i]
  {
    assert HeightRead(prev, i) == prev + 1 - i;
  }

  // ---- The fold ----

  ghost predicate ReadableUpTo(chain: Chain, config: Config, start: int, h: int) {
    forall prev: int | start - 1 <= prev < h :: Readable(chain, config, prev)
  }

  /** The one-block estimator folded from `start` to `h`. */
  ghost function Fold(chain: Chain, config: Config, start: int, h: int): Estimate
    requires ValidChain(chain) && ValidConfig(config)
    requires chain.genesis < start && start - 1 <= h && ReadableUpTo(chain, config, start, h)
    decreases h - start
  {
    if h == start - 1 then Estimate(h, "", ZERO)
    else
      assert Readable(chain, config, h - 1);
      var batch := Batch(chain, config, h - 1);
      Estimate(h, chain.blocks[h].id,
               BlockFees(batch, Fold(chain, config, start, h - 1).fees, config))
  }

  /** `e` is the fold from `start` to its own height, and at least one block was folded. */
  ghost predicate Sound(chain: Chain, config: Config, start: int, e: Estimate) {
    && ValidChain(chain) && ValidConfig(config) && chain.genesis < start <= e.height
    && ReadableUpTo(chain, config, start, e.height)
    && e == Fold(chain, config, start, e.height)
  }

  /** Every fee the chain pays is at least the minimum, with a priority of at most `p`. */
  ghost predicate PricedChain(chain: Chain, p: real) {
    forall h | h in chain.blocks :: PricedUpTo(chain.blocks[h].txs, p)
  }

  /** The bounds hold for every estimate that any run can produce. */
  lemma {:induction false} EveryEstimateIsBounded(chain: Chain, config: Config, start: int, h: int,
                                                  p: real)
    requires ValidChain(chain) && ValidConfig(config)
    requires chain.genesis < start && start - 1 <= h && ReadableUpTo(chain, config, start, h)
    requires p >= 0.0 && PricedChain(chain, p)
    ensures InBounds(Fold(chain, config, start, h).fees, p)
    decreases h - start
  {
    hide BlockFees, PricedUpTo;
    if h >= start {
      EveryEstimateIsBounded(chain, config, start, h - 1, p);
      assert Readable(chain, config, h - 1);
      BlockFeesAreBounded(Batch(chain, config, h - 1), Fold(chain, config, start, h - 1).fees,
                          config, p);
    }
  }

  // ---- The cached loop ----

  function MaxHeight(x: int, y: int): int {
    if x < y then y else x
  }

  /** The estimate a call starts from. Only a full-mode call looks at the cache, and only when the
      cached height has reached the start. */
  function Previous(cached: Option<Estimate>, start: nat, quick: bool): Estimate {
    if !quick && cached.Some? && start <= cached.value.height then cached.value
    else Estimate(start - 1, "", ZERO)
  }

  ghost predicate SoundCache(chain: Chain, config: Config, start: int, cached: Option<Estimate>) {
    cached.Some? ==> Sound(chain, config, start, cached.value)
  }

  /** `to` is the requested height; the call dies after `lifetime` passes. */
  datatype Call = Call(to: int, quick: bool, lifetime: nat)

  /** The height a call has to get to: at least one pass is always made. */
  function Goal(before: int, call: Call): int {
    MaxHeight(call.to, before + 1)
  }

  /** The height a call does get to, one height per pass: it stops at the goal, at a block that
      cannot be read, or when it dies. */
  ghost function Reach(chain: Chain, config: Config, prev: int, goal: int, lifetime: nat): (r: int)
    requires prev <= goal
    ensures prev <= r <= goal && r - prev <= lifetime
    ensures forall p: int | prev <= p < r :: Readable(chain, config, p)
    ensures r < goal ==> r - prev == lifetime || !Readable(chain, config, r)
    decreases lifetime
  {
    if lifetime == 0 || prev == goal || !Readable(chain, config, prev) then prev
    else Reach(chain, config, prev + 1, goal, lifetime - 1)
  }

  ghost predicate CanCall(chain: Chain, config: Config, start: nat, cached: Option<Estimate>,
                          call: Call)
  {
    && ValidChain(chain) && ValidConfig(config) && chain.genesis < start
    && (call.quick || SoundCache(chain, config, start, cached))
  }

  /** The cache after a call: untouched when no pass was completed, otherwise the fold up to the
      height reached, whether or not the call got to its goal. */
  ghost function AfterCall(chain: Chain, config: Config, start: nat, cached: Option<Estimate>,
                           call: Call): Option<Estimate>
    requires CanCall(chain, config, start, cached, call)
  {
    var before := Previous(cached, start, call.quick).height;
    var h := Reach(chain, config, before, Goal(before, call), call.lifetime);
    if h == before then cached else Some(Fold(chain, config, start, h))
  }

  /** One pass: read the batch, estimate the next height. None when a block cannot be read. */
  method Pass(chain: Chain, config: Config, prev: Estimate, ghost start: int)
    returns (next: Option<Estimate>)
    requires ValidChain(chain) && ValidConfig(config)
    requires chain.genesis < start && start - 1 <= prev.height
    requires ReadableUpTo(chain, config, start, prev.height)
    requires prev == Fold(chain, config, start, prev.height)
    ensures next.Some? <==> Readable(chain, config, prev.height)
    ensures next.Some? ==> next.value.height == prev.height + 1
    ensures next.Some? ==> Sound(chain, config, start, next.value)
  {
    hide BlockFees;
    if Readable(chain, config, prev.height) {
      var batch := Batch(chain, config, prev.height);
      var fees := EstimateForBlock(batch, prev.fees, config);
      next := Some(Estimate(batch[0].height, batch[0].id, fees));
      assert ReadableUpTo(chain, config, start, prev.height + 1);
    } else {
      next := None;
    }
  }

  class Cache {
    var cached: Option<Estimate>

    constructor ()
      ensures cached.None?
    {
      cached := None;
    }

    /** Estimates up to the requested height; the result is None when the call dies or a block
        cannot be read. */
    method EstimateBatch(chain: Chain, config: Config, from: int, call: Call)
      returns (result: Option<Estimate>)
      requires CanCall(chain, config, Start(chain, config, from), cached, call)
      modifies this
      ensures cached == AfterCall(chain, config, Start(chain, config, from), old(cached), call)
      ensures
        var before := Previous(old(cached), Start(chain, config, from), call.quick).height;
        var goal := Goal(before, call);
        if Reach(chain, config, before, goal, call.lifetime) == goal
        then result == cached && cached.Some? && cached.value.height == goal
        else result.None?
    {
      var start := Start(chain, config, from);
      var prev := Previous(cached, start, call.quick);
      ghost var before := prev.height;
      var passes, first := 0, true;
      while first || call.to > prev.height
        invariant first <==> passes == 0
        invariant start - 1 <= prev.height == before + passes <= Goal(before, call)
        invariant passes <= call.lifetime
        invariant ReadableUpTo(chain, config, start, prev.height)
        invariant prev == Fold(chain, config, start, prev.height)
        invariant Reach(chain, config, prev.height, Goal(before, call), call.lifetime - passes)
               == Reach(chain, config, before, Goal(before, call), call.lifetime)
        invariant passes == 0 ==> cached == old(cached)
        invariant passes > 0 && prev.height < call.to ==> cached == Some(prev)
        decreases first, call.to - prev.height
      {
        if passes == call.lifetime { return None; }
        var next := Pass(chain, config, prev, start);
        if next.None? { return None; }
        prev := next.value;
        passes := passes + 1;
        first := false;
        if prev.height < call.to {
          cached := Some(prev);
        }
      }
      cached := Some(prev);
      result := cached;
    }
  }

  // ---- Whole runs ----

  ghost function AfterCalls(chain: Chain, config: Config, start: nat, calls: seq<Call>)
    : (cached: Option<Estimate>)
    requires ValidChain(chain) && ValidConfig(config) && chain.genesis < start
    ensures SoundCache(chain, config, start, cached)
    decreases |calls|
  {
    if calls == [] then None
    else
      var k := |calls| - 1;
      var before := AfterCalls(chain, config, start, calls[..k]);
      AfterCallIsSound(chain, config, start, before, calls[k]);
      AfterCall(chain, config, start, before, calls[k])
  }

  lemma AfterCallIsSound(chain: Chain, config: Config, start: nat, cached: Option<Estimate>,
                         call: Call)
    requires CanCall(chain, config, start, cached, call)
    requires SoundCache(chain, config, start, cached)
    ensures SoundCache(chain, config, start, AfterCall(chain, config, start, cached, call))
    // A full-mode call never moves the cache back.
    ensures !call.quick && cached.Some? ==>
      var after := AfterCall(chain, config, start, cached, call);
      after.Some? && cached.value.height <= after.value.height
  {
    var before := Previous(cached, start, call.quick).height;
    var h := Reach(chain, config, before, Goal(before, call), call.lifetime);
    assert ReadableUpTo(chain, config, start, before);
    assert ReadableUpTo(chain, config, start, h);
  }

  lemma OneCallReaches(chain: Chain, config: Config, start: nat, h: int)
    requires ValidChain(chain) && ValidConfig(config) && chain.genesis < start <= h
    requires ReadableUpTo(chain, config, start, h)
    ensures AfterCall(chain, config, start, None, Call(h, false, h - start + 1))
            == Some(Fold(chain, config, start, h))
  {
    hide Fold;
    assert Reach(chain, config, start - 1, h, h - start + 1) == h;
  }

  /** A full-mode call that lives and can read goes on from the cached height to the one asked for,
      or one further if the cache is there already. A quick one starts anew. */
  lemma LivingCallReaches(chain: Chain, config: Config, start: nat, cached: Estimate, call: Call)
    requires CanCall(chain, config, start, Some(cached), call)
    requires start <= cached.height
    requires
      var before := if call.quick then start - 1 else cached.height;
      var goal := if call.to > before then call.to else before + 1;
      call.lifetime >= goal - before && ReadableUpTo(chain, config, start, goal)
    ensures
      var before := if call.quick then start - 1 else cached.height;
      var goal := if call.to > before then call.to else before + 1;
      AfterCall(chain, config, start, Some(cached), call) == Some(Fold(chain, config, start, goal))
  {
    hide Fold;
    var before := if call.quick then start - 1 else cached.height;
    var goal := if call.to > before then call.to else before + 1;
    assert Goal(before, call) == goal;
    assert Reach(chain, config, before, goal, call.lifetime) == goal;
  }

  /** After any sequence of calls, dead ones included, the cached estimate is the one a single
      call from an empty cache would compute for that height, and it obeys the fee bounds. */
  lemma EveryRunCachesTheFold(chain: Chain, config: Config, start: nat, calls: seq<Call>, p: real)
    requires ValidChain(chain) && ValidConfig(config) && chain.genesis < start
    requires p >= 0.0 && PricedChain(chain, p)
    ensures
      var cached := AfterCalls(chain, config, start, calls);
      cached.Some? ==>
        var h := cached.value.height;
        && start <= h && ReadableUpTo(chain, config, start, h)
        && cached.value == Fold(chain, config, start, h)
        && cached == AfterCall(chain, config, start, None, Call(h, false, h - start + 1))
        && InBounds(cached.value.fees, p)
  {
    hide Fold, InBounds, PricedChain, AfterCall;
    var cached := AfterCalls(chain, config, start, calls);
    if cached.Some? {
      var h := cached.value.height;
      EveryEstimateIsBounded(chain, config, start, h, p);
      OneCallReaches(chain, config, start, h);
    }
  }
}
