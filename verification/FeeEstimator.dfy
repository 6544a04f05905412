/** The fee estimate for one block: fee levels of the block, smoothed over earlier estimates. */
module FeeEstimator {
  import opened FeeWindow
  import Sorting

  datatype Tx = Tx(fee: nat, minFee: nat, size: nat)

  datatype FeeBlock = FeeBlock(height: nat, id: string, txs: seq<Tx>)

  datatype Fees = Fees(low: real, med: real, high: real)

  const ZERO := Fees(0.0, 0.0, 0.0)

  /** `alpha` is the smoothing factor derived from batch size and decay rate; `decay` the factor
      between the weights of consecutive blocks. */
  datatype Config = Config(startHeight: nat, emaBatchSize: nat, alpha: real, decay: real)

  ghost predicate ValidConfig(c: Config) {
    c.emaBatchSize > 0 && 0.0 <= c.alpha <= 1.0 && c.decay >= 0.0
  }

  // Byte positions of the windows: 25 to 75 percent, and 80 to 100 percent, of 15 KiB.
  const MED_LOWER: nat := 3840
  const MED_UPPER: nat := 11520
  const HIGH_LOWER: nat := 12288
  const HIGH_UPPER: nat := 15360

  // 12.5 KiB and 14.8 KiB.
  const BUSY_SIZE: real := 12800.0
  const NEARLY_FULL_SIZE: real := 15155.2

  // ---- Fee levels of a block ----

  function Size(txs: seq<Tx>): nat {
    if txs == [] then 0 else Size(txs[..|txs| - 1]) + txs[|txs| - 1].size
  }

  function Priority(tx: Tx): real
    requires tx.size > 0
  {
    ((tx.fee - tx.minFee) as real) / (tx.size as real)
  }

  predicate ValidTxs(txs: seq<Tx>) {
    forall tx | tx in txs :: tx.size > 0
  }

  function Details(txs: seq<Tx>): (ds: seq<Detail>)
    requires ValidTxs(txs)
    ensures |ds| == |txs|
    ensures forall i | 0 <= i < |txs| :: ds[i] == Detail(Priority(txs[i]), txs[i].size)
  {
    seq(|txs|, i requires 0 <= i < |txs| => Detail(Priority(txs[i]), txs[i].size))
  }

  function ByPriority(): Detail -> real {
    (d: Detail) => d.priority
  }

  function SortedDetails(txs: seq<Tx>): seq<Detail>
    requires ValidTxs(txs)
  {
    Sorting.Sort(Details(txs), ByPriority())
  }

  function Max(x: real, y: real): real {
    if x < y then y else x
  }

  lemma NonEmptyWhenSized(txs: seq<Tx>)
    requires ValidTxs(txs)
    ensures |SortedDetails(txs)| == |txs| && (Size(txs) > 0 ==> txs != [])
  {
    Sorting.SortIsSortedPermutation(Details(txs), ByPriority());
  }

  function LowLevel(txs: seq<Tx>): real
    requires ValidTxs(txs)
  {
    NonEmptyWhenSized(txs);
    if (Size(txs) as real) < BUSY_SIZE then 0.0 else SortedDetails(txs)[0].priority
  }

  function FeePerByte(txs: seq<Tx>): Fees
    requires ValidTxs(txs)
  {
    var ds := SortedDetails(txs);
    var med := Average(ds, MED_LOWER, MED_UPPER);
    Fees(LowLevel(txs), med, Max(Average(ds, HIGH_LOWER, HIGH_UPPER), 1.3 * med + 1.0))
  }

  method CalculateFeePerByte(txs: seq<Tx>) returns (fees: Fees)
    requires ValidTxs(txs)
    ensures fees == FeePerByte(txs)
    ensures fees.high >= 1.3 * fees.med + 1.0
    ensures forall p: real | p >= 0.0 && PricedUpTo(txs, p) :: InBounds(fees, p)
  {
    forall p: real | p >= 0.0 && PricedUpTo(txs, p) ensures InBounds(FeePerByte(txs), p) {
      FeePerByteIsBounded(txs, p);
    }
    hide PricedUpTo, InBounds;
    var ds := Sorting.Sort(Details(txs), ByPriority());
    var low := LowLevel(txs);
    var med := CalculateAvgFeePerByte(ds, MED_LOWER, MED_UPPER);
    var high := CalculateAvgFeePerByte(ds, HIGH_LOWER, HIGH_UPPER);
    fees := Fees(low, med, Max(high, 1.3 * med + 1.0));
  }

  /** Every fee is at least the minimum, and no priority exceeds `p`. */
  ghost predicate PricedUpTo(txs: seq<Tx>, p: real) {
    ValidTxs(txs) && forall tx | tx in txs :: tx.fee >= tx.minFee && Priority(tx) <= p
  }

  ghost predicate InBounds(f: Fees, p: real) {
    && 0.0 <= f.low <= p
    && 0.0 <= f.med <= 3.0 * p
    && 1.3 * f.med <= f.high <= 3.9 * p + 1.0
  }

  lemma PriorityIsNonNegative(tx: Tx)
    requires tx.size > 0 && tx.fee >= tx.minFee
    ensures Priority(tx) >= 0.0
  {
  }

  lemma SortedDetailsAreBounded(txs: seq<Tx>, p: real)
    requires PricedUpTo(txs, p)
    ensures Bounded(SortedDetails(txs), p)
  {
    var ds := Details(txs);
    Sorting.SortIsSortedPermutation(ds, ByPriority());
    forall d | d in SortedDetails(txs) ensures d.size > 0 && 0.0 <= d.priority <= p {
      assert d in multiset(SortedDetails(txs)) && d in ds;
      var i :| 0 <= i < |ds| && ds[i] == d;
      assert txs[i] in txs;
      PriorityIsNonNegative(txs[i]);
    }
  }

  /** The low level of a busy block is the lowest priority in it. */
  lemma LowLevelIsLowest(txs: seq<Tx>, tx: Tx)
    requires ValidTxs(txs) && tx in txs && (Size(txs) as real) >= BUSY_SIZE
    ensures LowLevel(txs) <= Priority(tx)
    ensures exists t :: t in txs && LowLevel(txs) == Priority(t)
  {
    var ds, sorted := Details(txs), SortedDetails(txs);
    Sorting.SortIsSortedPermutation(ds, ByPriority());
    NonEmptyWhenSized(txs);
    var i :| 0 <= i < |txs| && txs[i] == tx;
    assert ds[i] in multiset(ds) && ds[i] in multiset(sorted) && ds[i] in sorted;
    var j :| 0 <= j < |sorted| && sorted[j] == ds[i];
    assert ByPriority()(sorted[0]) <= ByPriority()(sorted[j]);
    assert sorted[0] in multiset(sorted) && sorted[0] in ds;
    var k :| 0 <= k < |ds| && ds[k] == sorted[0];
    assert txs[k] in txs;
  }

  lemma FeePerByteIsBounded(txs: seq<Tx>, p: real)
    requires p >= 0.0 && PricedUpTo(txs, p)
    ensures InBounds(FeePerByte(txs), p)
    ensures 1.3 * FeePerByte(txs).med + 1.0 <= FeePerByte(txs).high
  {
    var ds := SortedDetails(txs);
    SortedDetailsAreBounded(txs, p);
    NonEmptyWhenSized(txs);
    AverageIsAtMostTriple(ds, p, MED_LOWER, MED_UPPER);
    AverageIsAtMostTriple(ds, p, HIGH_LOWER, HIGH_UPPER);
    if (Size(txs) as real) >= BUSY_SIZE {
      assert ds[0] in ds;
    }
  }

  // ---- Weighted average of block sizes ----

  /** The sums the reducer builds up, starting from a weight. */
  function WeightedSum(sizes: seq<nat>, weight: real, decay: real): real {
    if sizes == [] then 0.0
    else Times(weight, sizes[0]) + WeightedSum(sizes[1..], weight * decay, decay)
  }

  function TotalWeight(n: nat, weight: real, decay: real): real {
    if n == 0 then 0.0 else weight + TotalWeight(n - 1, weight * decay, decay)
  }

  lemma NonNegativeProduct(x: real, y: real)
    requires x >= 0.0 && y >= 0.0
    ensures x * y >= 0.0
  {
  }

  lemma {:induction false} WeightsAreNonNegative(n: nat, weight: real, decay: real)
    requires weight >= 0.0 && decay >= 0.0
    ensures TotalWeight(n, weight, decay) >= (if n == 0 then 0.0 else weight)
    decreases n
  {
    if n > 0 {
      NonNegativeProduct(weight, decay);
      WeightsAreNonNegative(n - 1, weight * decay, decay);
    }
  }

  lemma WeightsAdd(x: real, y: real, n: int)
    ensures Times(x + y, n) == Times(x, n) + Times(y, n)
    ensures Times(0.0, n) == 0.0
  {
  }

  lemma LargerSizeWeighsMore(weight: real, m: int, n: int)
    requires weight >= 0.0 && m <= n
    ensures Times(weight, m) <= Times(weight, n)
  {
    NonNegativeProduct(weight, (n - m) as real);
    TimesAdds(weight, m, n - m);
  }

  lemma {:induction false} WeightedSumIsBetween(sizes: seq<nat>, weight: real, decay: real,
                                                lo: nat, hi: nat)
    requires weight >= 0.0 && decay >= 0.0
    requires forall s | s in sizes :: lo <= s <= hi
    ensures Times(TotalWeight(|sizes|, weight, decay), lo)
            <= WeightedSum(sizes, weight, decay)
            <= Times(TotalWeight(|sizes|, weight, decay), hi)
    decreases |sizes|
  {
    hide Times;
    WeightsAdd(weight, 0.0, lo);
    WeightsAdd(weight, 0.0, hi);
    if sizes != [] {
      var rest, next := sizes[1..], weight * decay;
      NonNegativeProduct(weight, decay);
      assert sizes[0] in sizes && forall s | s in rest :: s in sizes;
      WeightedSumIsBetween(rest, next, decay, lo, hi);
      LargerSizeWeighsMore(weight, lo, sizes[0]);
      LargerSizeWeighsMore(weight, sizes[0], hi);
      WeightsAdd(weight, TotalWeight(|rest|, next, decay), lo);
      WeightsAdd(weight, TotalWeight(|rest|, next, decay), hi);
    }
  }

  function WeightedAverage(sizes: seq<nat>, decay: real): real
    requires sizes != [] && decay >= 0.0
  {
    WeightsAreNonNegative(|sizes|, 1.0, decay);
    WeightedSum(sizes, 1.0, decay) / TotalWeight(|sizes|, 1.0, decay)
  }

  /** The weighted average lies between the smallest and the largest block. */
  lemma WeightedAverageIsBetween(sizes: seq<nat>, decay: real, lo: nat, hi: nat)
    requires sizes != [] && decay >= 0.0
    requires forall s | s in sizes :: lo <= s <= hi
    ensures lo as real <= WeightedAverage(sizes, decay) <= hi as real
  {
    WeightsAreNonNegative(|sizes|, 1.0, decay);
    WeightedSumIsBetween(sizes, 1.0, decay, lo, hi);
    QuotientIsBetween(WeightedSum(sizes, 1.0, decay), TotalWeight(|sizes|, 1.0, decay), lo, hi);
  }

  lemma QuotientIsBetween(x: real, w: real, lo: nat, hi: nat)
    requires w > 0.0 && Times(w, lo) <= x <= Times(w, hi)
    ensures lo as real <= x / w <= hi as real
  {
    assert Times(w, lo) / w == lo as real;
    assert Times(w, hi) / w == hi as real;
    QuotientIsMonotone(Times(w, lo), x, w);
    QuotientIsMonotone(x, Times(w, hi), w);
  }

  lemma QuotientIsMonotone(x: real, y: real, w: real)
    requires w > 0.0 && x <= y
    ensures x / w <= y / w
  {
    assert y / w - x / w == (y - x) / w;
  }

  /** The sizes as coefficients of a polynomial in the decay factor, newest block first. */
  ghost function Horner(sizes: seq<nat>, decay: real): real {
    if sizes == [] then 0.0 else sizes[0] as real + Share(decay, Horner(sizes[1..], decay))
  }

  ghost function Ones(n: nat): (ones: seq<nat>)
    ensures |ones| == n
  {
    seq(n, i => 1)
  }

  lemma Factor(weight: real, size: nat, decay: real, rest: real)
    ensures Times(weight, size) + Share(weight * decay, rest)
            == Share(weight, size as real + Share(decay, rest))
  {
  }

  lemma {:induction false} WeightedSumIsHorner(sizes: seq<nat>, weight: real, decay: real)
    ensures WeightedSum(sizes, weight, decay) == Share(weight, Horner(sizes, decay))
    decreases |sizes|
  {
    if sizes != [] {
      hide Times, Share;
      WeightedSumIsHorner(sizes[1..], weight * decay, decay);
      Factor(weight, sizes[0], decay, Horner(sizes[1..], decay));
    }
  }

  lemma {:induction false} TotalWeightIsSumOfOnes(n: nat, weight: real, decay: real)
    ensures TotalWeight(n, weight, decay) == WeightedSum(Ones(n), weight, decay)
    decreases n
  {
    if n > 0 {
      hide Times, Ones;
      OnesPrepend(n);
      TimesOne(weight);
      TotalWeightIsSumOfOnes(n - 1, weight * decay, decay);
    }
  }

  lemma OnesPrepend(n: nat)
    requires n > 0
    ensures Ones(n)[0] == 1 && Ones(n)[1..] == Ones(n - 1)
  {
  }

  lemma TimesOne(x: real)
    ensures Times(x, 1) == x
  {
  }

  /** The i-th block from the newest has the weight decay^i: the average is the quotient of two
      polynomials in the decay factor, with the sizes and with ones as coefficients. */
  lemma WeightsAreGeometric(sizes: seq<nat>, decay: real)
    requires sizes != [] && decay >= 0.0
    ensures Horner(Ones(|sizes|), decay) > 0.0
    ensures WeightedAverage(sizes, decay) == Horner(sizes, decay) / Horner(Ones(|sizes|), decay)
  {
    WeightsAreNonNegative(|sizes|, 1.0, decay);
    WeightedSumIsHorner(sizes, 1.0, decay);
    TotalWeightIsSumOfOnes(|sizes|, 1.0, decay);
    WeightedSumIsHorner(Ones(|sizes|), 1.0, decay);
    hide WeightedSum, TotalWeight, Horner, Ones, Share;
    ShareLaws(1.0, 1.0, Horner(sizes, decay));
    ShareLaws(1.0, 1.0, Horner(Ones(|sizes|), decay));
  }

  /** The reducer, with its running sum, total weight and weight. */
  method CalculateWeightedAvg(sizes: seq<nat>, decay: real) returns (avg: real)
    requires sizes != [] && decay >= 0.0
    ensures avg == WeightedAverage(sizes, decay)
  {
    hide Times;
    var weight, totalWeight, sum := 1.0, 0.0, 0.0;
    for i := 0 to |sizes|
      invariant sum + WeightedSum(sizes[i..], weight, decay) == WeightedSum(sizes, 1.0, decay)
      invariant totalWeight + TotalWeight(|sizes| - i, weight, decay)
             == TotalWeight(|sizes|, 1.0, decay)
    {
      assert sizes[i..][1..] == sizes[i + 1..];
      sum := sum + Times(weight, sizes[i]);
      totalWeight := totalWeight + weight;
      weight := weight * decay;
    }
    WeightsAreNonNegative(|sizes|, 1.0, decay);
    avg := sum / totalWeight;
  }

  // ---- Exponential moving average ----

  function Mix(alpha: real, x: real, y: real): real {
    alpha * x + (1.0 - alpha) * y
  }

  function Ema(alpha: real, fees: Fees, prev: Fees): Fees {
    Fees(Mix(alpha, fees.low, prev.low), Mix(alpha, fees.med, prev.med),
         Mix(alpha, fees.high, prev.high))
  }

  lemma MixIsMonotone(alpha: real, x: real, y: real, x': real, y': real)
    requires 0.0 <= alpha <= 1.0 && x <= x' && y <= y'
    ensures Mix(alpha, x, y) <= Mix(alpha, x', y')
  {
    NonNegativeProduct(alpha, x' - x);
    NonNegativeProduct(1.0 - alpha, y' - y);
    assert Mix(alpha, x', y') - Mix(alpha, x, y) == alpha * (x' - x) + (1.0 - alpha) * (y' - y);
  }

  lemma MixLaws(alpha: real, x: real, y: real, c: real)
    ensures Mix(alpha, c, c) == c
    ensures Mix(alpha, 1.3 * x, 1.3 * y) == 1.3 * Mix(alpha, x, y)
  {
  }

  lemma MixIsBetween(alpha: real, x: real, y: real, lo: real, hi: real)
    requires 0.0 <= alpha <= 1.0 && lo <= x <= hi && lo <= y <= hi
    ensures lo <= Mix(alpha, x, y) <= hi
  {
    hide Mix;
    MixIsMonotone(alpha, lo, lo, x, y);
    MixIsMonotone(alpha, x, y, hi, hi);
    MixLaws(alpha, x, y, lo);
    MixLaws(alpha, x, y, hi);
  }

  /** Smoothing keeps the bounds. */
  lemma EmaIsBounded(alpha: real, fees: Fees, prev: Fees, p: real)
    requires 0.0 <= alpha <= 1.0 && p >= 0.0
    requires InBounds(fees, p) && InBounds(prev, p)
    ensures InBounds(Ema(alpha, fees, prev), p)
  {
    hide Mix;
    MixIsBetween(alpha, fees.low, prev.low, 0.0, p);
    MixIsBetween(alpha, fees.med, prev.med, 0.0, 3.0 * p);
    MixIsBetween(alpha, fees.high, prev.high, 0.0, 3.9 * p + 1.0);
    MixIsMonotone(alpha, 1.3 * fees.med, 1.3 * prev.med, fees.high, prev.high);
    MixLaws(alpha, fees.med, prev.med, 0.0);
  }

  function Share(x: real, y: real): real {
    x * y
  }

  function Power(x: real, n: nat): real {
    if n == 0 then 1.0 else Share(x, Power(x, n - 1))
  }

  /** The moving average over `n` blocks that all have the same fee levels. */
  function Settle(alpha: real, fees: Fees, prev: Fees, n: nat): Fees {
    if n == 0 then prev else Ema(alpha, fees, Settle(alpha, fees, prev, n - 1))
  }

  lemma MixClosesGap(alpha: real, x: real, y: real)
    ensures x - Mix(alpha, x, y) == Share(1.0 - alpha, x - y)
  {
  }

  lemma ShareLaws(x: real, y: real, z: real)
    ensures Share(x, Share(y, z)) == Share(Share(x, y), z)
    ensures Share(1.0, z) == z
  {
  }

  /** One level of the estimate. */
  ghost predicate Remains(share: real, level: real, now: real, prev: real) {
    level - now == Share(share, level - prev)
  }

  lemma OneMoreBlock(alpha: real, share: real, level: real, now: real, prev: real)
    requires Remains(share, level, now, prev)
    ensures Remains(Share(1.0 - alpha, share), level, Mix(alpha, level, now), prev)
  {
    hide Mix, Share;
    MixClosesGap(alpha, level, now);
    ShareLaws(1.0 - alpha, share, level - prev);
  }

  /** A deviation of the estimate shrinks by the factor `1 - alpha` with every block. */
  lemma {:induction false} GapShrinks(alpha: real, fees: Fees, prev: Fees, n: nat)
    ensures
      var now, share := Settle(alpha, fees, prev, n), Power(1.0 - alpha, n);
      && Remains(share, fees.low, now.low, prev.low)
      && Remains(share, fees.med, now.med, prev.med)
      && Remains(share, fees.high, now.high, prev.high)
  {
    hide Mix, Share;
    if n == 0 {
      ShareLaws(1.0, 1.0, fees.low - prev.low);
      ShareLaws(1.0, 1.0, fees.med - prev.med);
      ShareLaws(1.0, 1.0, fees.high - prev.high);
    } else {
      hide Remains;
      GapShrinks(alpha, fees, prev, n - 1);
      var before, share := Settle(alpha, fees, prev, n - 1), Power(1.0 - alpha, n - 1);
      OneMoreBlock(alpha, share, fees.low, before.low, prev.low);
      OneMoreBlock(alpha, share, fees.med, before.med, prev.med);
      OneMoreBlock(alpha, share, fees.high, before.high, prev.high);
    }
  }

  /** What the smoothing factor is chosen for: when it is the root for which one batch of blocks
      keeps the share `1 - rate` of an old deviation, that is the share a batch keeps. */
  lemma BatchKeepsShare(config: Config, rate: real, fees: Fees, prev: Fees)
    requires Power(1.0 - config.alpha, config.emaBatchSize) == 1.0 - rate
    ensures
      var now := Settle(config.alpha, fees, prev, config.emaBatchSize);
      && fees.low - now.low == (1.0 - rate) * (fees.low - prev.low)
      && fees.med - now.med == (1.0 - rate) * (fees.med - prev.med)
      && fees.high - now.high == (1.0 - rate) * (fees.high - prev.high)
  {
    hide Power, Settle;
    GapShrinks(config.alpha, fees, prev, config.emaBatchSize);
  }

  // The factor in use is the root rounded to five digits.

  const HALF_DIGIT := 0.000005

  function Abs(x: real): real {
    if x < 0.0 then 0.0 - x else x
  }

  lemma ShareIsSmaller(x: real, v: real, b: real)
    requires 0.0 <= x <= 1.0 && Abs(v) <= b
    ensures Abs(Share(x, v)) <= b && Abs(Share(v, x)) <= b
  {
    NonNegativeProduct(x, b - v);
    NonNegativeProduct(x, b + v);
    NonNegativeProduct(1.0 - x, b);
  }

  lemma ShareOfBounded(a: real, c: real, v: real)
    requires Abs(a) <= c
    ensures Abs(Share(a, v)) <= Share(c, Abs(v))
  {
    NonNegativeProduct(c - a, Abs(v));
    NonNegativeProduct(c + a, Abs(v));
  }

  lemma ShareSplits(x: real, y: real, p: real, q: real)
    ensures Share(x, p) - Share(y, q) == Share(x, p - q) + Share(x - y, q)
  {
  }

  lemma {:induction false} PowerIsAShare(x: real, n: nat)
    requires 0.0 <= x <= 1.0
    ensures 0.0 <= Power(x, n) <= 1.0
  {
    if n > 0 {
      PowerIsAShare(x, n - 1);
      NonNegativeProduct(x, Power(x, n - 1));
      ShareIsSmaller(x, Power(x, n - 1), 1.0);
    }
  }

  /** Powers of two close shares are close. */
  lemma {:induction false} PowersAreClose(x: real, y: real, d: real, n: nat)
    requires 0.0 <= x <= 1.0 && 0.0 <= y <= 1.0 && Abs(x - y) <= d
    ensures Abs(Power(x, n) - Power(y, n)) <= Times(d, n)
  {
    hide Share, Times;
    TimesAdds(d, 0, 0);
    if n > 0 {
      var p, q := Power(x, n - 1), Power(y, n - 1);
      PowersAreClose(x, y, d, n - 1);
      PowerIsAShare(y, n - 1);
      ShareSplits(x, y, p, q);
      ShareIsSmaller(x, p - q, Times(d, n - 1));
      ShareIsSmaller(q, x - y, d);
      TimesAdds(d, n - 1, 1);
      TimesOne(d);
    }
  }

  lemma RemainsAbout(share: real, ideal: real, bound: real, level: real, now: real, prev: real)
    requires Remains(share, level, now, prev) && Abs(share - ideal) <= bound
    ensures Abs((level - now) - Share(ideal, level - prev)) <= Share(bound, Abs(level - prev))
  {
    ShareSplits(share, ideal, level - prev, level - prev);
    ShareOfBounded(share - ideal, bound, level - prev);
    assert Share(share, 0.0) == 0.0;
  }

  /** With the rounded factor the share that one batch of n blocks keeps is 1 - rate up to n half
      digits of the fifth place. */
  lemma RoundedBatchKeepsAbout(config: Config, exact: real, rate: real, fees: Fees, prev: Fees)
    requires 0.0 <= config.alpha <= 1.0 && 0.0 <= exact <= 1.0
    requires Abs(config.alpha - exact) <= HALF_DIGIT
    requires Power(1.0 - exact, config.emaBatchSize) == 1.0 - rate
    ensures
      var now := Settle(config.alpha, fees, prev, config.emaBatchSize);
      var bound := Times(HALF_DIGIT, config.emaBatchSize);
      && Abs((fees.low - now.low) - Share(1.0 - rate, fees.low - prev.low))
         <= Share(bound, Abs(fees.low - prev.low))
      && Abs((fees.med - now.med) - Share(1.0 - rate, fees.med - prev.med))
         <= Share(bound, Abs(fees.med - prev.med))
      && Abs((fees.high - now.high) - Share(1.0 - rate, fees.high - prev.high))
         <= Share(bound, Abs(fees.high - prev.high))
  {
    hide Power, Settle, Share, Times, Remains;
    var n := config.emaBatchSize;
    var now, share := Settle(config.alpha, fees, prev, n), Power(1.0 - config.alpha, n);
    var bound := Times(HALF_DIGIT, n);
    GapShrinks(config.alpha, fees, prev, n);
    PowersAreClose(1.0 - config.alpha, 1.0 - exact, HALF_DIGIT, n);
    RemainsAbout(share, 1.0 - rate, bound, fees.low, now.low, prev.low);
    RemainsAbout(share, 1.0 - rate, bound, fees.med, now.med, prev.med);
    RemainsAbout(share, 1.0 - rate, bound, fees.high, now.high, prev.high);
  }

  // ---- The estimate for a block ----

  function Sizes(batch: seq<FeeBlock>): (sizes: seq<nat>)
    ensures |sizes| == |batch|
  {
    seq(|batch|, i requires 0 <= i < |batch| => Size(batch[i].txs))
  }

  predicate Busy(batch: seq<FeeBlock>, decay: real)
    requires batch != [] && decay >= 0.0
  {
    || WeightedAverage(Sizes(batch), decay) > BUSY_SIZE
    || Size(batch[0].txs) as real > NEARLY_FULL_SIZE
  }

  /** The estimate for the first (newest) block of a batch, given the estimate before it. */
  function BlockFees(batch: seq<FeeBlock>, prev: Fees, config: Config): Fees
    requires ValidConfig(config) && batch != [] && ValidTxs(batch[0].txs)
  {
    if Busy(batch, config.decay) then Ema(config.alpha, FeePerByte(batch[0].txs), prev) else ZERO
  }

  method EstimateForBlock(batch: seq<FeeBlock>, prev: Fees, config: Config) returns (fees: Fees)
    requires ValidConfig(config) && batch != [] && ValidTxs(batch[0].txs)
    ensures fees == BlockFees(batch, prev, config)
    ensures forall p: real | p >= 0.0 && PricedUpTo(batch[0].txs, p) && InBounds(prev, p) ::
      InBounds(fees, p)
  {
    forall p: real | p >= 0.0 && PricedUpTo(batch[0].txs, p) && InBounds(prev, p)
      ensures InBounds(BlockFees(batch, prev, config), p)
    {
      BlockFeesAreBounded(batch, prev, config, p);
    }
    hide PricedUpTo, InBounds;
    var average := CalculateWeightedAvg(Sizes(batch), config.decay);
    var newest := CalculateFeePerByte(batch[0].txs);
    if average > BUSY_SIZE || Size(batch[0].txs) as real > NEARLY_FULL_SIZE {
      fees := Ema(config.alpha, newest, prev);
    } else {
      fees := ZERO;
    }
  }

  lemma BlockFeesAreBounded(batch: seq<FeeBlock>, prev: Fees, config: Config, p: real)
    requires ValidConfig(config) && batch != []
    requires p >= 0.0 && PricedUpTo(batch[0].txs, p) && InBounds(prev, p)
    ensures InBounds(BlockFees(batch, prev, config), p)
  {
    hide Ema, FeePerByte, Busy;
    FeePerByteIsBounded(batch[0].txs, p);
    EmaIsBounded(config.alpha, FeePerByte(batch[0].txs), prev, p);
  }

  /** Quiet traffic is free: when every block of the batch has at most 12.5 KiB, the estimate
      falls back to zero, whatever it was before. */
  lemma QuietBatchIsFree(batch: seq<FeeBlock>, prev: Fees, config: Config)
    requires ValidConfig(config) && batch != [] && ValidTxs(batch[0].txs)
    requires forall b | b in batch :: Size(b.txs) <= 12800
    ensures BlockFees(batch, prev, config) == ZERO
  {
    hide WeightedAverage;
    var sizes := Sizes(batch);
    forall s | s in sizes ensures 0 <= s <= 12800 {
      var i :| 0 <= i < |sizes| && sizes[i] == s;
      assert batch[i] in batch;
    }
    assert batch[0] in batch;
    WeightedAverageIsBetween(sizes, config.decay, 0, 12800);
  }

  /** Busy traffic is smoothed: when every block of the batch has more than 12.5 KiB, or the newest
      alone more than 14.8 KiB, the estimate is the moving average. */
  lemma BusyBatchIsSmoothed(batch: seq<FeeBlock>, prev: Fees, config: Config)
    requires ValidConfig(config) && batch != [] && ValidTxs(batch[0].txs)
    requires (forall b | b in batch :: Size(b.txs) > 12800) || Size(batch[0].txs) > 15155
    ensures BlockFees(batch, prev, config)
            == Ema(config.alpha, FeePerByte(batch[0].txs), prev)
  {
    hide WeightedAverage, Ema, FeePerByte;
    var sizes := Sizes(batch);
    if forall b | b in batch :: Size(b.txs) > 12800 {
      forall s | s in sizes ensures 12801 <= s {
        var i :| 0 <= i < |sizes| && sizes[i] == s;
        assert batch[i] in batch;
      }
      WeightedAverageIsBetween(sizes, config.decay, 12801, Largest(sizes));
    }
  }

  ghost function Largest(sizes: seq<nat>): (n: nat)
    ensures forall s | s in sizes :: s <= n
  {
    if sizes == [] then 0
    else
      var rest := Largest(sizes[1..]);
      assert forall s | s in sizes :: s == sizes[0] || s in sizes[1..];
      if sizes[0] > rest then sizes[0] else rest
  }

  /** For every batch: the moving average exactly when the weighted sizes are above 12.5 KiB on
      average, or the newest block is above 14.8 KiB; the i-th block weighs decay^i. */
  lemma TrafficDecides(batch: seq<FeeBlock>, prev: Fees, config: Config)
    requires ValidConfig(config) && batch != [] && ValidTxs(batch[0].txs)
    ensures
      var sizes := Sizes(batch);
      BlockFees(batch, prev, config)
      == if Horner(sizes, config.decay) > 12800.0 * Horner(Ones(|sizes|), config.decay)
            || Size(batch[0].txs) as real > 15155.2
         then Ema(config.alpha, FeePerByte(batch[0].txs), prev) else Fees(0.0, 0.0, 0.0)
  {
    hide WeightedAverage, Ema, FeePerByte, Horner, Ones, Size;
    var sizes := Sizes(batch);
    WeightsAreGeometric(sizes, config.decay);
    QuotientAbove(Horner(sizes, config.decay), Horner(Ones(|sizes|), config.decay), 12800.0);
  }

  lemma QuotientAbove(x: real, w: real, c: real)
    requires w > 0.0
    ensures x / w > c <==> x > c * w
  {
    var q := x / w;
    assert q * w == x;
    NonNegativeProduct(if q > c then q - c else c - q, w);
    assert (q - c) * w == x - c * w;
    assert q > c ==> (q - c) * w > 0.0;
  }

  /** With two blocks, a the newer: a + decay b above 12800 (1 + decay), or a above 15155.2. */
  lemma TwoBlocksDecide(batch: seq<FeeBlock>, prev: Fees, config: Config)
    requires ValidConfig(config) && |batch| == 2 && ValidTxs(batch[0].txs)
    ensures
      var a, b := Size(batch[0].txs), Size(batch[1].txs);
      BlockFees(batch, prev, config)
      == if a as real + Share(config.decay, b as real) > 12800.0 * (1.0 + config.decay)
            || a as real > 15155.2
         then Ema(config.alpha, FeePerByte(batch[0].txs), prev) else Fees(0.0, 0.0, 0.0)
  {
    TrafficDecides(batch, prev, config);
    hide Size, Ema, FeePerByte, BlockFees;
    var sizes := Sizes(batch);
    assert sizes == [Size(batch[0].txs), Size(batch[1].txs)] && Ones(2) == [1, 1];
    HornerOfTwo(Size(batch[0].txs), Size(batch[1].txs), config.decay);
    HornerOfTwo(1, 1, config.decay);
    assert Share(config.decay, 1.0) == config.decay;
  }

  lemma HornerOfTwo(a: nat, b: nat, decay: real)
    ensures Horner([a, b], decay) == a as real + Share(decay, b as real)
  {
    assert [a, b][1..] == [b] && [b][1..] == [];
    assert Horner([b], decay) == b as real;
  }
}
