/** The average fee priority over a window of byte positions of a block. */
module FeeWindow {

  /** A transaction as the window sees it: fee above the minimum per byte, and its size. */
  datatype Detail = Detail(priority: real, size: nat)

  function Bytes(ds: seq<Detail>): nat {
    if ds == [] then 0 else Bytes(ds[..|ds| - 1]) + ds[|ds| - 1].size
  }

  /** How many bytes of the transaction at position `pos` enter the total. The three cases
      overlap, and the first and third count one byte too many. */
  function CountedBytes(pos: nat, size: nat, lower: nat, upper: nat): nat {
    (if pos <= lower < pos + size <= upper then pos + size - lower + 1 else 0)
    + (if lower <= pos && pos + size <= upper then size else 0)
    + (if lower <= pos <= upper <= pos + size then upper - pos + 1 else 0)
  }

  /** The bytes of the transaction that do lie in the window. */
  function Overlap(pos: nat, size: nat, lower: nat, upper: nat): nat {
    var first := if pos < lower then lower else pos;
    var end := if pos + size <= upper then pos + size else upper + 1;
    if first < end then end - first else 0
  }

  /** The count is the overlap if and only if the transaction lies outside the window, or begins
      inside it and does not end exactly before its last byte; one that begins at the lower end
      must reach over the upper one. One that reaches over both ends is not counted at all. */
  lemma CountIsOverlapIff(pos: nat, size: nat, lower: nat, upper: nat)
    requires lower < upper && size > 0
    ensures CountedBytes(pos, size, lower, upper) == Overlap(pos, size, lower, upper) <==>
      || pos + size <= lower
      || pos > upper
      || (lower < pos && pos + size != upper)
      || (pos == lower && pos + size > upper)
    ensures pos < lower && upper < pos + size ==> CountedBytes(pos, size, lower, upper) == 0
    ensures pos < lower < pos + size <= upper ==>
      CountedBytes(pos, size, lower, upper) == Overlap(pos, size, lower, upper) + 1
    ensures lower < pos && pos + size == upper ==>
      CountedBytes(pos, size, lower, upper) == 2 * Overlap(pos, size, lower, upper) + 1
    ensures pos == lower && pos + size < upper ==>
      CountedBytes(pos, size, lower, upper) == 2 * Overlap(pos, size, lower, upper) + 1
    ensures pos == lower && pos + size == upper ==>
      CountedBytes(pos, size, lower, upper) == 3 * Overlap(pos, size, lower, upper) + 2
  {
  }

  /** The fee of `n` bytes at a price per byte. */
  function Times(x: real, n: int): real {
    x * (n as real)
  }

  lemma TimesAdds(x: real, m: int, n: int)
    ensures Times(x, m + n) == Times(x, m) + Times(x, n)
    ensures Times(x, 0) == 0.0
  {
  }

  lemma TimesIsMonotone(x: real, y: real, n: int)
    requires x <= y && n >= 0
    ensures Times(x, n) <= Times(y, n)
  {
    assert Times(y, n) - Times(x, n) == (y - x) * (n as real);
  }

  function Total(ds: seq<Detail>, lower: nat, upper: nat): real {
    if ds == [] then 0.0
    else
      var init, last := ds[..|ds| - 1], ds[|ds| - 1];
      Total(init, lower, upper)
      + Times(last.priority, CountedBytes(Bytes(init), last.size, lower, upper))
  }

  /** The average the estimator uses for the window. */
  function Average(ds: seq<Detail>, lower: nat, upper: nat): real
    requires lower <= upper
  {
    Total(ds, lower, upper) / ((upper - lower + 1) as real)
  }

  /** What one pass of the loop adds. */
  method AddTransaction(total: real, d: Detail, pos: nat, lower: nat, upper: nat)
    returns (r: real)
    ensures r == total + Times(d.priority, CountedBytes(pos, d.size, lower, upper))
  {
    hide Times;
    r := total;
    TimesAdds(d.priority, 0, 0);
    ghost var counted := 0;
    if pos <= lower && lower < pos + d.size && pos + d.size <= upper {
      r := r + Times(d.priority, pos + d.size - lower + 1);
      counted := pos + d.size - lower + 1;
    }
    if lower <= pos && pos + d.size <= upper {
      TimesAdds(d.priority, counted, d.size);
      r := r + Times(d.priority, d.size);
      counted := counted + d.size;
    }
    if lower <= pos && upper >= pos && upper <= pos + d.size {
      TimesAdds(d.priority, counted, upper - pos + 1);
      r := r + Times(d.priority, upper - pos + 1);
      counted := counted + (upper - pos + 1);
    }
  }

  /** The loop over the transactions, with its running byte position and fee total. */
  method CalculateAvgFeePerByte(ds: seq<Detail>, lower: nat, upper: nat) returns (avg: real)
    requires lower <= upper
    ensures avg == Average(ds, lower, upper)
  {
    hide Times;
    var pos, total := 0, 0.0;
    for i := 0 to |ds|
      invariant pos == Bytes(ds[..i]) && total == Total(ds[..i], lower, upper)
    {
      assert ds[..i + 1][..i] == ds[..i];
      total := AddTransaction(total, ds[i], pos, lower, upper);
      pos := pos + ds[i].size;
    }
    assert ds[..|ds|] == ds;
    avg := total / ((upper - lower + 1) as real);
  }

  // ---- The bound ----

  ghost predicate Bounded(ds: seq<Detail>, p: real) {
    forall d | d in ds :: d.size > 0 && 0.0 <= d.priority <= p
  }

  ghost function Counted(ds: seq<Detail>, lower: nat, upper: nat): nat {
    if ds == [] then 0
    else
      var init, last := ds[..|ds| - 1], ds[|ds| - 1];
      Counted(init, lower, upper) + CountedBytes(Bytes(init), last.size, lower, upper)
  }

  /** The most bytes that can have been counted when the position `pos` has been reached. */
  ghost function MostCounted(pos: nat, lower: nat, upper: nat): nat
    requires lower < upper
  {
    var width := upper - lower + 1;
    if pos <= lower then 0
    else if pos < upper then 2 * (pos - lower) + 1
    else if pos == upper then 3 * width - 1
    else 3 * width
  }

  lemma {:induction false} CountedIsLimited(ds: seq<Detail>, lower: nat, upper: nat)
    requires lower < upper && forall d | d in ds :: d.size > 0
    ensures Counted(ds, lower, upper) <= MostCounted(Bytes(ds), lower, upper)
  {
    if ds != [] {
      var init, last := ds[..|ds| - 1], ds[|ds| - 1];
      assert last in ds && forall d | d in init :: d in ds;
      CountedIsLimited(init, lower, upper);
    }
  }

  lemma {:induction false} TotalIsLimited(ds: seq<Detail>, p: real, lower: nat, upper: nat)
    requires Bounded(ds, p)
    ensures 0.0 <= Total(ds, lower, upper) <= Times(p, Counted(ds, lower, upper))
  {
    hide Times, CountedBytes;
    TimesAdds(p, 0, 0);
    if ds != [] {
      var init, last := ds[..|ds| - 1], ds[|ds| - 1];
      assert last in ds && forall d | d in init :: d in ds;
      TotalIsLimited(init, p, lower, upper);
      var n := CountedBytes(Bytes(init), last.size, lower, upper);
      TimesIsMonotone(0.0, last.priority, n);
      TimesIsMonotone(last.priority, p, n);
      ZeroTimes(n);
      TimesAdds(p, Counted(init, lower, upper), n);
    }
  }

  lemma ZeroTimes(n: int)
    ensures Times(0.0, n) == 0.0
  {
  }

  lemma DivisionBound(x: real, y: real, m: nat, n: nat)
    requires n > 0 && y >= 0.0 && m <= 3 * n && 0.0 <= x <= Times(y, m)
    ensures 0.0 <= x / (n as real) <= 3.0 * y
  {
    var q := x / (n as real);
    assert q * (n as real) == x;
    TimesAdds(y, m, 3 * n - m);
    TimesIsMonotone(0.0, y, 3 * n - m);
    assert x <= Times(y, 3 * n);
    assert Times(y, 3 * n) == (3.0 * y) * (n as real);
  }

  /** The window average is at most three times the highest priority. */
  lemma AverageIsAtMostTriple(ds: seq<Detail>, p: real, lower: nat, upper: nat)
    requires lower < upper && p >= 0.0 && Bounded(ds, p)
    ensures 0.0 <= Average(ds, lower, upper) <= 3.0 * p
  {
    hide Times, Total;
    TotalIsLimited(ds, p, lower, upper);
    CountedIsLimited(ds, lower, upper);
    DivisionBound(Total(ds, lower, upper), p, Counted(ds, lower, upper), upper - lower + 1);
  }

  lemma FilledWindowTotal(a: Detail, b: Detail, c: Detail, lower: nat, upper: nat)
    requires 0 < lower < upper && c.size > 0
    requires a.size == lower && b.size == upper - lower
    requires a.priority == b.priority == c.priority
    ensures Total([a, b, c], lower, upper) == Times(a.priority, 3 * (upper - lower + 1))
  {
    hide Times;
    var p, width := a.priority, upper - lower + 1;
    assert [a][..0] == [] && [a, b][..1] == [a] && [a, b, c][..2] == [a, b];
    assert Bytes([a]) == lower && Bytes([a, b]) == upper;
    TimesAdds(p, 0, 0);
    assert Total([a], lower, upper) == 0.0;
    assert Total([a, b], lower, upper) == Times(p, 3 * width - 1);
    TimesAdds(p, 3 * width - 1, 1);
  }

  /** The bound is attained: one transaction that fills the window exactly, and any transaction
      that starts at its last byte. */
  lemma TripleIsAttained(p: real, lower: nat, upper: nat, size: nat)
    requires 0 < lower < upper && size > 0
    ensures Average([Detail(p, lower), Detail(p, upper - lower), Detail(p, size)], lower, upper)
            == 3.0 * p
  {
    hide Total;
    FilledWindowTotal(Detail(p, lower), Detail(p, upper - lower), Detail(p, size), lower, upper);
    var width := upper - lower + 1;
    assert Times(p, 3 * width) == (3.0 * p) * (width as real);
  }

  // ---- What the window sees ----

  /** The transaction at position `i` of the list has a byte in the window. */
  ghost predicate Reaches(ds: seq<Detail>, i: nat, lower: nat, upper: nat)
    requires i < |ds|
  {
    Bytes(ds[..i]) <= upper && Bytes(ds[..i]) + ds[i].size > lower
  }

  lemma OutsideCountsNothing(pos: nat, size: nat, lower: nat, upper: nat)
    requires lower < upper && size > 0 && (pos > upper || pos + size <= lower)
    ensures CountedBytes(pos, size, lower, upper) == 0
  {
  }

  lemma TotalOfOneMore(ds: seq<Detail>, i: nat, lower: nat, upper: nat)
    requires i < |ds|
    ensures Bytes(ds[..i + 1]) == Bytes(ds[..i]) + ds[i].size
    ensures Total(ds[..i + 1], lower, upper) == Total(ds[..i], lower, upper)
      + Times(ds[i].priority, CountedBytes(Bytes(ds[..i]), ds[i].size, lower, upper))
  {
    assert ds[..i + 1][..i] == ds[..i];
  }

  /** The transactions have the same sizes, and where they reach into the window, the same
      priorities. */
  ghost predicate AlikeInWindow(a: seq<Detail>, b: seq<Detail>, k: nat, lower: nat, upper: nat) {
    && k <= |a| && k <= |b|
    && forall i | 0 <= i < k ::
         && a[i].size == b[i].size > 0
         && (Reaches(a, i, lower, upper) ==> a[i].priority == b[i].priority)
  }

  lemma TimesNothing(x: real)
    ensures Times(x, 0) == 0.0
  {
  }

  lemma {:induction false} AlikeTotals(a: seq<Detail>, b: seq<Detail>, k: nat, lower: nat,
                                       upper: nat)
    requires lower < upper && AlikeInWindow(a, b, k, lower, upper)
    ensures Bytes(a[..k]) == Bytes(b[..k])
    ensures Total(a[..k], lower, upper) == Total(b[..k], lower, upper)
    decreases k
  {
    hide Times, CountedBytes, Total, Bytes;
    if k == 0 {
      assert a[..0] == b[..0];
    } else {
      AlikeTotals(a, b, k - 1, lower, upper);
      TotalOfOneMore(a, k - 1, lower, upper);
      TotalOfOneMore(b, k - 1, lower, upper);
      if !Reaches(a, k - 1, lower, upper) {
        OutsideCountsNothing(Bytes(a[..k - 1]), a[k - 1].size, lower, upper);
        TimesNothing(a[k - 1].priority);
        TimesNothing(b[k - 1].priority);
      }
    }
  }

  /** What begins above the window adds nothing. */
  lemma {:induction false} NothingAbove(ds: seq<Detail>, k: nat, n: nat, lower: nat, upper: nat)
    requires lower < upper && k <= n <= |ds| && Bytes(ds[..k]) > upper
    requires forall i | 0 <= i < |ds| :: ds[i].size > 0
    ensures Bytes(ds[..n]) > upper && Total(ds[..n], lower, upper) == Total(ds[..k], lower, upper)
    decreases n
  {
    hide Times, CountedBytes, Total, Bytes;
    if k < n {
      NothingAbove(ds, k, n - 1, lower, upper);
      TotalOfOneMore(ds, n - 1, lower, upper);
      OutsideCountsNothing(Bytes(ds[..n - 1]), ds[n - 1].size, lower, upper);
      TimesNothing(ds[n - 1].priority);
    }
  }

  /** The average depends on nothing but the sizes of the transactions up to the end of the window,
      and the priorities of those that reach into it. */
  lemma AverageSeesItsWindow(a: seq<Detail>, b: seq<Detail>, k: nat, lower: nat, upper: nat)
    requires lower < upper && AlikeInWindow(a, b, k, lower, upper)
    requires forall i | 0 <= i < |a| :: a[i].size > 0
    requires forall i | 0 <= i < |b| :: b[i].size > 0
    requires (k == |a| && k == |b|) || Bytes(a[..k]) > upper
    ensures Average(a, lower, upper) == Average(b, lower, upper)
  {
    hide Total, Bytes, AlikeInWindow;
    AlikeTotals(a, b, k, lower, upper);
    assert a[..|a|] == a && b[..|b|] == b;
    if !(k == |a| && k == |b|) {
      AlikeWithin(a, b, k, lower, upper);
      NothingAbove(a, k, |a|, lower, upper);
      NothingAbove(b, k, |b|, lower, upper);
    }
  }

  lemma AlikeWithin(a: seq<Detail>, b: seq<Detail>, k: nat, lower: nat, upper: nat)
    requires AlikeInWindow(a, b, k, lower, upper)
    ensures k <= |a| && k <= |b|
  {
  }

  /** It is zero when all that reach into it have no priority. */
  lemma {:induction false} ZeroTotal(ds: seq<Detail>, k: nat, lower: nat, upper: nat)
    requires lower < upper && k <= |ds|
    requires forall i | 0 <= i < |ds| :: ds[i].size > 0
    requires forall i | 0 <= i < |ds| :: Reaches(ds, i, lower, upper) ==> ds[i].priority == 0.0
    ensures Total(ds[..k], lower, upper) == 0.0
    decreases k
  {
    if k == 0 {
      assert ds[..0] == [];
    } else {
      hide Times, CountedBytes, Total, Bytes;
      ZeroTotal(ds, k - 1, lower, upper);
      TotalOfOneMore(ds, k - 1, lower, upper);
      ZeroTimes(CountedBytes(Bytes(ds[..k - 1]), ds[k - 1].size, lower, upper));
      if !Reaches(ds, k - 1, lower, upper) {
        OutsideCountsNothing(Bytes(ds[..k - 1]), ds[k - 1].size, lower, upper);
        TimesNothing(ds[k - 1].priority);
      }
    }
  }

  lemma ZeroAverage(ds: seq<Detail>, lower: nat, upper: nat)
    requires lower < upper
    requires forall i | 0 <= i < |ds| :: ds[i].size > 0
    requires forall i | 0 <= i < |ds| :: Reaches(ds, i, lower, upper) ==> ds[i].priority == 0.0
    ensures Average(ds, lower, upper) == 0.0
  {
    hide Total, Bytes;
    ZeroTotal(ds, |ds|, lower, upper);
    assert ds[..|ds|] == ds;
  }
}
