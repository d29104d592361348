/** find_correlation: is a target window explained by the reference series?
    (main.py and correlation.py hold identical copies.)

    The reference is cut into consecutive aligned windows of the target's
    length, starting at index 0. The scan compares them in order; it answers
    true at the first compared window whose correlation exceeds 0.2. A flat
    window (or a flat target) makes Python's `continue` skip the index
    update, so the same window is met again on every remaining iteration and
    the answer is `None`, modelled as false. */
module Correlation {
  import opened PySemantics
  import opened Candles

  /** Reference window `k` is skipped: the target's or the window's closing prices are flat. */
  predicate Skipped(st: Stats, target: seq<Candle>, reference: seq<Candle>, k: nat)
    requires |target| >= 1 && k < |reference| / |target|
  {
    st.flat(Closes(Window(reference, |target|, k))) || st.flat(Closes(target))
  }

  /** The correlation of the target with reference window `k` exceeds 0.2. */
  predicate Exceeds(st: Stats, target: seq<Candle>, reference: seq<Candle>, k: nat)
    requires |target| >= 1 && k < |reference| / |target|
  {
    st.corr(Closes(target), Closes(Window(reference, |target|, k)))
  }

  /** Window `k` is compared and found uncorrelated, so the scan advances past it. */
  predicate MovesOn(st: Stats, target: seq<Candle>, reference: seq<Candle>, k: nat)
    requires |target| >= 1 && k < |reference| / |target|
  {
    !Skipped(st, target, reference, k) && !Exceeds(st, target, reference, k)
  }

  /** The scan reaches window `k`, compares it, and answers true there. */
  predicate CorrelatedAt(st: Stats, target: seq<Candle>, reference: seq<Candle>, k: nat)
    requires |target| >= 1
  {
    && k < |reference| / |target|
    && (forall m: nat :: m < k ==> MovesOn(st, target, reference, m))
    && !Skipped(st, target, reference, k)
    && Exceeds(st, target, reference, k)
  }

  /** The truthiness of find_correlation's result for a non-empty target. */
  predicate IsCorrelated(st: Stats, target: seq<Candle>, reference: seq<Candle>)
    requires |target| >= 1
  {
    exists k: nat :: k < |reference| / |target| && CorrelatedAt(st, target, reference, k)
  }

  /** The scan, as main.py runs it: `i`, `j` advance by `step` only past a
      compared, uncorrelated window, and an empty target raises in `len(btc) // step`. */
  method FindCorrelation(st: Stats, ethSubset: seq<Candle>, btcData: seq<Candle>) returns (r: Result<bool>)
    ensures |ethSubset| == 0 <==> r == Raised(ZeroDivisionError)
    ensures |ethSubset| >= 1 ==> r == Ok(IsCorrelated(st, ethSubset, btcData))
  {
    var step := |ethSubset|;
    var ethClosePrices := Closes(ethSubset);
    var iterations := FloorDiv(|btcData|, step);
    if iterations.Raised? {
      return Raised(iterations.error);
    }
    var i := 0;
    var j := step;
    ghost var k: nat := 0;
    var iteration := 0;
    while iteration < iterations.value
      invariant iterations.value == |btcData| / step
      invariant k <= iteration <= iterations.value
      invariant i == k * step && j == i + step
      invariant forall m: nat :: m < k ==> MovesOn(st, ethSubset, btcData, m)
      invariant k < iteration ==> Skipped(st, ethSubset, btcData, k)
    {
      WindowFits(|btcData|, step, k);
      var btcSubset := Slice(btcData, i, j);
      assert btcSubset == Window(btcData, step, k);
      var btcClosePrices := Closes(btcSubset);
      if st.flat(btcClosePrices) || st.flat(ethClosePrices) {
        iteration := iteration + 1;
        continue;
      }
      if st.corr(ethClosePrices, btcClosePrices) {
        assert CorrelatedAt(st, ethSubset, btcData, k);
        return Ok(true);
      }
      i := i + step;
      j := j + step;
      k := k + 1;
      iteration := iteration + 1;
    }
    if k < iteration {
      StopsAtSkipped(st, ethSubset, btcData, k);
    } else {
      ExhaustedIsIndependent(st, ethSubset, btcData);
    }
    return Ok(false);
  }

  /** The scan does not move past the window it answers true at. */
  lemma HaltsAt(st: Stats, target: seq<Candle>, reference: seq<Candle>, k: nat)
    requires |target| >= 1 && CorrelatedAt(st, target, reference, k)
    ensures !MovesOn(st, target, reference, k)
  {
  }

  /** At most one window is the one the scan answers true at. */
  lemma CorrelatedAtIsFirst(st: Stats, target: seq<Candle>, reference: seq<Candle>, k: nat, k': nat)
    requires |target| >= 1
    requires CorrelatedAt(st, target, reference, k) && CorrelatedAt(st, target, reference, k')
    ensures k == k'
  {
    // Each scan halts at its own window, but the other one would have had
    // to move past the earlier of the two.
    HaltsAt(st, target, reference, k);
    HaltsAt(st, target, reference, k');
  }

  /** Once a skipped window is reached the indices stop advancing: no later
      window can make the answer true. */
  lemma StopsAtSkipped(st: Stats, target: seq<Candle>, reference: seq<Candle>, k: nat)
    requires |target| >= 1 && k < |reference| / |target|
    requires forall m: nat :: m < k ==> MovesOn(st, target, reference, m)
    requires Skipped(st, target, reference, k)
    ensures !IsCorrelated(st, target, reference)
  {
    forall k': nat | k' < |reference| / |target|
      ensures !CorrelatedAt(st, target, reference, k')
    {
      if k' > k {
        assert !MovesOn(st, target, reference, k);
      } else if k' < k {
        assert MovesOn(st, target, reference, k');
      }
    }
  }

  /** When every window is compared and none correlates, the answer is false. */
  lemma ExhaustedIsIndependent(st: Stats, target: seq<Candle>, reference: seq<Candle>)
    requires |target| >= 1
    requires forall m: nat :: m < |reference| / |target| ==> MovesOn(st, target, reference, m)
    ensures !IsCorrelated(st, target, reference)
  {
    forall k': nat | k' < |reference| / |target|
      ensures !CorrelatedAt(st, target, reference, k')
    {
      assert MovesOn(st, target, reference, k');
    }
  }

  /** Two references that agree up to `end` have the same aligned windows
      wherever those windows end by `end`. */
  lemma SharedWindow(reference: seq<Candle>, other: seq<Candle>, step: nat, m: nat, end: nat)
    requires step >= 1 && m * step + step <= end <= |reference| && end <= |other|
    requires other[..end] == reference[..end]
    ensures m < |reference| / step && m < |other| / step
    ensures Window(other, step, m) == Window(reference, step, m)
  {
    WindowFits(|reference|, step, m);
    WindowFits(|other|, step, m);
    var w := Window(reference, step, m);
    var w' := Window(other, step, m);
    forall y | 0 <= y < step
      ensures w'[y] == w[y]
    {
      assert other[..end][m * step + y] == reference[..end][m * step + y];
    }
  }

  /** The answer is fixed by the first window the scan does not move past:
      any reference that agrees with this one up to the end of that window
      gets the same answer, so no later window is ever examined. */
  lemma DecidedAtFirstHalt(st: Stats, target: seq<Candle>, reference: seq<Candle>, other: seq<Candle>, k: nat)
    requires |target| >= 1 && k < |reference| / |target|
    requires forall m: nat :: m < k ==> MovesOn(st, target, reference, m)
    requires !MovesOn(st, target, reference, k)
    requires k * |target| + |target| <= |other|
    requires other[..k * |target| + |target|] == reference[..k * |target| + |target|]
    ensures IsCorrelated(st, target, reference) == !Skipped(st, target, reference, k)
    ensures IsCorrelated(st, target, other) == IsCorrelated(st, target, reference)
  {
    var step := |target|;
    var end := k * step + step;
    WindowFits(|reference|, step, k);
    forall m: nat | m <= k
      ensures m < |other| / step
      ensures Window(other, step, m) == Window(reference, step, m)
    {
      if m < k {
        WindowsOrdered(step, m, k);
      }
      SharedWindow(reference, other, step, m, end);
    }
    forall m: nat | m < k
      ensures MovesOn(st, target, other, m)
    {
      assert MovesOn(st, target, reference, m);
    }
    if Skipped(st, target, reference, k) {
      StopsAtSkipped(st, target, reference, k);
      StopsAtSkipped(st, target, other, k);
    } else {
      assert CorrelatedAt(st, target, reference, k);
      assert CorrelatedAt(st, target, other, k);
    }
  }

  /** A flat target window is never classified as correlated. */
  lemma FlatTargetIsIndependent(st: Stats, target: seq<Candle>, reference: seq<Candle>)
    requires |target| >= 1 && st.flat(Closes(target))
    ensures !IsCorrelated(st, target, reference)
  {
  }

  /** A reference shorter than the target gives no iterations, so the target is independent. */
  lemma ShortReferenceIsIndependent(st: Stats, target: seq<Candle>, reference: seq<Candle>)
    requires 1 <= |target| && |reference| < |target|
    ensures !IsCorrelated(st, target, reference)
  {
  }

  /** A one-candle target (step 1) is flat, so it is never classified as correlated. */
  lemma SingleCandleIsIndependent(st: Stats, target: seq<Candle>, reference: seq<Candle>)
    requires SingletonsFlat(st) && |target| == 1
    ensures !IsCorrelated(st, target, reference)
  {
    assert st.flat(Closes(target));
  }
}
