/** find_own_movements of main.py: cut the target series into aligned windows
    of `step` candles and concatenate, in order, the windows that are not
    explained by the reference series.

    The classification of each window depends only on that window, so the
    model separates it (`Kept`) from the collection of the kept windows
    (`Collect`), whose properties hold for any classification. */
module FlatMovements {
  import opened PySemantics
  import opened Candles
  import opened DepthWindow
  import opened Correlation
  import opened Arith

  /** The verdict of the loop for every aligned window of the target: true when
      find_correlation is falsy for window `k` against the depth window of the
      reference around the window's start index `k * step`. */
  function Kept(st: Stats, eth: seq<Candle>, btc: seq<Candle>, step: nat, depth: int): (kept: seq<bool>)
    requires step >= 1
    ensures |kept| == |eth| / step
    ensures forall k :: 0 <= k < |kept| ==>
              kept[k] == !IsCorrelated(st, Window(eth, step, k), GetSubsetByDepth(btc, k * step, depth))
  {
    seq(|eth| / step, k requires 0 <= k < |eth| / step =>
      !IsCorrelated(st, Window(eth, step, k), GetSubsetByDepth(btc, k * step, depth)))
  }

  /** The kept windows among the first `k`, concatenated in order. */
  function Collect(eth: seq<Candle>, step: nat, kept: seq<bool>, k: nat): (own: seq<Candle>)
    requires step >= 1 && k <= |kept| <= |eth| / step
    ensures |own| % step == 0
    ensures forall c :: c in own <==> exists m: nat :: m < k && kept[m] && c in Window(eth, step, m)
    decreases k
  {
    if k == 0 then []
    else
      var previous := Collect(eth, step, kept, k - 1);
      ModAddStep(|previous|, step);
      previous + if kept[k - 1] then Window(eth, step, k - 1) else []
  }

  /** What find_own_movements returns for a positive step. */
  function OwnMovements(st: Stats, eth: seq<Candle>, btc: seq<Candle>, step: nat, depth: int): seq<Candle>
    requires step >= 1
  {
    Collect(eth, step, Kept(st, eth, btc, step, depth), |eth| / step)
  }

  /** One step of the collection: window `k` is appended exactly when it is kept. */
  lemma CollectNext(eth: seq<Candle>, step: nat, kept: seq<bool>, k: nat, own: seq<Candle>)
    requires step >= 1 && k < |kept| <= |eth| / step
    requires own == Collect(eth, step, kept, k)
    ensures (if kept[k] then own + Window(eth, step, k) else own) == Collect(eth, step, kept, k + 1)
  {
  }

  /** The comparison both variants of the loop make for window number
      `iteration`, whose bounds `i`, `j` the loop keeps as
      `iteration * step` and `iteration * step + step`: the target slice is
      that aligned window and the answer is find_correlation's for it. */
  method CompareWindow(st: Stats, ethData: seq<Candle>, btcData: seq<Candle>, step: nat, depth: int,
                       iteration: nat, i: int, j: int)
    returns (ethSubset: seq<Candle>, correlated: bool)
    requires step >= 1 && iteration < |ethData| / step
    requires i == iteration * step && j == i + step
    ensures ethSubset == Window(ethData, step, iteration)
    ensures |ethSubset| == step
    ensures !correlated == Kept(st, ethData, btcData, step, depth)[iteration]
  {
    WindowFits(|ethData|, step, iteration);
    var btcSubset := GetSubsetByDepth(btcData, i, depth);
    ethSubset := Slice(ethData, i, j);
    assert ethSubset == Window(ethData, step, iteration);
    var answer := FindCorrelation(st, ethSubset, btcSubset);
    correlated := answer.value;
  }

  /** find_own_movements of main.py. The iteration count `len(eth_data) // step`
      raises for a zero step; for a negative step it is negative, and `range`
      of a count that is not positive runs no iteration. */
  method FindOwnMovements(st: Stats, ethData: seq<Candle>, btcData: seq<Candle>, step: int, depth: int)
    returns (r: Result<seq<Candle>>)
    ensures step == 0 <==> r == Raised(ZeroDivisionError)
    ensures step < 0 ==> r == Ok([])
    ensures step > 0 ==> r == Ok(OwnMovements(st, ethData, btcData, step, depth))
  {
    var iterations := FloorDiv(|ethData|, step);
    if iterations.Raised? {
      return Raised(iterations.error);
    }
    if iterations.value <= 0 {
      assert step > 0 ==> |ethData| / step == 0;
      return Ok([]);
    }
    var ownMovements := ScanWindows(st, ethData, btcData, step, depth);
    return Ok(ownMovements);
  }

  /** The loop of find_own_movements for a positive step. Slicing never
      raises, so the `except IndexError` arm is unreachable and every
      iteration advances `i` and `j` by one window. */
  method ScanWindows(st: Stats, ethData: seq<Candle>, btcData: seq<Candle>, step: nat, depth: int)
    returns (ownMovements: seq<Candle>)
    requires step >= 1
    ensures ownMovements == OwnMovements(st, ethData, btcData, step, depth)
  {
    ownMovements := [];
    var i := 0;
    var j := step;
    ghost var kept := Kept(st, ethData, btcData, step, depth);
    var iteration := 0;
    while iteration < |ethData| / step
      invariant iteration <= |ethData| / step == |kept|
      invariant i == iteration * step && j == i + step
      invariant ownMovements == Collect(ethData, step, kept, iteration)
    {
      MulSucc(iteration, step);
      var ethSubset, correlated := CompareWindow(st, ethData, btcData, step, depth, iteration, i, j);
      CollectNext(ethData, step, kept, iteration, ownMovements);
      if !correlated {
        ownMovements := ownMovements + ethSubset;
      }
      i := i + step;
      j := j + step;
      iteration := iteration + 1;
    }
  }

  /** The position in the series of a candle found in window `m`. */
  lemma WindowMember(s: seq<Candle>, step: nat, m: nat, c: Candle) returns (a: nat)
    requires step >= 1 && m < |s| / step && c in Window(s, step, m)
    ensures m * step <= a < m * step + step <= |s| && s[a] == c
  {
    var w := Window(s, step, m);
    var y :| 0 <= y < step && w[y] == c;
    a := m * step + y;
  }

  /** In a chronological series a candle found in window `m` lies inside that window. */
  lemma WindowMemberIndex(s: seq<Candle>, step: nat, m: nat, x: nat)
    requires Chronological(s) && step >= 1 && m < |s| / step && x < |s|
    requires s[x] in Window(s, step, m)
    ensures m * step <= x < m * step + step
  {
    var a := WindowMember(s, step, m, s[x]);
  }

  /** In a chronological series every candle of an earlier window is older
      than the first candle of a later one. */
  lemma EarlierWindowEarlier(s: seq<Candle>, step: nat, m: nat, k: nat, c: Candle)
    requires Chronological(s) && step >= 1 && m < k < |s| / step
    requires c in Window(s, step, m)
    ensures c.time < Window(s, step, k)[0].time
  {
    var a, b := EarlierWindowIndices(s, step, m, k, c);
    assert s[a].time < s[b].time;
  }

  /** The positions of a candle of window `m` and of the first candle of a later window `k`. */
  lemma EarlierWindowIndices(s: seq<Candle>, step: nat, m: nat, k: nat, c: Candle) returns (a: nat, b: nat)
    requires step >= 1 && m < k < |s| / step
    requires c in Window(s, step, m)
    ensures a < b < |s| && s[a] == c && Window(s, step, k)[0] == s[b]
  {
    a := WindowMember(s, step, m, c);
    WindowsOrdered(step, m, k);
    WindowFits(|s|, step, k);
    b := k * step;
    assert Window(s, step, k)[0] == s[b + 0];
  }

  /** Everything collected before window `k` is older than window `k`. */
  lemma CollectedBeforeWindow(eth: seq<Candle>, step: nat, kept: seq<bool>, k: nat)
    requires step >= 1 && k < |kept| <= |eth| / step && Chronological(eth)
    requires |Collect(eth, step, kept, k)| > 0
    ensures var own := Collect(eth, step, kept, k);
            own[|own| - 1].time < Window(eth, step, k)[0].time
  {
    var own := Collect(eth, step, kept, k);
    var last := own[|own| - 1];
    assert last in own;
    var m: nat :| m < k && kept[m] && last in Window(eth, step, m);
    EarlierWindowEarlier(eth, step, m, k, last);
  }

  /** Kept windows come out in the order they occur, so a chronological
      target gives chronological movements. */
  lemma {:induction false} CollectChronological(eth: seq<Candle>, step: nat, kept: seq<bool>, k: nat)
    requires step >= 1 && k <= |kept| <= |eth| / step && Chronological(eth)
    ensures Chronological(Collect(eth, step, kept, k))
  {
    if k > 0 {
      var previous := Collect(eth, step, kept, k - 1);
      CollectChronological(eth, step, kept, k - 1);
      if kept[k - 1] {
        if |previous| > 0 {
          CollectedBeforeWindow(eth, step, kept, k - 1);
        }
        WindowChronological(eth, step, k - 1);
        ConcatChronological(previous, Window(eth, step, k - 1));
      }
    }
  }

  /** find_own_movements keeps a chronological target chronological. */
  lemma OwnMovementsChronological(st: Stats, eth: seq<Candle>, btc: seq<Candle>, step: nat, depth: int)
    requires step >= 1 && Chronological(eth)
    ensures Chronological(OwnMovements(st, eth, btc, step, depth))
  {
    CollectChronological(eth, step, Kept(st, eth, btc, step, depth), |eth| / step);
  }

  /** For a chronological target, a candle of aligned window `m` is collected
      exactly when window `m` is kept, whatever the classification. */
  lemma CollectedIffKept(eth: seq<Candle>, step: nat, kept: seq<bool>, m: nat, x: nat)
    requires step >= 1 && Chronological(eth) && |kept| == |eth| / step
    requires m < |kept| && m * step <= x < m * step + step
    ensures x < |eth|
    ensures eth[x] in Collect(eth, step, kept, |kept|) <==> kept[m]
  {
    WindowFits(|eth|, step, m);
    assert Window(eth, step, m)[x - m * step] == eth[x];
    if eth[x] in Collect(eth, step, kept, |kept|) {
      var m': nat :| m' < |kept| && kept[m'] && eth[x] in Window(eth, step, m');
      WindowMemberIndex(eth, step, m', x);
      OneWindowPerIndex(step, m, m', x);
    }
  }

  /** For a chronological target, a candle of aligned window `m` appears in
      the result exactly when window `m` is independent of the reference. */
  lemma KeptIffIndependent(st: Stats, eth: seq<Candle>, btc: seq<Candle>, step: nat, depth: int, m: nat, x: nat)
    requires step >= 1 && Chronological(eth)
    requires m < |eth| / step && m * step <= x < m * step + step
    ensures x < |eth|
    ensures eth[x] in OwnMovements(st, eth, btc, step, depth)
            <==> !IsCorrelated(st, Window(eth, step, m), GetSubsetByDepth(btc, m * step, depth))
  {
    CollectedIffKept(eth, step, Kept(st, eth, btc, step, depth), m, x);
  }

  /** Whatever the target, every collected candle equals the candle at some
      position inside the whole windows: the remainder after the last window
      contributes nothing of its own. */
  lemma CollectedFromWholeWindows(eth: seq<Candle>, step: nat, kept: seq<bool>, c: Candle) returns (x: nat)
    requires step >= 1 && |kept| == |eth| / step
    requires c in Collect(eth, step, kept, |kept|)
    ensures x < |kept| * step && eth[x] == c
  {
    var m: nat :| m < |kept| && kept[m] && c in Window(eth, step, m);
    x := WindowMember(eth, step, m, c);
    WindowsOrdered(step, m, |kept|);
  }

  /** For any target, every candle of the result occurs in the whole windows,
      the prefix before the remainder that follows the last window. */
  lemma ResultFromWholeWindows(st: Stats, eth: seq<Candle>, btc: seq<Candle>, step: nat, depth: int, c: Candle)
    requires step >= 1 && c in OwnMovements(st, eth, btc, step, depth)
    ensures (|eth| / step) * step <= |eth|
    ensures c in eth[..(|eth| / step) * step]
  {
    var kept := Kept(st, eth, btc, step, depth);
    var x := CollectedFromWholeWindows(eth, step, kept, c);
    var whole := eth[..|kept| * step];
    assert whole[x] == c;
  }

  /** The trailing candles after the last full window never appear in the result. */
  lemma TrailingNeverKept(st: Stats, eth: seq<Candle>, btc: seq<Candle>, step: nat, depth: int, x: nat)
    requires step >= 1 && Chronological(eth)
    requires (|eth| / step) * step <= x < |eth|
    ensures eth[x] !in OwnMovements(st, eth, btc, step, depth)
  {
    var kept := Kept(st, eth, btc, step, depth);
    if eth[x] in OwnMovements(st, eth, btc, step, depth) {
      var m: nat :| m < |eth| / step && kept[m] && eth[x] in Window(eth, step, m);
      WindowMemberIndex(eth, step, m, x);
      WindowsOrdered(step, m, |eth| / step);
    }
  }

  /** With one-candle windows every window is kept. */
  lemma {:induction false} CollectAllKept(eth: seq<Candle>, kept: seq<bool>, k: nat)
    requires k <= |kept| <= |eth|
    requires forall m :: 0 <= m < k ==> kept[m]
    ensures Collect(eth, 1, kept, k) == eth[..k]
  {
    if k > 0 {
      CollectAllKept(eth, kept, k - 1);
      assert eth[..k] == eth[..k - 1] + Window(eth, 1, k - 1);
    }
  }

  /** With `step = 1` every target window is a single, flat candle, hence
      independent, and the result is the whole target series. */
  lemma StepOneKeepsAll(st: Stats, eth: seq<Candle>, btc: seq<Candle>, depth: int)
    requires SingletonsFlat(st)
    ensures OwnMovements(st, eth, btc, 1, depth) == eth
  {
    var kept := Kept(st, eth, btc, 1, depth);
    forall m | 0 <= m < |kept|
      ensures kept[m]
    {
      SingleCandleIsIndependent(st, Window(eth, 1, m), GetSubsetByDepth(btc, m * 1, depth));
    }
    CollectAllKept(eth, kept, |eth|);
  }
}
