/** Candles, the windows cut from a series of candles, and the two statistics
    the classifier consults about closing prices. */
module Candles {
  import opened Arith

  /** One one-minute candle. `time` is in seconds since the epoch and `close`
      is the closing price; the other fields of the data source play no part
      in the algorithm, so they are not modelled. */
  datatype Candle = Candle(time: int, close: real)

  /** The closing prices of a series, `[x['close'] for x in s]`. */
  function Closes(s: seq<Candle>): (r: seq<real>)
    ensures |r| == |s|
    ensures forall k :: 0 <= k < |s| ==> r[k] == s[k].close
  {
    seq(|s|, k requires 0 <= k < |s| => s[k].close)
  }

  /** The numpy statistics, left uninterpreted: `flat(p)` stands for
      `np.std(p) == 0` and `corr(p, q)` for `np.corrcoef(p, q)[1, 0] > 0.2`. */
  datatype Stats = Stats(flat: seq<real> -> bool, corr: (seq<real>, seq<real>) -> bool)

  /** The one fact about `np.std` the model relies on: a single price has no spread. */
  ghost predicate SingletonsFlat(st: Stats)
  {
    forall p: seq<real> :: |p| == 1 ==> st.flat(p)
  }

  /** A series is chronological when its times strictly increase. */
  predicate Chronological(s: seq<Candle>)
  {
    forall a, b :: 0 <= a < b < |s| ==> s[a].time < s[b].time
  }

  /** Joining two chronological series keeps it chronological when the first
      ends before the second starts. */
  lemma ConcatChronological(x: seq<Candle>, y: seq<Candle>)
    requires Chronological(x) && Chronological(y)
    requires |x| > 0 && |y| > 0 ==> x[|x| - 1].time < y[0].time
    ensures Chronological(x + y)
  {
    var xy := x + y;
    forall a, b | 0 <= a < b < |xy|
      ensures xy[a].time < xy[b].time
    {
      if a < |x| <= b {
        assert x[a].time <= x[|x| - 1].time;
        assert y[0].time <= y[b - |x|].time;
      }
    }
  }

  /** Window `k` of `len / step` aligned windows fits inside the series, and
      every window that fits is one of them. */
  lemma WindowFits(len: nat, step: nat, k: nat)
    requires step >= 1
    ensures k < len / step <==> k * step + step <= len
  {
    var q := len / step;
    assert q * step <= len < q * step + step;
    if k < q {
      MulMonotone(k + 1, q, step);
    } else {
      MulMonotone(q, k, step);
    }
  }

  /** The aligned window `s[k*step : (k+1)*step]`. */
  function Window(s: seq<Candle>, step: nat, k: nat): (w: seq<Candle>)
    requires step >= 1 && k < |s| / step
    ensures |w| == step && k * step + step <= |s|
    ensures forall y :: 0 <= y < step ==> w[y] == s[k * step + y]
  {
    WindowFits(|s|, step, k);
    s[k * step .. k * step + step]
  }

  /** A window of a chronological series is chronological. */
  lemma WindowChronological(s: seq<Candle>, step: nat, k: nat)
    requires step >= 1 && k < |s| / step && Chronological(s)
    ensures Chronological(Window(s, step, k))
  {
    var w := Window(s, step, k);
    forall a, b | 0 <= a < b < |w|
      ensures w[a].time < w[b].time
    {
      assert w[a] == s[k * step + a] && w[b] == s[k * step + b];
    }
  }

  /** Windows with smaller index lie wholly before windows with larger index. */
  lemma WindowsOrdered(step: nat, m: nat, k: nat)
    requires m < k
    ensures m * step + step <= k * step
  {
    MulMonotone(m + 1, k, step);
  }

  /** An index lies in only one aligned window. */
  lemma OneWindowPerIndex(step: nat, m: nat, m': nat, x: nat)
    requires m * step <= x < m * step + step
    requires m' * step <= x < m' * step + step
    ensures m == m'
  {
    if m < m' {
      WindowsOrdered(step, m, m');
    } else if m' < m {
      WindowsOrdered(step, m', m);
    }
  }
}
