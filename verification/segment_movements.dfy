/** The list-of-segments variant in correlation.py: kept windows are added
    with append_movements, which either extends the last segment or starts
    a new one. */
module SegmentMovements {
  import opened PySemantics
  import opened Candles
  import opened DepthWindow
  import opened Correlation
  import opened FlatMovements
  import opened Arith

  function Last<T>(s: seq<T>): T
    requires |s| > 0
  {
    s[|s| - 1]
  }

  /** The candles of all segments, in order. */
  function Flatten(segments: seq<seq<Candle>>): seq<Candle>
  {
    if |segments| == 0 then []
    else Flatten(segments[..|segments| - 1]) + Last(segments)
  }

  /** The last candle of the flattened segments is the last candle of the last segment. */
  lemma FlattenEndsWithLastSegment(segments: seq<seq<Candle>>)
    requires |segments| > 0 && |Last(segments)| > 0
    ensures |Flatten(segments)| > 0 && Last(Flatten(segments)) == Last(Last(segments))
  {
  }

  /** append_movements on a list value. Indexing `[-1]` of an empty last
      segment, or `[0]` of an empty new subset, raises IndexError. A new
      segment is started only when the stored last time minus the new first
      time exceeds 60 seconds; otherwise the new candles extend the last segment. */
  function AppendMovements(ownMovements: seq<seq<Candle>>, newSubset: seq<Candle>): (r: Result<seq<seq<Candle>>>)
    ensures |ownMovements| == 0 ==> r == Ok([newSubset])
    ensures r.Raised? <==> |ownMovements| > 0 && (|Last(ownMovements)| == 0 || |newSubset| == 0)
    ensures r.Raised? ==> r.error == IndexError
    ensures r.Ok? ==> Flatten(r.value) == Flatten(ownMovements) + newSubset
    ensures r.Ok? ==> |ownMovements| <= |r.value| <= |ownMovements| + 1
    ensures r.Ok? && |ownMovements| > 0 ==> r.value[..|ownMovements| - 1] == ownMovements[..|ownMovements| - 1]
    ensures r.Ok? && |ownMovements| > 0 ==>
              (|r.value| == |ownMovements| + 1 <==> Last(Last(ownMovements)).time - newSubset[0].time > 60)
    ensures r.Ok? && |r.value| == |ownMovements| + 1 ==> r.value == ownMovements + [newSubset]
    ensures r.Ok? && |r.value| == |ownMovements| > 0 ==> Last(r.value) == Last(ownMovements) + newSubset
  {
    if |ownMovements| == 0 then Ok([newSubset])
    else
      var lastSegment := Last(ownMovements);
      if |lastSegment| == 0 || |newSubset| == 0 then Raised(IndexError)
      else if Last(lastSegment).time - newSubset[0].time > 60 then
        Ok(ownMovements + [newSubset])
      else
        var r := ownMovements[..|ownMovements| - 1] + [lastSegment + newSubset];
        assert r[..|r| - 1] == ownMovements[..|ownMovements| - 1];
        Ok(r)
  }

  /** Because the subtraction runs last-minus-new, a new window that starts
      no earlier than the last stored candle is always merged, whatever the
      gap between them. */
  lemma AppendChronologicalMerges(ownMovements: seq<seq<Candle>>, newSubset: seq<Candle>)
    requires |ownMovements| > 0 && |Last(ownMovements)| > 0 && |newSubset| > 0
    requires Last(Last(ownMovements)).time <= newSubset[0].time
    ensures AppendMovements(ownMovements, newSubset)
            == Ok(ownMovements[..|ownMovements| - 1] + [Last(ownMovements) + newSubset])
  {
    var r := AppendMovements(ownMovements, newSubset);
    assert |r.value| == |ownMovements|;
    assert r.value == r.value[..|ownMovements| - 1] + [Last(r.value)];
  }

  /** Every segment is non-empty and a whole number of windows long. */
  predicate WellShaped(segments: seq<seq<Candle>>, step: nat)
    requires step >= 1
  {
    forall s :: s in segments ==> |s| > 0 && |s| % step == 0
  }

  /** Appending a whole window to well-shaped segments never raises and keeps them well shaped. */
  lemma AppendKeepsShape(segments: seq<seq<Candle>>, w: seq<Candle>, step: nat)
    requires step >= 1 && |w| == step && WellShaped(segments, step)
    ensures AppendMovements(segments, w).Ok?
    ensures WellShaped(AppendMovements(segments, w).value, step)
  {
    ModAddStep(0, step);
    if |segments| > 0 {
      assert Last(segments) in segments;
      ModAddStep(|Last(segments)|, step);
      var r := AppendMovements(segments, w).value;
      forall s | s in r
        ensures |s| > 0 && |s| % step == 0
      {
        if s != Last(r) {
          var x :| 0 <= x < |r| && r[x] == s;
          if x < |segments| - 1 {
            assert s == r[..|segments| - 1][x];
          } else {
            assert s == segments[x];
          }
          assert s in segments;
        }
      }
    }
  }

  /** Appending a window that starts no earlier than everything stored
      leaves at most one segment if there was at most one before. */
  lemma AppendKeepsOneSegment(segments: seq<seq<Candle>>, w: seq<Candle>)
    requires |segments| <= 1 && |w| > 0
    requires |segments| > 0 ==> |Last(segments)| > 0 && Last(Last(segments)).time <= w[0].time
    ensures AppendMovements(segments, w).Ok?
    ensures |AppendMovements(segments, w).value| <= 1
  {
    if |segments| > 0 {
      AppendChronologicalMerges(segments, w);
    }
  }

  /** The kept windows among the first `k`, added one by one with append_movements. */
  function Gather(eth: seq<Candle>, step: nat, kept: seq<bool>, k: nat): (segments: seq<seq<Candle>>)
    requires step >= 1 && k <= |kept| <= |eth| / step
    ensures WellShaped(segments, step)
    decreases k
  {
    if k == 0 then []
    else
      var previous := Gather(eth, step, kept, k - 1);
      if kept[k - 1] then
        var w := Window(eth, step, k - 1);
        AppendKeepsShape(previous, w, step);
        AppendMovements(previous, w).value
      else previous
  }

  /** What the list variant of find_own_movements returns for a positive step. */
  function OwnSegments(st: Stats, eth: seq<Candle>, btc: seq<Candle>, step: nat, depth: int): seq<seq<Candle>>
    requires step >= 1
  {
    Gather(eth, step, Kept(st, eth, btc, step, depth), |eth| / step)
  }

  /** Gathering into segments collects exactly the candles the flat
      concatenation collects: flattening the segments gives the same sequence. */
  lemma {:induction false} GatherFlattensToCollect(eth: seq<Candle>, step: nat, kept: seq<bool>, k: nat)
    requires step >= 1 && k <= |kept| <= |eth| / step
    ensures Flatten(Gather(eth, step, kept, k)) == Collect(eth, step, kept, k)
  {
    if k > 0 {
      GatherFlattensToCollect(eth, step, kept, k - 1);
    }
  }

  /** The two variants of find_own_movements agree on the candles they keep. */
  lemma VariantsAgree(st: Stats, eth: seq<Candle>, btc: seq<Candle>, step: nat, depth: int)
    requires step >= 1
    ensures Flatten(OwnSegments(st, eth, btc, step, depth)) == OwnMovements(st, eth, btc, step, depth)
  {
    GatherFlattensToCollect(eth, step, Kept(st, eth, btc, step, depth), |eth| / step);
  }

  /** The last stored candle is older than the next window. */
  lemma LastStoredBeforeWindow(eth: seq<Candle>, step: nat, kept: seq<bool>, k: nat)
    requires step >= 1 && k < |kept| <= |eth| / step && Chronological(eth)
    requires |Gather(eth, step, kept, k)| > 0
    ensures var segments := Gather(eth, step, kept, k);
            |Last(segments)| > 0 && Last(Last(segments)).time < Window(eth, step, k)[0].time
  {
    var segments := Gather(eth, step, kept, k);
    assert Last(segments) in segments;
    FlattenEndsWithLastSegment(segments);
    GatherFlattensToCollect(eth, step, kept, k);
    CollectedBeforeWindow(eth, step, kept, k);
  }

  /** For a chronological target every kept window merges into the segment
      started first, so at most one segment is ever built. */
  lemma {:induction false} ChronologicalGathersOneSegment(eth: seq<Candle>, step: nat, kept: seq<bool>, k: nat)
    requires step >= 1 && k <= |kept| <= |eth| / step && Chronological(eth)
    ensures |Gather(eth, step, kept, k)| <= 1
  {
    if k > 0 {
      var previous := Gather(eth, step, kept, k - 1);
      ChronologicalGathersOneSegment(eth, step, kept, k - 1);
      if |previous| > 0 {
        LastStoredBeforeWindow(eth, step, kept, k - 1);
      }
      AppendKeepsOneSegment(previous, Window(eth, step, k - 1));
    }
  }

  /** Because append_movements subtracts the new time from the stored one, a
      chronological target never yields more than one segment, however far
      apart its independent windows are. */
  lemma ChronologicalGivesOneSegment(st: Stats, eth: seq<Candle>, btc: seq<Candle>, step: nat, depth: int)
    requires step >= 1 && Chronological(eth)
    ensures |OwnSegments(st, eth, btc, step, depth)| <= 1
  {
    ChronologicalGathersOneSegment(eth, step, Kept(st, eth, btc, step, depth), |eth| / step);
  }

  /** At most one segment, chronological once flattened, is itself chronological. */
  lemma SingleSegmentChronological(segments: seq<seq<Candle>>)
    requires |segments| <= 1 && Chronological(Flatten(segments))
    ensures forall s :: s in segments ==> Chronological(s)
  {
    if |segments| == 1 {
      assert segments[..0] == [];
      assert Flatten(segments) == segments[0];
    }
  }

  /** For a chronological target, the times inside every segment of the
      list variant strictly increase. */
  lemma OwnSegmentsChronological(st: Stats, eth: seq<Candle>, btc: seq<Candle>, step: nat, depth: int)
    requires step >= 1 && Chronological(eth)
    ensures forall s :: s in OwnSegments(st, eth, btc, step, depth) ==> Chronological(s)
  {
    ChronologicalGivesOneSegment(st, eth, btc, step, depth);
    VariantsAgree(st, eth, btc, step, depth);
    OwnMovementsChronological(st, eth, btc, step, depth);
    SingleSegmentChronological(OwnSegments(st, eth, btc, step, depth));
  }

  /** One step of the gathering: window `k` is passed to append_movements
      exactly when it is kept, and that call does not raise. */
  lemma GatherNext(eth: seq<Candle>, step: nat, kept: seq<bool>, k: nat, own: seq<seq<Candle>>)
    requires step >= 1 && k < |kept| <= |eth| / step
    requires own == Gather(eth, step, kept, k)
    ensures AppendMovements(own, Window(eth, step, k)).Ok?
    ensures (if kept[k] then AppendMovements(own, Window(eth, step, k)).value else own)
            == Gather(eth, step, kept, k + 1)
  {
    AppendKeepsShape(own, Window(eth, step, k), step);
  }

  /** find_own_movements of correlation.py: the same windows as the flat
      variant, added with append_movements. A zero step raises and a negative
      step runs no iteration. */
  method FindOwnSegments(st: Stats, ethData: seq<Candle>, btcData: seq<Candle>, step: int, depth: int)
    returns (r: Result<seq<seq<Candle>>>)
    ensures step == 0 <==> r == Raised(ZeroDivisionError)
    ensures step < 0 ==> r == Ok([])
    ensures step > 0 ==> r == Ok(OwnSegments(st, ethData, btcData, step, depth))
  {
    var iterations := FloorDiv(|ethData|, step);
    if iterations.Raised? {
      return Raised(iterations.error);
    }
    if iterations.value <= 0 {
      assert step > 0 ==> |ethData| / step == 0;
      return Ok([]);
    }
    var ownMovements := ScanSegments(st, ethData, btcData, step, depth);
    return Ok(ownMovements);
  }

  /** The loop of the list variant for a positive step. The slice never
      raises, so the `continue` arm is unreachable, and append_movements never
      raises on whole windows. */
  method ScanSegments(st: Stats, ethData: seq<Candle>, btcData: seq<Candle>, step: nat, depth: int)
    returns (ownMovements: seq<seq<Candle>>)
    requires step >= 1
    ensures ownMovements == OwnSegments(st, ethData, btcData, step, depth)
  {
    ownMovements := [];
    var i := 0;
    var j := step;
    ghost var kept := Kept(st, ethData, btcData, step, depth);
    var iteration := 0;
    while iteration < |ethData| / step
      invariant iteration <= |ethData| / step == |kept|
      invariant i == iteration * step && j == i + step
      invariant ownMovements == Gather(ethData, step, kept, iteration)
    {
      MulSucc(iteration, step);
      var ethSubset, correlated := CompareWindow(st, ethData, btcData, step, depth, iteration, i, j);
      GatherNext(ethData, step, kept, iteration, ownMovements);
      if !correlated {
        var appended := AppendMovements(ownMovements, ethSubset);
        ownMovements := appended.value;
      }
      i := i + step;
      j := j + step;
      iteration := iteration + 1;
    }
  }
}
