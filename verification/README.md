# ETH/BTC own-movement segmentation, modelled in Dafny

The system looks for the "own movements" of ETHUSDT: stretches of one-minute
candles whose closing prices are not explained by the BTCUSDT market.

- The ETH series is cut into aligned windows of `step` candles.
- Each window is compared with BTC windows of the same length. These are cut
  from a slice of the BTC series around the ETH window's start index; `depth`
  sets the slice's width.
- A window counts as explained as soon as one BTC window correlates with it
  above 0.2. The windows that are not explained are kept.

There are two variants of `find_own_movements`:

- `main.py` concatenates the kept windows into one flat list of candles.
- `correlation.py` gathers them into a list of segments with
  `append_movements`.

`find_correlation` and `get_subset_by_depth` are identical in the two files.
They are modelled once, and the rows below cite the `main.py` copy
(`correlation.py:7-52` is the same code, shifted by one line).

Modules:

- `PySemantics`: Python behaviour the code depends on.
  - A raised exception is a `Result` value.
  - `//` is floor division and raises on zero.
  - Slicing never raises. Negative bounds count from the end, and bounds
    that cross give `[]`.
- `Candles`: a candle, the closing prices of a series, aligned windows, and
  the two numpy statistics.
  - The statistics are left uninterpreted in `Stats`: `flat` stands for
    `np.std(p) == 0`, and `corr` for `np.corrcoef(p, q)[1, 0] > 0.2`.
- `DepthWindow`: `get_subset_by_depth`.
- `Correlation`: `find_correlation`.
  - `IsCorrelated` is its declarative meaning: some reference window `k` is
    compared, every earlier window was compared and found uncorrelated, and
    window `k` correlates.
- `FlatMovements`: the `main.py` variant.
  - `Kept` is a definition: the verdict for every aligned window, true when
    `find_correlation` is falsy for it. Its contract only repeats that
    definition. `CompareWindow` is what ties the loop to it.
  - `Collect` concatenates the kept windows.
  - `OwnMovements` is the result for a positive step.
- `SegmentMovements`: `append_movements` and the `correlation.py` variant.
  - `Gather` applies `append_movements` to the kept windows.
- `Arith`: facts about multiplication and division used by the proofs.

Quirks of the code that the model keeps:

- When no clamp fires, the reference slice is the `2*depth + 1` candles
  centred on the base index. The upper bound is clamped to `len(data) - 1`,
  so the slice never contains the last candle of the series. When
  `base + depth + 1` is negative, Python reads the upper bound from the end.
- A new segment starts only when `last.time - new[0].time > 60`. Because the
  subtraction runs last-minus-new, a window later in time always merges, and
  a chronological series yields at most one segment.
- A flat reference window, or a flat target, stops the scan for good.
  `continue` skips the index update, so the same window is met on every
  remaining iteration and the function returns `None`, which is falsy.
- A zero `step` raises `ZeroDivisionError`. A negative `step` gives a
  non-positive `len // step`, so `range` runs nothing and the result is
  empty.
- The `except IndexError` arms cannot fire, because slicing never raises.
  `append_movements` never raises on whole windows, because every stored
  segment and every window is non-empty.

## Model

| member | source | states |
|---|---|---|
| PySemantics.FloorDiv | main.py:63 | `len // step` raises ZeroDivisionError exactly when `step` is 0. It is the ordinary quotient for a positive `step` and is never positive for a negative one. |
| PySemantics.FloorDivIsFloor | main.py:63 | Python's `//` rounds toward negative infinity for both signs of the divisor. |
| PySemantics.Slice | main.py:66 | A slice with in-range bounds is the plain subsequence, and crossing bounds give `[]`. It never raises and is never longer than the list. |
| Candles.Window | main.py:14-20 | Aligned window `k` has exactly `step` candles, lies inside the series, and holds candles `k*step ..` in order. |
| Candles.WindowFits | main.py:18 | Window `k` is one of the `len // step` windows the loop visits exactly when it fits inside the series. |
| Candles.WindowChronological | main.py:66 | A window cut from a chronological series is chronological. |
| DepthWindow.GetSubsetByDepth | main.py:37-51 | The slice is empty for a series of at most one candle, and otherwise shorter than the series. |
| DepthWindow.SubsetIsClampedSlice | main.py:43-51 | The result is exactly `data[max(b-d, 0) : min(b+d+1, len-1)]`, and empty when those bounds cross. |
| DepthWindow.SubsetUnclampedLength | main.py:43-51 | With neither clamp firing, the result is the `2*depth + 1` candles centred on the base index. |
| DepthWindow.SubsetUpperClampDropsLast | main.py:48-51 | When only the upper clamp fires, the slice stops one candle short of the end. |
| DepthWindow.SubsetExcludesLast | main.py:48-51 | For any arguments, negative ones included, the result is a contiguous run that ends before the series' last candle. |
| DepthWindow.NegativeUpperCountsFromEnd | main.py:44-51 | When `base + depth + 1` is negative, Python reads the upper bound from the end. The result is `data[lo : len + base + depth + 1]`, with the lower bound clamped into `[0, len]` and the upper one at 0, and it is empty when they cross. |
| Correlation.FindCorrelation | main.py:6-34 | An empty target raises ZeroDivisionError. Otherwise the loop answers truthy exactly when `IsCorrelated` holds: a reached, non-flat window correlates. |
| Correlation.CorrelatedAtIsFirst | main.py:30-31 | At most one window is the one where the scan answers true. |
| Correlation.StopsAtSkipped | main.py:22-23 | Once a flat window is reached the indices stop advancing, so the answer is falsy whatever follows. |
| Correlation.ExhaustedIsIndependent | main.py:18-34 | When every window is compared and none exceeds 0.2, the answer is falsy. |
| Correlation.DecidedAtFirstHalt | main.py:30-34 | The first window the scan does not move past fixes the answer. A reference that agrees up to that window's end gets the same answer, so later windows are never examined. |
| Correlation.FlatTargetIsIndependent | main.py:22-23 | A flat target is never correlated. |
| Correlation.ShortReferenceIsIndependent | main.py:14-18 | A reference shorter than the target gives no iteration and a falsy answer. |
| Correlation.SingleCandleIsIndependent | main.py:22 | A one-candle target has zero spread, so it is never correlated. |
| FlatMovements.Collect | main.py:60-68 | The concatenation is a whole number of windows long. A candle is in it exactly when it is in some kept window among the first `k`. |
| FlatMovements.CompareWindow | main.py:65-67 | The loop body cuts the aligned window `eth[i:j]`, and its correlation test is falsy exactly when that window is kept. |
| FlatMovements.FindOwnMovements | main.py:54-75 | A zero step raises and a negative step gives `[]`. A positive step gives `OwnMovements`: the kept windows, concatenated in order. |
| FlatMovements.ScanWindows | main.py:60-73 | The loop advances `i` and `j` by one window per iteration and returns the concatenation of the kept windows. |
| FlatMovements.CollectChronological | main.py:63-68 | Kept windows come out in series order, so a chronological target gives a chronological result. |
| FlatMovements.OwnMovementsChronological | main.py:63-68 | `find_own_movements` keeps a chronological target chronological. |
| FlatMovements.CollectedIffKept | main.py:63-68 | For a chronological target, a candle of window `m` is collected exactly when window `m` is kept. |
| FlatMovements.KeptIffIndependent | main.py:63-68 | For a chronological target, a candle of window `m` is in the result exactly when window `m` is not correlated with its reference slice. |
| FlatMovements.CollectedFromWholeWindows | main.py:63-68 | For any target, every collected candle is the candle at some position before the end of the last whole window. |
| FlatMovements.ResultFromWholeWindows | main.py:63-68 | For any target, every candle of the result occurs in the whole windows, the prefix `eth[:(len // step) * step]`. |
| FlatMovements.TrailingNeverKept | main.py:63 | For a chronological target, the remainder candles after the last whole window never appear in the result. |
| FlatMovements.StepOneKeepsAll | main.py:63-68 | With `step = 1` every window is flat, hence kept, and the result is the whole target series. |
| SegmentMovements.AppendMovements | correlation.py:55-66 | Every rule holds at once. An empty list gets the one new segment. IndexError is raised exactly on an empty last segment or empty new subset. Flattening gains exactly the new candles, and the segment count grows by 0 or 1. Earlier segments are untouched. A new segment starts exactly when `last.time - new[0].time > 60`; otherwise the last segment is extended. |
| SegmentMovements.AppendChronologicalMerges | correlation.py:61-64 | A new subset starting no earlier than the last stored candle is always merged into the last segment. |
| SegmentMovements.AppendKeepsShape | correlation.py:55-66 | Appending a whole window to non-empty, window-sized segments never raises and keeps them so. |
| SegmentMovements.Gather | correlation.py:75-90 | Every segment the loop builds is non-empty and a whole number of windows long. |
| SegmentMovements.GatherFlattensToCollect | correlation.py:75-90 | Flattening the gathered segments gives the flat concatenation of the same kept windows. |
| SegmentMovements.VariantsAgree | correlation.py:69-92 | Flattening the list variant's result gives the flat variant's result. |
| SegmentMovements.ChronologicalGivesOneSegment | correlation.py:61-64 | A chronological target never yields more than one segment. |
| SegmentMovements.OwnSegmentsChronological | correlation.py:69-92 | For a chronological target, the candle times inside every returned segment strictly increase. |
| SegmentMovements.FindOwnSegments | correlation.py:69-92 | A zero step raises and a negative step gives `[]`. A positive step gives `OwnSegments`: the kept windows passed through `append_movements` in order. |
| SegmentMovements.ScanSegments | correlation.py:75-90 | The loop runs `len // step` times and advances by one window each time. It never takes the `continue` arm, and `append_movements` never raises in it. |

## Left out

- The numpy statistics. `np.std(...) == 0` and `np.corrcoef(...)[1, 0] > 0.2`
  are uninterpreted functions in `Stats`. The only fact assumed about them is
  that one price has zero spread (`SingletonsFlat`), and only the lemmas that
  need it require it. Floating point, NaN and the 0.2 threshold's numerics
  are therefore not modelled.
- The `cryptocompare` fetches and `main(limit)` (correlation.py:95-104) are
  network I/O.
- The `__main__` block (main.py:78-106) consists of network I/O and prints.
- The unused `asyncio` import.
- Mutation and aliasing. Lists are values here. `append_movements` returns the
  new list instead of changing its argument, so `copy.copy` has no
  counterpart. That no input is changed holds by construction and is not
  stated as a contract.
- Candle fields other than `time` and `close` play no part in the algorithm
  and are not modelled.
- DepthWindow.GetSubsetByDepth: its own contract states only the length
  bounds. The exact result is stated by two lemmas. `SubsetIsClampedSlice`
  covers a non-negative `base + depth + 1`. `NegativeUpperCountsFromEnd`
  covers a negative one, where Python counts from the end.
- FlatMovements.KeptIffIndependent: states membership for a chronological
  target only. With repeated candles, membership alone cannot say which
  window a candle came from. For any target, `OwnMovements` is the ordered
  concatenation given by `Collect`.
- FlatMovements.TrailingNeverKept: stated for a chronological target only.
  A repeated candle can occur both in a kept window and in the remainder, so
  for any target the guarantee is `ResultFromWholeWindows`: every result
  candle occurs in the whole windows.
- Correlation.FindCorrelation: a `None` result is modelled as `false`, the
  only way the callers use it.
