/** get_subset_by_depth: the slice of the reference series around a base index,
    with its bounds clamped (main.py and correlation.py hold identical copies). */
module DepthWindow {
  import opened PySemantics

  /** `data[bottom:upper]` with `bottom = base - depth` clamped below at 0 and
      `upper = base + depth + 1` clamped above at `len(data) - 1`, so the last
      element of `data` can never be part of the window. */
  function GetSubsetByDepth<T>(data: seq<T>, baseIndex: int, depth: int): (r: seq<T>)
    ensures |data| <= 1 ==> r == []
    ensures |r| < |data| || |data| == 0
  {
    var bottom := if baseIndex - depth < 0 then 0 else baseIndex - depth;
    var upper := if baseIndex + depth + 1 > |data| - 1 then |data| - 1 else baseIndex + depth + 1;
    Slice(data, bottom, upper)
  }

  /** For a window that does not reach below index 0 on the upper side (no
      Python negative-index wrap), the result is the plain clamped slice
      `data[max(b-d, 0) : min(b+d+1, len-1)]`, empty when the bounds cross. */
  lemma SubsetIsClampedSlice<T>(data: seq<T>, baseIndex: int, depth: int)
    requires baseIndex + depth + 1 >= 0
    ensures var lo := if baseIndex - depth < 0 then 0 else baseIndex - depth;
            var hi := if baseIndex + depth + 1 < |data| - 1 then baseIndex + depth + 1 else |data| - 1;
            GetSubsetByDepth(data, baseIndex, depth) == if lo < hi then data[lo..hi] else []
  {
  }

  /** When neither clamp fires the window is the full `2*depth + 1` elements centred on the base. */
  lemma SubsetUnclampedLength<T>(data: seq<T>, baseIndex: int, depth: nat)
    requires baseIndex - depth >= 0 && baseIndex + depth + 1 <= |data| - 1
    ensures GetSubsetByDepth(data, baseIndex, depth) == data[baseIndex - depth .. baseIndex + depth + 1]
    ensures |GetSubsetByDepth(data, baseIndex, depth)| == 2 * depth + 1
  {
  }

  /** When only the upper clamp fires the window stops one short of the end
      of `data`, so it has `len - 1 - (b - d)` elements, not `len - (b - d)`. */
  lemma SubsetUpperClampDropsLast<T>(data: seq<T>, baseIndex: int, depth: int)
    requires 0 <= baseIndex - depth < |data| - 1 < baseIndex + depth + 1
    ensures GetSubsetByDepth(data, baseIndex, depth) == data[baseIndex - depth .. |data| - 1]
  {
  }

  /** Whatever the arguments (negative ones included), the window is a
      contiguous run of `data` that ends before its last element. */
  lemma SubsetExcludesLast<T>(data: seq<T>, baseIndex: int, depth: int)
    requires |data| > 0
    ensures var r := GetSubsetByDepth(data, baseIndex, depth);
            exists lo :: 0 <= lo <= |data| - 1 - |r| && data[lo..][..|r|] == r
  {
    var r := GetSubsetByDepth(data, baseIndex, depth);
    var bottom := if baseIndex - depth < 0 then 0 else baseIndex - depth;
    var upper := if baseIndex + depth + 1 > |data| - 1 then |data| - 1 else baseIndex + depth + 1;
    var lo := SliceBound(bottom, |data|);
    var hi := SliceBound(upper, |data|);
    if lo < hi {
      assert r == data[lo..hi];
      assert data[lo..][..|r|] == r;
    } else {
      assert data[0..][..|r|] == r;
    }
  }

  /** When `base + depth + 1` is negative (a negative depth, say) Python
      reads the upper bound from the end of `data`, so the window is
      `data[lo : len + base + depth + 1]`, with `lo` the lower bound clamped
      into `[0, len]` and the upper one clamped at 0. */
  lemma NegativeUpperCountsFromEnd<T>(data: seq<T>, baseIndex: int, depth: int)
    requires baseIndex + depth + 1 < 0
    ensures var bottom := if baseIndex - depth < 0 then 0 else baseIndex - depth;
            var lo := if bottom > |data| then |data| else bottom;
            var hi := if |data| + baseIndex + depth + 1 < 0 then 0 else |data| + baseIndex + depth + 1;
            GetSubsetByDepth(data, baseIndex, depth) == if lo < hi then data[lo..hi] else []
  {
  }
}
