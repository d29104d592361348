/** The few pieces of Python runtime behaviour the segmentation code depends on:
    raised exceptions, floor division and slicing. */
module PySemantics {

  /** The exceptions the modelled functions can raise. */
  datatype PyError = ZeroDivisionError | IndexError

  /** The outcome of a Python call: a returned value or a raised exception. */
  datatype Result<T> = Ok(value: T) | Raised(error: PyError)

  /** Python's `a // b` on ints: rounds toward negative infinity and raises
      on a zero divisor (Dafny's `/` is Euclidean, so the negative-divisor
      case is written out). */
  function FloorDiv(a: int, b: int): (r: Result<int>)
    ensures b == 0 <==> r == Raised(ZeroDivisionError)
    ensures b > 0 ==> r == Ok(a / b)
    ensures b > 0 && a >= 0 ==> r.Ok? && r.value >= 0
    ensures b < 0 && a >= 0 ==> r.Ok? && r.value <= 0
  {
    if b == 0 then Raised(ZeroDivisionError)
    else if b > 0 then Ok(a / b)
    else Ok((-a) / (-b))
  }

  /** FloorDiv is the floor of the exact quotient, for either sign of divisor. */
  lemma FloorDivIsFloor(a: int, b: int)
    requires b != 0
    ensures b > 0 ==> FloorDiv(a, b).value * b <= a < FloorDiv(a, b).value * b + b
    ensures b < 0 ==> FloorDiv(a, b).value * b + b < a <= FloorDiv(a, b).value * b
  {
  }

  /** How Python normalises one slice bound against a sequence of length `len`:
      a negative bound counts from the end, and the result is clamped to [0, len]. */
  function SliceBound(i: int, len: nat): (b: nat)
    ensures b <= len
    ensures 0 <= i <= len ==> b == i
    ensures i < 0 ==> b < len || len == 0
  {
    if i < 0 then (if i + len < 0 then 0 else i + len)
    else if i > len then len
    else i
  }

  /** Python's `s[a:b]`: never raises; bounds that cross give the empty sequence. */
  function Slice<T>(s: seq<T>, a: int, b: int): (r: seq<T>)
    ensures 0 <= a <= b <= |s| ==> r == s[a..b]
    ensures 0 <= b <= a ==> r == []
    ensures |r| <= |s|
  {
    var lo := SliceBound(a, |s|);
    var hi := SliceBound(b, |s|);
    if lo < hi then s[lo..hi] else []
  }
}
