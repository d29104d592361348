/** Facts about multiplication and division by a positive window size. */
module Arith {

  lemma MulMonotone(a: nat, b: nat, c: nat)
    requires a <= b
    ensures a * c <= b * c
  {
    assert b * c == a * c + (b - a) * c;
  }

  /** The start of the next window is one window further on. */
  lemma MulSucc(k: nat, step: nat)
    ensures (k + 1) * step == k * step + step
  {
  }

  /** Euclidean division has exactly one quotient and remainder. */
  lemma DivModUnique(a: int, d: int, q: int, r: int)
    requires d > 0 && a == q * d + r && 0 <= r < d
    ensures a / d == q && a % d == r
  {
    var q', r' := a / d, a % d;
    assert a == q' * d + r';
    if q > q' {
      assert (q - q') * d == q * d - q' * d;
      MulMonotone(1, q - q', d);
    } else if q < q' {
      assert (q' - q) * d == q' * d - q * d;
      MulMonotone(1, q' - q, d);
    }
  }

  /** Adding one more window keeps a length a multiple of the window size. */
  lemma ModAddStep(x: nat, step: nat)
    requires step >= 1 && x % step == 0
    ensures (x + step) % step == 0
  {
    var q := x / step;
    assert x == q * step;
    DivModUnique(x + step, step, q + 1, 0);
  }
}
