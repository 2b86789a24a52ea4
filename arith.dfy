/** Integer facts used where the source divides lengths or counts. */
module Arith {

  /** Python's `min(a, b)` on integers. */
  function Min(a: int, b: int): int { if a <= b then a else b }

  /** Python's `max(a, b)` on integers. */
  function Max(a: int, b: int): int { if a >= b then a else b }

  lemma MulLe(x: int, y: int, t: int)
    requires x <= y && t >= 0
    ensures x * t <= y * t
  {
    assert (y - x) * t >= 0;
  }

  /** Integer division is pinned down by the quotient's defining bounds. */
  lemma DivExact(a: int, t: int, q: int)
    requires t > 0 && q * t <= a < (q + 1) * t
    ensures a / t == q
  {
    var d := a / t;
    assert a == d * t + a % t;
    if d > q {
      MulLe(q + 1, d, t);
    } else if d < q {
      MulLe(d + 1, q, t);
    }
  }

  /** The floor quotient of a by t: `d * t <= a < (d + 1) * t`. */
  lemma DivBounds(a: int, t: int)
    requires t > 0
    ensures (a / t) * t <= a < (a / t + 1) * t
  {
    assert a == (a / t) * t + a % t;
  }

  /** Floor division is monotone in the dividend. */
  lemma DivMono(a: int, b: int, t: int)
    requires t > 0 && a <= b
    ensures a / t <= b / t
  {
    DivBounds(a, t);
    DivBounds(b, t);
    if a / t > b / t {
      MulLe(b / t + 1, a / t, t);
    }
  }
}
