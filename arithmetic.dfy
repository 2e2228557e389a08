/** Facts about integer multiplication and Euclidean division that the solver does not find unaided. */
module Arithmetic {

  lemma MulMonotone(a: int, b: int, t: int)
    requires a <= b && 0 < t
    ensures a * t <= b * t
  {
  }

  /** `q` is the quotient of `x` by `t` when `x` lies in [q·t, q·t + t). */
  lemma DivUnique(x: int, t: int, q: int)
    requires 0 < t && q * t <= x < q * t + t
    ensures x / t == q
  {
    var r := x / t;
    assert r * t <= x < r * t + t;
    if r < q {
      MulMonotone(r + 1, q, t);
    } else if q < r {
      MulMonotone(q + 1, r, t);
    }
  }
}
