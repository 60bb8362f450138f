/**
 * Facts about multiplication, `/` and `%` that the solver does not find on its
 * own once the factors are variables (Dafny's `/` and `%` are Euclidean).
 */
module Arith {

  lemma MulMonotone(d: int, m: int)
    requires d > 0 && m >= 1
    ensures d * m >= d
  {
    assert d * m == d * (m - 1) + d;
  }

  /** A multiple of `d` leaves no remainder. */
  lemma MultipleMod(d: int, k: int)
    requires d > 0
    ensures (d * k) % d == 0 && (d * k) / d == k
  {
    DivModUnique(d * k, d, k, 0);
  }

  /** Quotient and remainder are the only `q`, `r` with `v == q * d + r` and
    * `0 <= r < d`. */
  lemma DivModUnique(v: int, d: int, q: int, r: int)
    requires d > 0 && 0 <= r < d && v == q * d + r
    ensures v / d == q && v % d == r
  {
    var q', r' := v / d, v % d;
    assert v == q' * d + r' && 0 <= r' < d;
    var m := q - q';
    assert d * m == r' - r;
    if m >= 1 {
      MulMonotone(d, m);
      assert false;
    } else if m <= -1 {
      MulMonotone(d, -m);
      assert false;
    }
  }
}
