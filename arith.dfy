/** Facts about Euclidean division that the solver does not find unaided. */
module Arith {

  /** Division and remainder are determined by any decomposition `x == q * b + r` with `0 <= r < b`. */
  lemma DivModUnique(x: int, b: int, q: int, r: int)
    requires b > 0 && 0 <= r < b && x == q * b + r
    ensures x / b == q && x % b == r
  {
    var q', r' := x / b, x % b;
    assert x == q' * b + r';
    if q' < q {
      assert q * b - q' * b == (q - q') * b;
      MulAtLeast(q - q', b);
    } else if q < q' {
      assert q' * b - q * b == (q' - q) * b;
      MulAtLeast(q' - q, b);
    }
  }

  lemma {:induction false} MulAtLeast(a: int, b: int)
    requires a >= 1 && b > 0
    ensures a * b >= b
  {
    if a > 1 {
      MulAtLeast(a - 1, b);
      assert a * b == (a - 1) * b + b;
    }
  }
}
