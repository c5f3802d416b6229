// Facts about division that the solver does not find on its own.
module Arithmetic {

  // A number has one quotient and one remainder.
  lemma {:induction false} DivModUnique(x: int, n: nat, q: int, r: nat)
    requires 0 < n && x == q * n + r && r < n
    ensures x / n == q && x % n == r
  {
    var p := x / n;
    assert (q - p) * n == x % n - r;
    if q > p { MulAtLeast(q - p, n); }
    if q < p { MulAtLeast(p - q, n); }
  }

  lemma {:induction false} DivModShift(x: int, n: nat, k: int)
    requires n > 0
    ensures (x - k * n) / n == x / n - k && (x - k * n) % n == x % n
  {
    var q, r := x / n, x % n;
    assert x - k * n == (q - k) * n + r;
    DivModUnique(x - k * n, n, q - k, r);
  }

  lemma {:induction false} MulAtLeast(a: nat, n: nat)
    requires a >= 1
    ensures a * n >= n
  {
  }
}
