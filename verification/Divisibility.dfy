/** Division facts the byte-level models need. */
module Divisibility {
  lemma MulMono(i: nat, j: nat, n: nat)
    requires i <= j
    ensures i * n <= j * n
  {
    assert j * n == i * n + (j - i) * n;
  }

  lemma MulLess(i: nat, j: nat, n: nat)
    requires i * n < j * n
    ensures i < j
  {
    if j <= i { MulMono(j, i, n); }
  }

  /** Quotient and remainder are determined by their equation. */
  lemma DivModUnique(x: nat, q: nat, r: nat, n: nat)
    requires x == q * n + r && r < n
    ensures x / n == q && x % n == r
  {
    var q', r' := x / n, x % n;
    assert x == q' * n + r';
    assert (q' + 1) * n == q' * n + n && (q + 1) * n == q * n + n;
    if q' < q {
      MulMono(q' + 1, q, n);
    } else if q < q' {
      MulMono(q + 1, q', n);
    }
  }

  lemma ModShift(x: nat, q: nat, n: nat)
    requires n > 0
    ensures (q * n + x) % n == x % n
  {
    var p, r := x / n, x % n;
    assert x == p * n + r;
    assert q * n + x == (q + p) * n + r;
    DivModUnique(q * n + x, q + p, r, n);
  }
}
