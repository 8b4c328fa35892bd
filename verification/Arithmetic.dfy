/** The few facts about multiplication and remainders that the address and port models need. */
module Arithmetic {

  lemma MulMonotone(a: int, b: int, c: nat)
    requires a <= b
    ensures a * c <= b * c
  {
    assert (b - a) * c >= 0;
  }

  /** Quotient and remainder are unique. */
  lemma DivisionUnique(w: nat, p: int, k: nat, q: int, m: nat)
    requires k < w && m < w && p * w + k == q * w + m
    ensures p == q && k == m
  {
    if p < q {
      MulMonotone(p + 1, q, w);
    } else if q < p {
      MulMonotone(q + 1, p, w);
    }
  }

  lemma RemainderIs(n: nat, w: nat, q: int, m: nat)
    requires m < w && n == q * w + m
    ensures n % w == m
  {
    var p, k := n / w, n % w;
    assert p * w + k == n;
    DivisionUnique(w, p, k, q, m);
  }

  /** Remainders agree exactly when the difference is a multiple. */
  lemma RemaindersEqual(a: nat, b: nat, w: nat)
    requires 0 < w && a <= b
    ensures a % w == b % w <==> (b - a) % w == 0
  {
    var p, q, k := a / w, b / w, (b - a) / w;
    var m, n, d := a % w, b % w, (b - a) % w;
    assert a == p * w + m && b == q * w + n && b - a == k * w + d;
    if m == n {
      assert (q - p) * w == q * w - p * w;
      RemainderIs(b - a, w, q - p, 0);
    }
    if d == 0 {
      assert (p + k) * w == p * w + k * w;
      RemainderIs(b, w, p + k, m);
    }
  }
}
