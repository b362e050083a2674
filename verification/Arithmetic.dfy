// Facts about products and quotients with a variable factor, kept apart from
// the proofs that use them.
module Arithmetic {
  lemma MulLe(a: int, b: int, d: nat)
    ensures a <= b ==> a * d <= b * d
  {
  }

  lemma NextMultiple(n: int, d: nat)
    ensures (n - 1) * d + d == n * d
  {
  }

  lemma QuotientBelow(k: nat, n: nat, d: nat)
    requires d >= 1 && k < n * d
    ensures k / d < n
  {
    var q := k / d;
    MulLe(n, q, d);
  }

  lemma Split(k: nat, n: nat, d: nat) returns (q: nat, r: nat)
    requires d >= 1 && k < n * d
    ensures q < n && r < d && k == q * d + r
  {
    q, r := k / d, k % d;
    QuotientBelow(k, n, d);
  }

  // Quotient and remainder, recognised from the outside.
  lemma DivModUnique(k: nat, d: nat, q: nat, r: nat)
    requires d >= 1 && r < d && k == q * d + r
    ensures k / d == q && k % d == r
  {
    var q' := k / d;
    MulLe(q' + 1, q, d);
    MulLe(q + 1, q', d);
  }
}
