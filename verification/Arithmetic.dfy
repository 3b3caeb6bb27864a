/** A fact about products that the solver does not find reliably. */
module Arithmetic {

  lemma {:induction false} MultiplesAreSpaced(n: nat, a: nat, b: nat)
    requires a < b
    ensures n * a + n <= n * b
    decreases b
  {
    assert n * b == n * (b - 1) + n;
    if a < b - 1 {
      MultiplesAreSpaced(n, a, b - 1);
    }
  }
}
