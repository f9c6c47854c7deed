/** A fact about products that several modules need. */
module Arithmetic {

  lemma ProductGrows(n: nat, a: int, b: int)
    requires a <= b
    ensures n * a <= n * b
  {
    assert n * b == n * a + n * (b - a);
    assert n * (b - a) >= 0;
  }
}
