/** Division by a variable, kept apart from the proofs that use it. */
module Arithmetic {

  /** big.Int's division, of numbers that are not negative. */
  function Div(a: nat, b: nat): (q: nat)
    requires b > 0
  {
    a / b
  }

  lemma DivBounds(n: nat, a: nat)
    requires a > 0
    ensures a * Div(n, a) <= n < a * (Div(n, a) + 1)
  {
  }

  lemma ProductGrows(t: nat, a: nat, b: nat)
    ensures a <= b ==> t * a <= t * b
  {
  }

  lemma QuotientAtLeast(n: nat, a: nat, q: nat)
    requires a > 0 && a * q <= n
    ensures Div(n, a) >= q
  {
    var d := Div(n, a);
    DivBounds(n, a);
    ProductGrows(a, d + 1, q);
  }
}
