/** Products of unknowns. */
module Arithmetic {

  lemma DistributeLeft(a: int, b: int, q: int)
    ensures (a - b) * q == a * q - b * q
  {}

  lemma DistributeRight(a: int, b: int, c: int)
    ensures a * (b + c) == a * b + a * c
  {}

  lemma MultiplyOrder(a: int, b: int, q: nat)
    requires a <= b
    ensures a * q <= b * q
  {}

  lemma SmallMultiple(d: int, q: nat)
    requires -1 * q < d * q < q
    ensures d == 0
  {}

  function Times(n: nat, b: nat): nat {
    if n == 0 then 0 else Times(n - 1, b) + b
  }

  lemma TimesStep(n: nat, b: nat)
    requires n > 0
    ensures Times(n, b) == Times(n - 1, b) + b
  {}

  lemma {:induction false} TimesIsProduct(n: nat, b: nat)
    ensures Times(n, b) == n * b
  {
    if n > 0 {
      TimesIsProduct(n - 1, b);
      DistributeLeft(n, 1, b);
    }
  }
}
