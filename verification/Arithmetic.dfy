/** Products of natural numbers. */
module Arithmetic {

  lemma Rearranged(a: nat, b: nat, c: nat)
    ensures a * (b * c) == b * (a * c)
  {}

  lemma MulAtMost(a: nat, b: nat, n: nat)
    requires a <= b
    ensures a * n <= b * n
  {}

  lemma CancelFactor(k: nat, a: nat, b: nat)
    requires k > 0 && k * a == k * b
    ensures a == b
  {}
}
