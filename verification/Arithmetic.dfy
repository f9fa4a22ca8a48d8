/** Facts about products, quotients and positions on a ring. */
module Arithmetic {

  /** Quotient and remainder are the only numbers with their property. */
  lemma QuotientIs(x: int, n: nat, q: int, r: nat)
    requires n > 0 && r < n && x == q * n + r
    ensures x % n == r && x / n == q
  {
    var d := x / n - q;
    assert d * n == r - x % n by {
      assert d * n == (x / n) * n - q * n;
    }
    assert d >= 1 ==> d * n >= n;
    assert d <= -1 ==> d * n <= 0 - n;
  }

  lemma ProductGrows(a: nat, b: nat, c: nat)
    requires a <= b
    ensures a * c <= b * c
  {
    assert (b - a) * c >= 0;
  }

  /** How many steps forward around a ring of n it is from `from` to `to`; a full round if they are the same. */
  function Ahead(to: nat, from: nat, n: nat): (steps: nat)
    requires to < n && from < n
    ensures 1 <= steps <= n
  {
    if to > from then to - from else to + n - from
  }
}
