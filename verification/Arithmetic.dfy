/** Facts about division that several modules use. */
module Arithmetic {

  lemma MultipleGrows(d: int, c: nat)
    ensures d >= 1 ==> d * c >= c
    ensures d <= -1 ==> d * c + c <= 0
  {
    if d >= 1 {
      assert (d - 1) * c >= 0;
    } else if d <= -1 {
      assert (d + 1) * c <= 0;
    }
  }

  /** Quotient and remainder are unique. */
  lemma DivisionIs(n: nat, d: nat, q: int, r: nat)
    requires r < d && n == q * d + r
    ensures n / d == q && n % d == r
  {
    var e := n / d - q;
    assert e * d == r - n % d;
    MultipleGrows(e, d);
  }
}
