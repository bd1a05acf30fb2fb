/** Facts about products that linear arithmetic does not give. */
module IntLemmas {
  lemma OneMore(n: int, d: int)
    ensures n * d == (n - 1) * d + d
  {
  }

  lemma FactorLess(a: int, b: int, d: int)
    requires d > 0 && a * d < b * d
    ensures a < b
  {
    assert (a - b) * d == a * d - b * d;
  }

  lemma QuotientBound(n: int, t: int, d: int)
    requires d > 0 && n * d <= t
    ensures n <= t / d
  {
    var q := t / d;
    assert n * d < (q + 1) * d by {
      assert t == q * d + t % d;
      OneMore(q + 1, d);
    }
    FactorLess(n, q + 1, d);
  }
}
