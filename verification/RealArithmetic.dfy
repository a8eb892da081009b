/** Facts about real products and quotients that the solver needs spelled out. */
module RealArithmetic {

  function Abs(x: real): real { if x < 0.0 then -x else x }

  lemma ProductNonNegative(x: real, y: real)
    requires 0.0 <= x && 0.0 <= y
    ensures 0.0 <= x * y
    ensures 0.0 < x && 0.0 < y ==> 0.0 < x * y
  {
  }

  lemma ScaleKeepsOrder(x: real, y: real, n: real)
    requires 0.0 < n
    ensures x <= y <==> x * n <= y * n
  {
    assert (y - x) * n == y * n - x * n;
    if x <= y {
      ProductNonNegative(y - x, n);
    } else {
      assert (x - y) * n == x * n - y * n;
      ProductNonNegative(x - y, n);
    }
  }

  lemma QuotientAtMost(x: real, n: real, limit: real)
    requires 0.0 < n
    ensures x / n <= limit <==> x <= limit * n
  {
    ScaleKeepsOrder(x / n, limit, n);
    assert (x / n) * n == x;
  }
}
