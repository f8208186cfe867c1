/** Facts about multiples, quotients and set sizes that the solver does not find by itself. */
module Arith {

  lemma MultipleBound(d: int, m: int)
    requires m > 0
    ensures d >= 1 ==> d * m >= m
    ensures d <= -1 ==> d * m <= -m
  {
  }

  lemma MultipleOrder(n: nat, a: int, b: int)
    ensures a <= b ==> a * n <= b * n
  {
  }

  lemma Spread(n: int, m: int)
    ensures (n + 1) * m == n * m + m
  {
  }

  lemma DivisionUnique(x: int, m: int, q: int)
    requires m > 0 && q * m <= x < q * m + m
    ensures x / m == q && x % m == x - q * m
  {
    var d := x / m - q;
    assert (x / m) * m == q * m + d * m;
    MultipleBound(d, m);
  }

  lemma SubsetSize<T>(a: set<T>, b: set<T>)
    requires a <= b
    ensures |a| <= |b|
    ensures |a| == |b| ==> a == b
  {
    assert b == a + (b - a);
  }
}
