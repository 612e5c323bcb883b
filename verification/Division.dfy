/** Powers of two, and a few facts about quotients and remainders by a positive number. */
module Division {

  /** 2^k. */
  function Power(k: nat): (p: nat)
    ensures p >= 1
  {
    if k == 0 then 1 else 2 * Power(k - 1)
  }

  lemma Multiple(d: int, m: int)
    requires m > 0
    ensures d >= 1 ==> d * m >= m
    ensures d <= -1 ==> d * m <= 0 - m
  {
    if d >= 1 { assert (d - 1) * m >= 0; }
    if d <= -1 { assert (-1 - d) * m >= 0; }
  }

  lemma DivisionUnique(n: int, m: int, q: int, r: int)
    requires m > 0 && n == q * m + r && 0 <= r < m
    ensures n / m == q && n % m == r
  {
    var d := n / m - q;
    assert d * m == (n / m) * m - q * m;
    Multiple(d, m);
  }

  lemma QuotientMonotone(a: int, b: int, m: int)
    requires m > 0 && a <= b
    ensures a / m <= b / m
  {
    var d := a / m - b / m;
    assert d * m == (a / m) * m - (b / m) * m;
    Multiple(d, m);
  }

  lemma QuotientCompare(n: int, m: int, k: int)
    requires m > 0
    ensures k * m <= n <==> k <= n / m
  {
    var d := n / m - k;
    assert d * m == (n / m) * m - k * m;
    Multiple(d, m);
  }
}
