/** Products and quotients, one non-linear step at a time. */
module Numbers {

  lemma Scale(a: int, b: int, c: int)
    requires c > 0
    ensures a < b <==> a * c < b * c
    ensures a == b <==> a * c == b * c
  {
    if a < b {
      assert (b - a) * c > 0;
    } else if a > b {
      assert (a - b) * c > 0;
    }
  }

  lemma ScaleReal(a: real, b: real, c: real)
    requires c > 0.0
    ensures a < b <==> a * c < b * c
    ensures a == b <==> a * c == b * c
  {
    if a < b {
      assert (b - a) * c > 0.0;
    } else if a > b {
      assert (a - b) * c > 0.0;
    }
  }

  lemma Euclid(n: nat, c: nat)
    requires c > 0
    ensures n == (n / c) * c + n % c && 0 <= n % c < c && n / c >= 0
  {
  }

  /** Quotient and remainder are the only pair of their kind. */
  lemma EuclidUnique(n: nat, c: nat, q: int, r: int)
    requires c > 0 && n == q * c + r && 0 <= r < c
    ensures n / c == q && n % c == r
  {
    Euclid(n, c);
    var q', r' := n / c, n % c;
    assert (q - q') * c == r' - r;
    Scale(q, q' + 1, c);
    Scale(q', q + 1, c);
    assert (q' + 1) * c == q' * c + c && (q + 1) * c == q * c + c;
  }

  /** The remainder of a negative number is taken upwards. */
  lemma NegativeRemainder(n: int, m: int)
    requires 0 < n <= m
    ensures (-n) % m == m - n
  {
    var q, r := (-n) / m, (-n) % m;
    assert q * m == -n - r && 0 <= r < m;
    if q >= 0 {
      Scale(0, q + 1, m);
    } else if q <= -2 {
      Scale(q, -2, m);
    }
  }

  /** n1/c1 >= n2/c2, seen through integer quotients and remainders. */
  lemma QuotientMonotone(n1: nat, c1: nat, n2: nat, c2: nat)
    requires c1 > 0 && c2 > 0 && n1 * c2 >= n2 * c1
    ensures n1 / c1 >= n2 / c2
    ensures n1 / c1 == n2 / c2 && n1 % c1 == 0 ==> n2 % c2 == 0 && n1 * c2 == n2 * c1
  {
    var q1, q2 := n1 / c1, n2 / c2;
    Euclid(n1, c1);
    Euclid(n2, c2);
    Scale(n2, q2 * c2, c1);
    assert (q2 * c2) * c1 == (q2 * c1) * c2;
    Scale(n1, q2 * c1, c2);
    Scale(q1 + 1, q2, c1);
    assert (q1 + 1) * c1 == q1 * c1 + c1;
    Scale(q1, q2, c1);
  }
}
