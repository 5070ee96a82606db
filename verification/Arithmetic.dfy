/** Facts about products, quotients and remainders that the solver needs to be told. */
module Arithmetic {

  lemma ProductSign(n: nat, d: int)
    requires n > 0
    ensures d >= 1 ==> n * d >= n
    ensures d <= -1 ==> n * d + n <= 0
  {
  }

  lemma ProductMonotone(a: nat, b: nat, n: nat)
    ensures a <= b ==> a * n <= b * n
  {
  }

  lemma DivisionIsUnique(a: nat, q: int, r: nat, n: nat)
    requires a == q * n + r && r < n
    ensures a / n == q && a % n == r
  {
    var d := a / n - q;
    assert n * d == n * (a / n) - n * q;
    ProductSign(n, d);
  }

  lemma QuotientTwice(a: nat, m: nat, n: nat)
    requires m > 0 && n > 0
    ensures m * n > 0 && a / (m * n) == (a / m) / n
  {
    var b, r := a / m, a % m;
    var q, t := b / n, b % n;
    assert a == b * m + r && b == q * n + t;
    assert b * m == q * (m * n) + t * m;
    assert t * m + m <= n * m by {
      assert (t + 1) * m <= n * m by {
        ProductMonotone(t + 1, n, m);
      }
    }
    DivisionIsUnique(a, q, t * m + r, m * n);
  }

  lemma NextRemainder(a: nat, n: nat)
    requires n > 0
    ensures (a + 1) % n == if a % n + 1 >= n then 0 else a % n + 1
  {
    var q, r := a / n, a % n;
    if r + 1 >= n {
      assert (q + 1) * n == q * n + n;
      DivisionIsUnique(a + 1, q + 1, 0, n);
    } else {
      DivisionIsUnique(a + 1, q, r + 1, n);
    }
  }

  lemma MultipleVanishes(x: nat, k: int, p: nat)
    requires p > 0 && x + k * p >= 0
    ensures (x + k * p) % p == x % p
  {
    var q := x / p;
    assert (q + k) * p == q * p + k * p;
    DivisionIsUnique(x + k * p, q + k, x % p, p);
  }

  lemma RemainderOfProduct(b: nat, y: nat, p: nat)
    requires p > 0
    ensures (b * y) % p == ((b % p) * (y % p)) % p
  {
    var c, r, i, j := b % p, y % p, b / p, y / p;
    var k := c * j + i * y;
    assert b == c + i * p && y == r + j * p;
    assert b * y == c * y + (i * p) * y;
    assert c * y == c * r + c * (j * p);
    assert k * p == (c * j) * p + (i * y) * p;
    assert c * (j * p) == (c * j) * p && (i * p) * y == (i * y) * p;
    assert c * r >= 0 && c * r + k * p >= 0;
    MultipleVanishes(c * r, k, p);
  }
}
