/** Facts about division with a divisor that is not a constant. */
module Remainders {
  lemma RemainderUnique(a: nat, n: nat, q: int, r: nat)
    requires n > 0 && r < n && a == n * q + r
    ensures a % n == r
  {
    var q' := a / n;
    if q' > q {
      ProductGrows(n, q + 1, q');
    } else if q' < q {
      ProductGrows(n, q' + 1, q);
    }
  }

  lemma ProductGrows(n: nat, x: int, y: int)
    requires x <= y
    ensures n * x <= n * y
  {
  }

  lemma NextRemainder(a: nat, n: nat)
    requires n > 0
    ensures (a + 1) % n == if a % n + 1 >= n then 0 else a % n + 1
  {
    var q := a / n;
    assert a + 1 == n * q + (a % n + 1);
    if a % n + 1 >= n {
      assert a + 1 == n * (q + 1);
      RemainderUnique(a + 1, n, q + 1, 0);
    } else {
      RemainderUnique(a + 1, n, q, a % n + 1);
    }
  }

  lemma Shorter(m: nat, n: nat)
    requires n > 0 && m >= n
    ensures (m - n) % n == m % n
  {
    var q, r := m / n, m % n;
    assert m - n == n * (q - 1) + r;
    RemainderUnique(m - n, n, q - 1, r);
  }

  lemma Longer(m: nat, n: nat)
    requires n > 0
    ensures (m + n) % n == m % n
  {
    Shorter(m + n, n);
  }
}
