/** Products and remainders of unknowns, one fact at a time. */
module Arithmetic {

  lemma ProductGrows(m: nat, x: int, y: int)
    requires x <= y
    ensures m * x <= m * y
  {
    assert m * y - m * x == m * (y - x);
  }

  lemma ProductCancels(m: nat, x: int, y: int)
    requires m * x < m * y
    ensures x < y
  {
    if y <= x {
      ProductGrows(m, y, x);
    }
  }

  lemma RemainderIsUnique(n: int, m: int, q: int, r: int)
    requires m > 0 && 0 <= r < m && n == m * q + r
    ensures n % m == r && n / m == q
  {
    var q' := n / m;
    assert n == m * q' + n % m;
    assert m * (q' + 1) == m * q' + m && m * (q + 1) == m * q + m;
    ProductCancels(m, q, q' + 1);
    ProductCancels(m, q', q + 1);
  }

  lemma ProductIsAssociative(a: nat, b: nat, c: nat)
    ensures a * (b * c) == a * b * c
  {
  }

  lemma QuotientIsBelow(k: nat, c: nat, d: nat)
    requires d > 0 && k < d * c
    ensures k / d < c
  {
    assert k == d * (k / d) + k % d;
    ProductCancels(d, k / d, c);
  }

  lemma RemainderOfSum(s: int, x: int, c: nat)
    requires c > 0
    ensures (s % c + x) % c == (s + x) % c
  {
    var q, r := s / c, s % c;
    var q' := (r + x) / c;
    var r' := (r + x) % c;
    assert s == c * q + r && r + x == c * q' + r';
    assert c * (q + q') == c * q + c * q';
    RemainderIsUnique(s + x, c, q + q', r');
  }

  lemma SameRemainder(a: nat, b: nat, x: int, c: nat)
    requires a < c && b < c
    ensures (a + x) % c == (b + x) % c <==> a == b
  {
    var q, p, r := (a + x) / c, (b + x) / c, (b + x) % c;
    if (a + x) % c == r {
      assert a + x == c * q + r && b + x == c * p + r;
      assert c * (q - p) == c * q - c * p;
      RemainderIsUnique(a, c, q - p, b);
      RemainderIsUnique(a, c, 0, a);
    }
  }
}
