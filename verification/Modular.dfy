/** Arithmetic modulo a number. */
module Modular {

  type Modulus = m: int | m > 1 witness 2

  /** Equal up to a multiple of the modulus. */
  predicate Same(a: int, b: int, m: Modulus) {
    a % m == b % m
  }

  lemma MultipleVanishes(a: int, k: int, m: Modulus)
    ensures (a + m * k) % m == a % m
    decreases if k < 0 then -k else k
  {
    if k > 0 {
      MultipleVanishes(a, k - 1, m);
      assert a + m * k == (a + m * (k - 1)) + m;
      PlusModulus(a + m * (k - 1), m);
    } else if k < 0 {
      MultipleVanishes(a, k + 1, m);
      assert a + m * (k + 1) == (a + m * k) + m;
      PlusModulus(a + m * k, m);
    }
  }

  lemma PlusModulus(a: int, m: Modulus)
    ensures (a + m) % m == a % m
  {
    var q, r := a / m, a % m;
    assert a == m * q + r;
    Unique(a + m, q + 1, r, m);
  }

  lemma AtLeast(m: Modulus, d: int)
    requires d >= 1
    ensures m * d >= m
  {
  }

  lemma Difference(m: int, q: int, q': int)
    ensures m * q - m * q' == m * (q - q')
  {
  }

  /** Quotient and remainder are determined by their bounds. */
  lemma Unique(a: int, q: int, r: int, m: Modulus)
    requires a == m * q + r && 0 <= r < m
    ensures a % m == r && a / m == q
  {
    var q', r' := a / m, a % m;
    var x, x' := m * q, m * q';
    assert x - x' == r' - r;
    Difference(m, q, q');
    Difference(m, q', q);
    if q > q' { AtLeast(m, q - q'); }
    if q < q' { AtLeast(m, q' - q); }
  }

  lemma SameByMultiple(a: int, b: int, k: int, m: Modulus)
    requires a == b + m * k
    ensures Same(a, b, m)
  {
    MultipleVanishes(b, k, m);
  }

  lemma Reduced(a: int, m: Modulus)
    ensures Same(a % m, a, m) && 0 <= a % m < m
  {
    SameByMultiple(a, a % m, a / m, m);
  }

  lemma SameSum(a: int, a': int, b: int, b': int, m: Modulus)
    requires Same(a, a', m) && Same(b, b', m)
    ensures Same(a + b, a' + b', m) && Same(a - b, a' - b', m)
  {
    var k, l := a / m - a' / m, b / m - b' / m;
    assert a == a' + m * k;
    assert b == b' + m * l;
    assert m * (k + l) == m * k + m * l && m * (k - l) == m * k - m * l;
    SameByMultiple(a + b, a' + b', k + l, m);
    SameByMultiple(a - b, a' - b', k - l, m);
  }

  lemma SameProduct(a: int, a': int, b: int, b': int, m: Modulus)
    requires Same(a, a', m) && Same(b, b', m)
    ensures Same(a * b, a' * b', m)
  {
    var k, l := a / m - a' / m, b / m - b' / m;
    assert a == a' + m * k;
    assert b == b' + m * l;
    ProductGap(a', b', k, l, m);
    SameByMultiple(a * b, a' * b', a' * l + k * (b' + m * l), m);
  }

  lemma ProductGap(a: int, b: int, k: int, l: int, m: int)
    ensures (a + m * k) * (b + m * l) == a * b + m * (a * l + k * (b + m * l))
  {
    assert (a + m * k) * (b + m * l) == a * (b + m * l) + (m * k) * (b + m * l);
    assert a * (b + m * l) == a * b + m * (a * l);
    assert (m * k) * (b + m * l) == m * (k * (b + m * l));
  }
}
