/** Twisted Edwards points added with few multiplications, as on Baby Jubjub (ERC-2494).
    Nothing here depends on the modulus or on the two curve constants. */
module BabyJub {
  import opened Modular

  datatype Point = Point(x: int, y: int)

  const IDENTITY: Point := Point(0, 1)

  function FAdd(m: Modulus, a: int, b: int): int {
    (a + b) % m
  }

  function FSub(m: Modulus, a: int, b: int): int {
    (a - b) % m
  }

  function FMul(m: Modulus, a: int, b: int): int {
    (a * b) % m
  }

  /** A curve a*x^2 + y^2 = 1 + d*x^2*y^2 over the residues of a modulus, with the field
      library's inverse, which is only relied on where it is one. */
  datatype Edwards = Edwards(m: Modulus, a: int, d: int, inverse: int -> int) {
    predicate Inverts(x: int) {
      FMul(m, x, inverse(x)) == 1
    }

    predicate Holds(p: Point) {
      0 <= p.x < m && 0 <= p.y < m
    }

    /** The product of all four coordinates, times the curve constant. */
    function Dtau(p: Point, q: Point): int {
      FMul(m, d, FMul(m, FMul(m, p.x, q.y), FMul(m, p.y, q.x)))
    }

    /** The sum with three products for both numerators. */
    function Add(p: Point, q: Point): Point {
      var beta := FMul(m, p.x, q.y);
      var gamma := FMul(m, p.y, q.x);
      var delta := FMul(m, FSub(m, p.y, FMul(m, a, p.x)), FAdd(m, q.x, q.y));
      var dtau := FMul(m, d, FMul(m, beta, gamma));
      Point(FMul(m, FAdd(m, beta, gamma), inverse(FAdd(m, 1, dtau))),
            FMul(m, FAdd(m, delta, FSub(m, FMul(m, a, beta), gamma)), inverse(FSub(m, 1, dtau))))
    }

    /** Both denominators can be inverted. */
    predicate Addable(p: Point, q: Point) {
      Inverts(FAdd(m, 1, Dtau(p, q))) && Inverts(FSub(m, 1, Dtau(p, q)))
    }

    /** The twisted Edwards sum, written as numerators over denominators. */
    predicate IsSum(p: Point, q: Point, r: Point) {
      var t := FMul(m, d, FMul(m, FMul(m, p.x, q.x), FMul(m, p.y, q.y)));
      && Holds(r)
      && FMul(m, r.x, FAdd(m, 1, t)) == FAdd(m, FMul(m, p.x, q.y), FMul(m, p.y, q.x))
      && FMul(m, r.y, FSub(m, 1, t)) == FSub(m, FMul(m, p.y, q.y), FMul(m, a, FMul(m, p.x, q.x)))
    }
  }

  // ---- Reduced operations are integer operations up to the modulus ----

  lemma SumIs(m: Modulus, a: int, a': int, b: int, b': int)
    requires Same(a, a', m) && Same(b, b', m)
    ensures FAdd(m, a, b) == (a' + b') % m && Same(FAdd(m, a, b), a' + b', m)
  {
    SameSum(a, a', b, b', m);
    Reduced(a' + b', m);
  }

  lemma DifferenceIs(m: Modulus, a: int, a': int, b: int, b': int)
    requires Same(a, a', m) && Same(b, b', m)
    ensures FSub(m, a, b) == (a' - b') % m && Same(FSub(m, a, b), a' - b', m)
  {
    SameSum(a, a', b, b', m);
    Reduced(a' - b', m);
  }

  lemma ProductIs(m: Modulus, a: int, a': int, b: int, b': int)
    requires Same(a, a', m) && Same(b, b', m)
    ensures FMul(m, a, b) == (a' * b') % m && Same(FMul(m, a, b), a' * b', m)
  {
    SameProduct(a, a', b, b', m);
    Reduced(a' * b', m);
  }

  lemma MulCommutes(m: Modulus, a: int, b: int)
    ensures FMul(m, a, b) == FMul(m, b, a)
  {
  }

  lemma Associates(a: int, b: int, c: int)
    ensures (a * b) * c == a * (b * c)
  {
  }

  lemma MulAssociates(m: Modulus, a: int, b: int, c: int)
    ensures FMul(m, FMul(m, a, b), c) == FMul(m, a, FMul(m, b, c))
  {
    ProductIs(m, a, a, b, b);
    ProductIs(m, b, b, c, c);
    ProductIs(m, FMul(m, a, b), a * b, c, c);
    ProductIs(m, a, a, FMul(m, b, c), b * c);
    Associates(a, b, c);
  }

  lemma MulOne(m: Modulus, a: int)
    requires 0 <= a < m
    ensures FMul(m, a, 1) == a
  {
    Unique(a, 0, a, m);
  }

  /** Multiplying by an inverse divides. */
  lemma Divides(e: Edwards, n: int, d: int)
    requires e.Inverts(d) && 0 <= n < e.m
    ensures FMul(e.m, FMul(e.m, n, e.inverse(d)), d) == n
  {
    MulAssociates(e.m, n, e.inverse(d), d);
    MulCommutes(e.m, e.inverse(d), d);
    MulOne(e.m, n);
  }

  /** A quotient is unique. */
  lemma QuotientIsUnique(e: Edwards, a: int, b: int, d: int)
    requires e.Inverts(d) && 0 <= a < e.m && 0 <= b < e.m && FMul(e.m, a, d) == FMul(e.m, b, d)
    ensures a == b
  {
    MulAssociates(e.m, a, d, e.inverse(d));
    MulAssociates(e.m, b, d, e.inverse(d));
    MulOne(e.m, a);
    MulOne(e.m, b);
  }

  // ---- The schoolbook law ----

  /** The saved multiplication changes nothing. */
  lemma Expansion(a: int, x1: int, y1: int, x2: int, y2: int)
    ensures (y1 - a * x1) * (x2 + y2) + (a * (x1 * y2) - y1 * x2) == y1 * y2 - a * (x1 * x2)
  {
    assert (y1 - a * x1) * (x2 + y2) == y1 * (x2 + y2) - (a * x1) * (x2 + y2);
    assert y1 * (x2 + y2) == y1 * x2 + y1 * y2;
    assert (a * x1) * (x2 + y2) == (a * x1) * x2 + (a * x1) * y2;
    Associates(a, x1, x2);
    Associates(a, x1, y2);
  }

  lemma DeltaIs(e: Edwards, p: Point, q: Point)
    ensures Same(FMul(e.m, FSub(e.m, p.y, FMul(e.m, e.a, p.x)), FAdd(e.m, q.x, q.y)),
                 (p.y - e.a * p.x) * (q.x + q.y), e.m)
  {
    ProductIs(e.m, e.a, e.a, p.x, p.x);
    DifferenceIs(e.m, p.y, p.y, FMul(e.m, e.a, p.x), e.a * p.x);
    SumIs(e.m, q.x, q.x, q.y, q.y);
    ProductIs(e.m, FSub(e.m, p.y, FMul(e.m, e.a, p.x)), p.y - e.a * p.x, FAdd(e.m, q.x, q.y), q.x + q.y);
  }

  lemma TailIs(e: Edwards, p: Point, q: Point)
    ensures Same(FSub(e.m, FMul(e.m, e.a, FMul(e.m, p.x, q.y)), FMul(e.m, p.y, q.x)),
                 e.a * (p.x * q.y) - p.y * q.x, e.m)
  {
    ProductIs(e.m, p.x, p.x, q.y, q.y);
    ProductIs(e.m, e.a, e.a, FMul(e.m, p.x, q.y), p.x * q.y);
    ProductIs(e.m, p.y, p.y, q.x, q.x);
    DifferenceIs(e.m, FMul(e.m, e.a, FMul(e.m, p.x, q.y)), e.a * (p.x * q.y), FMul(e.m, p.y, q.x), p.y * q.x);
  }

  lemma SchoolbookNumerator(e: Edwards, p: Point, q: Point)
    ensures FSub(e.m, FMul(e.m, p.y, q.y), FMul(e.m, e.a, FMul(e.m, p.x, q.x)))
         == (p.y * q.y - e.a * (p.x * q.x)) % e.m
  {
    ProductIs(e.m, p.x, p.x, q.x, q.x);
    ProductIs(e.m, e.a, e.a, FMul(e.m, p.x, q.x), p.x * q.x);
    ProductIs(e.m, p.y, p.y, q.y, q.y);
    DifferenceIs(e.m, FMul(e.m, p.y, q.y), p.y * q.y, FMul(e.m, e.a, FMul(e.m, p.x, q.x)), e.a * (p.x * q.x));
  }

  lemma NumeratorY(e: Edwards, p: Point, q: Point)
    ensures FAdd(e.m, FMul(e.m, FSub(e.m, p.y, FMul(e.m, e.a, p.x)), FAdd(e.m, q.x, q.y)),
                 FSub(e.m, FMul(e.m, e.a, FMul(e.m, p.x, q.y)), FMul(e.m, p.y, q.x)))
         == FSub(e.m, FMul(e.m, p.y, q.y), FMul(e.m, e.a, FMul(e.m, p.x, q.x)))
  {
    var delta := FMul(e.m, FSub(e.m, p.y, FMul(e.m, e.a, p.x)), FAdd(e.m, q.x, q.y));
    var tail := FSub(e.m, FMul(e.m, e.a, FMul(e.m, p.x, q.y)), FMul(e.m, p.y, q.x));
    DeltaIs(e, p, q);
    TailIs(e, p, q);
    SumIs(e.m, delta, (p.y - e.a * p.x) * (q.x + q.y), tail, e.a * (p.x * q.y) - p.y * q.x);
    Expansion(e.a, p.x, p.y, q.x, q.y);
    SchoolbookNumerator(e, p, q);
  }

  lemma Regroup(a: int, b: int, c: int, d: int)
    ensures (a * b) * (c * d) == (a * d) * (c * b)
  {
    Associates(a, b, c * d);
    assert b * (c * d) == d * (c * b);
    Associates(a, d, c * b);
  }

  /** The four coordinates may be multiplied in either order. */
  lemma DtauIsSymmetric(e: Edwards, p: Point, q: Point)
    ensures e.Dtau(p, q) == FMul(e.m, e.d, FMul(e.m, FMul(e.m, p.x, q.x), FMul(e.m, p.y, q.y)))
  {
    ProductIs(e.m, p.x, p.x, q.y, q.y);
    ProductIs(e.m, p.y, p.y, q.x, q.x);
    ProductIs(e.m, FMul(e.m, p.x, q.y), p.x * q.y, FMul(e.m, p.y, q.x), p.y * q.x);
    ProductIs(e.m, p.x, p.x, q.x, q.x);
    ProductIs(e.m, p.y, p.y, q.y, q.y);
    ProductIs(e.m, FMul(e.m, p.x, q.x), p.x * q.x, FMul(e.m, p.y, q.y), p.y * q.y);
    Regroup(p.x, q.y, p.y, q.x);
  }

  /** Where the denominators can be inverted, the sum is the schoolbook twisted Edwards
      sum, and the only one. */
  lemma AddIsSchoolbook(e: Edwards, p: Point, q: Point, r: Point)
    requires e.Addable(p, q)
    ensures e.IsSum(p, q, r) <==> r == e.Add(p, q)
  {
    var t := e.Dtau(p, q);
    DtauIsSymmetric(e, p, q);
    NumeratorY(e, p, q);
    var s := e.Add(p, q);
    Divides(e, FAdd(e.m, FMul(e.m, p.x, q.y), FMul(e.m, p.y, q.x)), FAdd(e.m, 1, t));
    Divides(e, FSub(e.m, FMul(e.m, p.y, q.y), FMul(e.m, e.a, FMul(e.m, p.x, q.x))), FSub(e.m, 1, t));
    if e.IsSum(p, q, r) {
      QuotientIsUnique(e, r.x, s.x, FAdd(e.m, 1, t));
      QuotientIsUnique(e, r.y, s.y, FSub(e.m, 1, t));
    }
  }

  lemma AddCommutes(e: Edwards, p: Point, q: Point)
    ensures e.Add(p, q) == e.Add(q, p)
  {
    DtauIsSymmetric(e, p, q);
    DtauIsSymmetric(e, q, p);
    NumeratorY(e, p, q);
    NumeratorY(e, q, p);
    MulCommutes(e.m, p.x, q.x);
    MulCommutes(e.m, p.y, q.y);
    MulCommutes(e.m, p.x, q.y);
    MulCommutes(e.m, p.y, q.x);
  }

  lemma MulZero(m: Modulus, a: int)
    ensures FMul(m, 0, a) == 0 && FMul(m, a, 0) == 0
  {
    Unique(0, 0, 0, m);
  }

  lemma IdentityOnLeft(e: Edwards, p: Point)
    requires e.inverse(1) == 1 && e.Holds(p)
    ensures e.Add(IDENTITY, p) == p
  {
    MulZero(e.m, p.x);
    MulZero(e.m, p.y);
    MulZero(e.m, e.a);
    MulZero(e.m, e.d);
    MulOne(e.m, p.x);
    MulOne(e.m, p.y);
    MulCommutes(e.m, 1, p.x);
    MulCommutes(e.m, 1, p.y);
    NumeratorY(e, IDENTITY, p);
    Unique(1, 0, 1, e.m);
    Unique(p.x, 0, p.x, e.m);
    Unique(p.y, 0, p.y, e.m);
  }

  /** The identity is neutral. */
  lemma AddIdentity(e: Edwards, p: Point)
    requires e.inverse(1) == 1 && e.Holds(p)
    ensures e.Add(IDENTITY, p) == p && e.Add(p, IDENTITY) == p
  {
    AddCommutes(e, p, IDENTITY);
    IdentityOnLeft(e, p);
  }
}
