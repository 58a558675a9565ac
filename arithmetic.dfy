/** Facts about numbers that the GPA and CGPA proofs use, kept apart from the
    record and catalog definitions so that each is proved in a small context. */
module Arithmetic {
  lemma ProductNatural(a: nat, b: nat)
    ensures a * b >= 0
  {
  }

  lemma ScaleMonotone(a: int, b: int, c: nat)
    requires a <= b
    ensures a * c <= b * c
  {
  }

  lemma Distribute(k: nat, a: nat, b: nat, t: nat)
    requires t == a + b
    ensures k * t == k * a + k * b
  {
  }

  lemma RealScaleStrict(a: real, b: real, c: real)
    requires a < b && 0.0 < c
    ensures a * c < b * c
  {
  }

  /** Converting a product of naturals to real is the product of the conversions. */
  lemma {:induction false} CastProduct(a: nat, b: nat)
    ensures (a * b) as real == a as real * b as real
  {
    if b > 0 {
      CastProduct(a, b - 1);
      assert a * b == a * (b - 1) + a;
      assert a as real * b as real == a as real * (b - 1) as real + a as real;
    }
  }

  /** A quotient w / u with lo * u <= w <= hi * u lies in [lo, hi]. */
  lemma QuotientBetween(w: real, u: real, lo: real, hi: real)
    requires 0.0 < u
    requires lo * u <= w <= hi * u
    ensures lo <= w / u <= hi
  {
    DivideMonotone(lo * u, w, u);
    MultiplyDivide(lo, u);
    DivideMonotone(w, hi * u, u);
    MultiplyDivide(hi, u);
  }

  /** The same for naturals, the quotient taken over the reals. */
  lemma NatQuotientBetween(w: nat, u: nat, lo: nat, hi: nat)
    requires u > 0
    requires lo * u <= w <= hi * u
    ensures lo as real <= w as real / u as real <= hi as real
  {
    CastProduct(lo, u);
    CastProduct(hi, u);
    QuotientBetween(w as real, u as real, lo as real, hi as real);
  }

  lemma DivideMonotone(a: real, b: real, d: real)
    requires a <= b && 0.0 < d
    ensures a / d <= b / d
  {
  }

  lemma MultiplyDivide(x: real, d: real)
    requires 0.0 < d
    ensures x * d / d == x
  {
  }

  lemma RealScaleMonotone(a: real, b: real, c: real)
    requires a <= b && 0.0 <= c
    ensures a * c <= b * c
  {
  }

  lemma RealDistribute(k: real, n: real)
    ensures k * (n + 1.0) == k * n + k
  {
  }

  /** (c * n + g) / (n + 1) lies in [lo, hi] when c and g do. */
  lemma WeightedMeanBetween(c: real, n: real, g: real, lo: real, hi: real)
    requires 0.0 <= n
    requires lo <= c <= hi && lo <= g <= hi
    ensures lo <= (c * n + g) / (n + 1.0) <= hi
  {
    var u := n + 1.0;
    RealScaleMonotone(lo, c, n);
    RealDistribute(lo, n);
    assert lo * u == lo * n + lo;
    assert lo * u <= c * n + g;
    RealScaleMonotone(c, hi, n);
    RealDistribute(hi, n);
    assert hi * u == hi * n + hi;
    assert c * n + g <= hi * u;
    QuotientBetween(c * n + g, u, lo, hi);
  }
}
