/** The multiply-accumulate step at the bottom of every product, in its two portable forms. */
module BnMul {
  import opened Limbs

  lemma ProductBound(a: int, b: int, m: int, n: int)
    requires 0 <= a <= m && 0 <= b <= n
    ensures 0 <= a * b <= m * n
  {
    MulMono(a, m, b);
    MulMono(b, n, m);
  }

  /**
   * Double-limb form: the product is taken in 64 bits and split.
   * The new digit and carry together hold the exact sum, so the high half never wraps.
   */
  method MulAddDouble(s: Limb, d: Limb, b: Limb, c: Limb) returns (d': Limb, c': Limb)
    ensures d' + BASE * c' == d + s * b + c
  {
    ProductBound(s, b, BASE - 1, BASE - 1);
    var r := s * b;
    var r0: Limb := r % BASE;
    var r1: Limb := r / BASE;
    r0, r1 := AddIn(r0, r1, c);
    r0, r1 := AddIn(r0, r1, d);
    return r0, r1;
  }

  lemma HalfProduct(s0: int, s1: int, b0: int, b1: int)
    ensures (s0 + HALF * s1) * (b0 + HALF * b1)
         == s0 * b0 + HALF * (s0 * b1) + HALF * (s1 * b0) + BASE * (s1 * b1)
  {
  }

  /** Adds a further addend into the low digit, carrying into the high one. */
  method AddIn(r0: Limb, r1: Limb, a: Limb) returns (d: Limb, c: Limb)
    requires r0 + BASE * r1 + a < BASE * BASE
    ensures d + BASE * c == r0 + BASE * r1 + a
  {
    d := Add32(r0, a);
    c := Add32(r1, Bit(d < a));
  }

  /** Shifting a limb left by half its width keeps exactly its low half. */
  lemma ShiftHalf(m: Limb)
    ensures m * HALF % BASE == HALF * (m % HALF)
    ensures HALF * m == m * HALF % BASE + BASE * (m / HALF)
  {
    var q, r := m / HALF, m % HALF;
    assert m * HALF == HALF * r + BASE * q;
  }

  /** Folds the four half products into a low and a high limb. */
  method FoldHalves(lo: Limb, mx: Limb, my: Limb, hi: Limb) returns (r0: Limb, r1: Limb)
    requires lo + HALF * mx + HALF * my + BASE * hi < BASE * BASE
    ensures r0 + BASE * r1 == lo + HALF * mx + HALF * my + BASE * hi
  {
    ShiftHalf(mx);
    ShiftHalf(my);
    var rx: Limb := mx * HALF % BASE;
    var ry: Limb := my * HALF % BASE;
    r1 := Add32(hi, mx / HALF);
    r1 := Add32(r1, my / HALF);
    r0, r1 := AddIn(lo, r1, rx);
    r0, r1 := AddIn(r0, r1, ry);
  }

  /**
   * Half-limb form: four 16-bit products, their middle halves folded in by shifts.
   * Every partial sum is taken modulo 2^32, yet the result is the same exact sum.
   */
  method MulAddHalf(s: Limb, d: Limb, b: Limb, c: Limb) returns (d': Limb, c': Limb)
    ensures d' + BASE * c' == d + s * b + c
  {
    var b0, b1 := b % HALF, b / HALF;
    var s0, s1 := s % HALF, s / HALF;
    ProductBound(s0, b1, HALF - 1, HALF - 1);
    ProductBound(s0, b0, HALF - 1, HALF - 1);
    ProductBound(s1, b0, HALF - 1, HALF - 1);
    ProductBound(s1, b1, HALF - 1, HALF - 1);
    ProductBound(s, b, BASE - 1, BASE - 1);
    HalfProduct(s0, s1, b0, b1);
    var r0, r1 := FoldHalves(s0 * b0, s0 * b1, s1 * b0, s1 * b1);
    r0, r1 := AddIn(r0, r1, c);
    r0, r1 := AddIn(r0, r1, d);
    return r0, r1;
  }
}
