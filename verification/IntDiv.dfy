/** Dividing a two-limb number by one limb, with and without a double-width type. */
module IntDiv {
  import opened Limbs
  import opened Bits
  import opened BignumShift

  /** What both versions promise: all ones on overflow, otherwise the exact quotient and remainder. */
  ghost predicate Divides(u1: Limb, u0: Limb, d: Limb, q: Limb, r: Limb) {
    if d == 0 || u1 >= d then q == BASE - 1 && r == BASE - 1
    else u1 * BASE + u0 == d * q + r && r < d
  }

  /** The specification leaves no freedom, so two versions that meet it agree. */
  lemma DividesUnique(u1: Limb, u0: Limb, d: Limb, q: Limb, r: Limb, q': Limb, r': Limb)
    requires Divides(u1, u0, d, q, r) && Divides(u1, u0, d, q', r')
    ensures q == q' && r == r'
  {
    if d != 0 && u1 < d {
      DivUnique(u1 * BASE + u0, d, q, r);
      DivUnique(u1 * BASE + u0, d, q', r');
    }
  }

  method IntDivDouble(u1: Limb, u0: Limb, d: Limb) returns (q: Limb, r: Limb)
    ensures Divides(u1, u0, d, q, r)
  {
    if d == 0 || u1 >= d {
      return BASE - 1, BASE - 1;
    }
    var dividend := u1 * BASE + u0;
    QuotientRange(dividend, d, BASE);
    DivBounds(dividend, d);
    var quotient := dividend / d;
    if quotient > BASE - 1 {
      quotient := BASE - 1;
    }
    q := quotient;
    r := dividend - quotient * d;
  }

  /** The divisor's product through its two halves. */
  lemma SplitProduct(q: int, d: int, d1: int, d0: int, u: int, r0: int)
    requires d == d1 * HALF + d0 && u == d1 * q + r0
    ensures q * d == HALF * (u - r0) + q * d0
  {
    assert q * (d1 * HALF + d0) == HALF * (d1 * q) + q * d0;
  }

  /** The correction test fires exactly on guesses that are too big. */
  lemma TestDecides(q: int, d: int, d1: int, d0: int, u: int, r0: int, w: int)
    requires d == d1 * HALF + d0 && u == d1 * q + r0
    ensures q * d0 > HALF * r0 + w <==> u * HALF + w < q * d
  {
    SplitProduct(q, d, d1, d0, u, r0);
  }

  lemma TooBig(q: int, d: int, u: int, w: int)
    requires 0 <= u < d && 0 <= w < HALF && HALF <= q
    ensures u * HALF + w < q * d
  {
    MulMono(HALF, q, d);
  }

  lemma OneLess(q: int, d1: int)
    ensures d1 * (q - 1) == d1 * q - d1
  {
  }

  /** The half-limb quotient of a divisor with its top bit set is at most two above the digit. */
  lemma HalfGuess(u: int, d1: int, d0: int)
    requires 0x8000 <= d1 < HALF && 0 <= d0 < HALF && 0 <= u < d1 * HALF + d0
    ensures 0 <= u / d1 <= HALF + 1
    ensures u == d1 * (u / d1) + u % d1 && 0 <= u % d1 < d1
  {
    QuotientRange(u, d1, HALF + 2);
    DivBounds(u, d1);
  }

  /** No product in the correction test reaches 2^32. */
  lemma HalfProductFits(q: int, d0: int)
    requires 0 <= q <= HALF + 1 && 0 <= d0 < HALF
    ensures 0 <= q * d0 < BASE
  {
    MulMono(0, q, d0);
    MulMono(q, HALF + 1, d0);
    assert 0 * d0 == 0 && (HALF + 1) * d0 == HALF * d0 + d0;
  }

  /** q is no less than the quotient digit, and r0 is what the top half of the divisor leaves. */
  ghost predicate Guess(u: int, w: int, d: int, d1: int, q: int, r0: int) {
    u == d1 * q + r0 && u * HALF + w < (q + 1) * d
  }

  /** The correction test, taken modulo 2^32. */
  predicate TestFires(q: Limb, r0: Limb, w: Limb, d0: Limb) {
    q >= HALF || Mul32(q, d0) > Add32(Mul32(HALF, r0), w)
  }

  /** Nothing in the test wraps while the guess is at most two above a digit. */
  lemma TestExact(q: Limb, r0: Limb, w: Limb, d0: Limb)
    requires q <= HALF + 1 && r0 < HALF && w < HALF && d0 < HALF
    ensures TestFires(q, r0, w, d0) <==> q >= HALF || q * d0 > HALF * r0 + w
  {
    HalfProductFits(q, d0);
    assert Mul32(q, d0) == q * d0 && Mul32(HALF, r0) == HALF * r0;
    hide Mul32;
  }

  lemma FirstGuess(u: Limb, w: int, d: Limb, d1: Limb, d0: int)
    requires d == d1 * HALF + d0 && 0x8000 <= d1 < HALF && 0 <= d0 < HALF && 0 <= w < HALF && u < d
    ensures 0 <= u / d1 <= HALF + 1 && 0 <= Sub32(u, Mul32(d1, u / d1)) < d1
    ensures Guess(u, w, d, d1, u / d1, Sub32(u, Mul32(d1, u / d1)))
  {
    HalfRemainder(u, d1, d0);
    var q := u / d1;
    OneLess(q + 1, d1);
    TestDecides(q + 1, d, d1, d0, u, u % d1 - d1, w);
    MulMono(0, q + 1, d0);
  }

  lemma HalfRemainder(u: Limb, d1: Limb, d0: int)
    requires 0x8000 <= d1 < HALF && 0 <= d0 < HALF && u < d1 * HALF + d0
    ensures 0 <= u / d1 <= HALF + 1 && u == d1 * (u / d1) + u % d1
    ensures Sub32(u, Mul32(d1, u / d1)) == u % d1 < d1
  {
    HalfGuess(u, d1, d0);
    MulMono(0, u / d1, d1);
  }

  lemma NextGuess(u: Limb, w: Limb, d: Limb, d1: Limb, d0: Limb, q: Limb, r0: Limb)
    requires d == d1 * HALF + d0 && w < HALF && u < d && d0 < HALF && r0 < HALF && q <= HALF + 1
    requires Guess(u, w, d, d1, q, r0)
    requires TestFires(q, r0, w, d0)
    ensures q > 0 && Guess(u, w, d, d1, q - 1, r0 + d1)
  {
    TestExact(q, r0, w, d0);
    TestDecides(q, d, d1, d0, u, r0, w);
    if q >= HALF {
      TooBig(q, d, u, w);
    }
    OneLess(q, d1);
  }

  lemma LastGuess(u: Limb, w: Limb, d: Limb, d1: Limb, d0: Limb, q: Limb, r0: Limb)
    requires d == d1 * HALF + d0 && Guess(u, w, d, d1, q, r0) && w < HALF && d0 < HALF && q <= HALF + 1
    requires r0 >= HALF || !TestFires(q, r0, w, d0)
    ensures q * d <= u * HALF + w < q * d + d
  {
    if r0 < HALF {
      TestExact(q, r0, w, d0);
    }
    HalfProductFits(q, d0);
    TestDecides(q, d, d1, d0, u, r0, w);
    OneLess(q + 1, d);
  }

  /**
   * One half-limb digit: guess from the top half of the divisor, then correct.
   * The products and sums of the test are taken modulo 2^32 and none of them wraps.
   */
  method HalfQuotient(u: Limb, w: Limb, d: Limb, d1: Limb, d0: Limb) returns (q: Limb)
    requires d == d1 * HALF + d0 && 0x8000 <= d1 < HALF && d0 < HALF
    requires u < d && w < HALF
    ensures q * d <= u * HALF + w < q * d + d
  {
    hide Guess, TestFires, Mul32, Sub32;
    FirstGuess(u, w, d, d1, d0);
    q := u / d1;
    var r0: Limb := Sub32(u, Mul32(d1, q));
    while TestFires(q, r0, w, d0)
      invariant q <= HALF + 1 && r0 < HALF
      invariant Guess(u, w, d, d1, q, r0)
      decreases q
    {
      NextGuess(u, w, d, d1, d0, q, r0);
      q := q - 1;
      r0 := Add32(r0, d1);
      if r0 >= HALF {
        break;
      }
    }
    LastGuess(u, w, d, d1, d0, q, r0);
  }

  /** The digit together with the remainder it leaves, computed modulo 2^32. */
  method HalfDigit(u: Limb, w: Limb, d: Limb, d1: Limb, d0: Limb) returns (q: Limb, r: Limb)
    requires d == d1 * HALF + d0 && 0x8000 <= d1 < HALF && d0 < HALF
    requires u < d && w < HALF
    ensures r < d && u * HALF + w == d * q + r && q < HALF
  {
    q := HalfQuotient(u, w, d, d1, d0);
    if q >= HALF {
      TooBig(q, d, u, w);
    }
    r := (u * HALF + (w - q * d)) % BASE;
  }

  /** The half-limb version: normalise, then two digits of Knuth's algorithm D. */
  method IntDivHalf(u1: Limb, u0: Limb, d: Limb) returns (q: Limb, r: Limb)
    ensures Divides(u1, u0, d, q, r)
  {
    if d == 0 || u1 >= d {
      return BASE - 1, BASE - 1;
    }
    var s := Clz(d);
    Two32();
    TwoSplit(s);
    Normalize(u1, u0, d, s);
    var T := Two(s);
    var dn: Limb := d * T % BASE;
    var hi: Limb := if s == 0 then 0 else u0 / Two(32 - s);
    var un: Limb := Or(u1 * T % BASE, hi);
    var wn: Limb := u0 * T % BASE;
    var d1, d0 := dn / HALF, dn % HALF;
    var q1, rax := HalfDigit(un, wn / HALF, dn, d1, d0);
    var q0, r0 := HalfDigit(rax, wn % HALF, dn, d1, d0);
    q := q1 * HALF + q0;
    TwoDigits(un, wn, dn, q1, q0, rax, r0);
    Denormalize(u1, u0, d, s, q, r0);
    r := r0 / T;
  }

  /** The low limb of the dividend, shifted left across the limb boundary. */
  lemma ShiftAcross(u0: Limb, s: nat)
    requires s < 32
    ensures var hi := if s == 0 then 0 else u0 / Two(32 - s);
            0 <= hi < Two(s) && hi * BASE + u0 * Two(s) % BASE == u0 * Two(s)
  {
    if s > 0 {
      TwoSplit(s);
      WrapProduct(u0, Two(s), Two(32 - s));
      DivBounds(u0 * Two(s), BASE);
    }
  }

  /** Shifting divisor and dividend left by the divisor's leading zeros loses nothing. */
  lemma Normalize(u1: Limb, u0: Limb, d: Limb, s: nat)
    requires s < 32 && u1 < d && Two(31 - s) <= d < Two(32 - s)
    ensures var hi := if s == 0 then 0 else u0 / Two(32 - s);
            && 0 <= hi < BASE
            && d * Two(s) % BASE == d * Two(s) && BASE / 2 <= d * Two(s) < BASE
            && Or(u1 * Two(s) % BASE, hi) < d * Two(s)
            && Or(u1 * Two(s) % BASE, hi) * BASE + u0 * Two(s) % BASE == (u1 * BASE + u0) * Two(s)
  {
    hide Two, Or;
    TwoSplit(s);
    TwoAdd(31 - s, s);
    Two32();
    ShiftedRange(u1, d, Two(s), Two(31 - s), Two(32 - s));
    DivUnique(u1 * Two(s), BASE, 0, u1 * Two(s));
    DivUnique(d * Two(s), BASE, 0, d * Two(s));
    Spread(u1, u0, Two(s));
    ShiftAcross(u0, s);
    OrDisjoint(u1, if s == 0 then 0 else u0 / Two(32 - s), s);
  }

  lemma Spread(u1: int, u0: int, T: int)
    ensures (u1 * BASE + u0) * T == (u1 * T) * BASE + u0 * T
  {
  }

  lemma ShiftedRange(u: int, d: int, T: int, lo: int, hi: int)
    requires 0 <= u < d && T > 0 && lo <= d < hi && lo * T == BASE / 2 && hi * T == BASE
    ensures BASE / 2 <= d * T < BASE && 0 <= u * T && u * T + T <= d * T
  {
    MulMono(lo, d, T);
    MulStrict(d, hi, T);
    MulMono(0, u, T);
    MulMono(u + 1, d, T);
    DistSum(T, u, 1);
  }

  lemma TwoDigits(u: int, w: int, d: int, q1: int, q0: int, rax: int, r: int)
    requires u * HALF + w / HALF == d * q1 + rax
    requires rax * HALF + w % HALF == d * q0 + r
    ensures u * BASE + w == d * (q1 * HALF + q0) + r
  {
    assert d * (q1 * HALF + q0) == HALF * (d * q1) + d * q0;
  }

  /** The remainder of the shifted division is the shifted remainder. */
  lemma Denormalize(u1: Limb, u0: Limb, d: Limb, s: nat, q: int, r: Limb)
    requires (u1 * BASE + u0) * Two(s) == (d * Two(s)) * q + r && r < d * Two(s)
    ensures u1 * BASE + u0 == d * q + r / Two(s) && 0 <= r / Two(s) < d
  {
    var m := u1 * BASE + u0 - d * q;
    Factor(u1 * BASE + u0, d, q, Two(s));
    Unscale(m, d, Two(s));
    DivUnique(r, Two(s), m, 0);
  }

  lemma Factor(n: int, d: int, q: int, T: int)
    ensures n * T - (d * T) * q == (n - d * q) * T
  {
    assert (d * T) * q == (d * q) * T;
  }

  lemma Unscale(m: int, d: int, T: int)
    requires T > 0 && 0 <= m * T < d * T
    ensures 0 <= m < d
  {
    if m < 0 {
      MulMono(m, -1, T);
    }
    if m >= d {
      MulMono(d, m, T);
    }
  }
}
