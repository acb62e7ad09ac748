/** Bytes as polynomials over GF(2): multiplication by x, and by small polynomials. */
module Galois {
  import opened Bytes
  import opened MachineWords

  // ---------- rearranging ----------

  /** (a + b) + (c + d) == (a + c) + (b + d). */
  lemma Swap4(a: Byte, b: Byte, c: Byte, d: Byte)
    ensures Xor(Xor(a, b), Xor(c, d)) == Xor(Xor(a, c), Xor(b, d))
  {
    hide Xor;
    XorAssoc(a, b, Xor(c, d));
    XorAssoc(b, c, d);
    XorComm(b, c);
    XorAssoc(c, b, d);
    XorAssoc(a, c, Xor(b, d));
  }

  lemma XorSame(a: Byte)
    ensures Xor(a, a) == 0
  {
    hide Xor;
    XorZero(a);
    XorUndo(0, a);
  }

  // ---------- multiplication by x ----------

  /** Multiplication by x modulo x^8 + x^4 + x^3 + x + 1. */
  function Xtime(a: Byte): Byte {
    if a < 128 then 2 * a else Xor(2 * (a - 128), 0x1B)
  }

  lemma DoubleXor(a: nat, b: nat)
    ensures XorNat(2 * a, 2 * b) == 2 * XorNat(a, b)
  {
    XorDigits(2 * a, 2 * b);
  }

  /** The low seven digits and the highest digit of a byte. */
  function Low(a: Byte): (r: Byte)
    ensures r < 128
  {
    if a < 128 then a else a - 128
  }

  function Reduce(a: Byte): Byte {
    if a < 128 then 0 else 0x1B
  }

  lemma XtimeParts(a: Byte)
    ensures Xtime(a) == Xor(2 * Low(a), Reduce(a))
  {
    hide Xor;
    XorZero(2 * Low(a));
  }

  lemma XorParts(a: Byte, b: Byte)
    ensures 2 * Low(Xor(a, b)) == Xor(2 * Low(a), 2 * Low(b))
    ensures Reduce(Xor(a, b)) == Xor(Reduce(a), Reduce(b))
  {
    hide Xor;
    var x, y := (if a < 128 then 0 else 1), (if b < 128 then 0 else 1);
    XorJoined7(Low(a), Low(b), x, y);
    XorBound(Low(a), Low(b), 128);
    assert XorNat(0, 0) == 0 && XorNat(0, 1) == 1 && XorNat(1, 0) == 1 && XorNat(1, 1) == 0;
    DoubleXor(Low(a), Low(b));
    assert Xor(a, b) == XorNat(Low(a), Low(b)) + 128 * XorNat(x, y) by { XorIs(a, b); }
    XorIs(2 * Low(a), 2 * Low(b));
    XorSame(0x1B);
    XorSame(0);
    XorZero(0x1B);
  }

  lemma XorIs(a: Byte, b: Byte)
    ensures Xor(a, b) == XorNat(a, b)
  {
  }

  /** Multiplication by x distributes over exclusive or. */
  lemma XtimeLinear(a: Byte, b: Byte)
    ensures Xtime(Xor(a, b)) == Xor(Xtime(a), Xtime(b))
  {
    hide Xor, Xtime, Low, Reduce;
    XtimeParts(a);
    XtimeParts(b);
    XtimeParts(Xor(a, b));
    XorParts(a, b);
    Swap4(2 * Low(a), Reduce(a), 2 * Low(b), Reduce(b));
  }

  // ---------- multiplication by a polynomial ----------

  /** A polynomial of degree at most four, lowest coefficient first. */
  datatype Poly = Poly(d0: bool, d1: bool, d2: bool, d3: bool, d4: bool)

  function Sum(p: Poly, q: Poly): Poly {
    Poly(p.d0 != q.d0, p.d1 != q.d1, p.d2 != q.d2, p.d3 != q.d3, p.d4 != q.d4)
  }

  /** The polynomial times x, when its degree leaves room. */
  function Up(p: Poly): Poly {
    Poly(false, p.d0, p.d1, p.d2, p.d3)
  }

  const NONE := Poly(false, false, false, false, false)
  const P1 := Poly(true, false, false, false, false)
  const P2 := Poly(false, true, false, false, false)
  const P3 := Poly(true, true, false, false, false)
  const P9 := Poly(true, false, false, true, false)
  const PB := Poly(true, true, false, true, false)
  const PD := Poly(true, false, true, true, false)
  const PE := Poly(false, true, true, true, false)

  function Pick(c: bool, a: Byte): Byte {
    if c then a else 0
  }

  /** The polynomial times a byte. */
  function Times(p: Poly, a: Byte): Byte {
    var a1 := Xtime(a);
    var a2 := Xtime(a1);
    var a3 := Xtime(a2);
    Xor(Pick(p.d0, a), Xor(Pick(p.d1, a1), Xor(Pick(p.d2, a2), Xor(Pick(p.d3, a3), Pick(p.d4, Xtime(a3))))))
  }

  lemma PickXor(c: bool, d: bool, a: Byte)
    ensures Pick(c != d, a) == Xor(Pick(c, a), Pick(d, a))
  {
    hide Xor;
    XorSame(a);
    XorZero(a);
    XorZero(0);
  }

  lemma PickLinear(c: bool, a: Byte, b: Byte)
    ensures Pick(c, Xor(a, b)) == Xor(Pick(c, a), Pick(c, b))
  {
    hide Xor;
    XorZero(0);
  }

  /** Two chains of five, added link by link. */
  lemma Chain(a0: Byte, a1: Byte, a2: Byte, a3: Byte, a4: Byte, b0: Byte, b1: Byte, b2: Byte, b3: Byte, b4: Byte)
    ensures Xor(Xor(a0, Xor(a1, Xor(a2, Xor(a3, a4)))), Xor(b0, Xor(b1, Xor(b2, Xor(b3, b4)))))
      == Xor(Xor(a0, b0), Xor(Xor(a1, b1), Xor(Xor(a2, b2), Xor(Xor(a3, b3), Xor(a4, b4)))))
  {
    hide Xor;
    Swap4(a3, a4, b3, b4);
    Swap4(a2, Xor(a3, a4), b2, Xor(b3, b4));
    Swap4(a1, Xor(a2, Xor(a3, a4)), b1, Xor(b2, Xor(b3, b4)));
    Swap4(a0, Xor(a1, Xor(a2, Xor(a3, a4))), b0, Xor(b1, Xor(b2, Xor(b3, b4))));
  }

  lemma TimesSum(p: Poly, q: Poly, a: Byte)
    ensures Times(Sum(p, q), a) == Xor(Times(p, a), Times(q, a))
  {
    hide Xor, Xtime, Pick;
    var a1 := Xtime(a);
    var a2 := Xtime(a1);
    var a3 := Xtime(a2);
    var a4 := Xtime(a3);
    PickXor(p.d0, q.d0, a);
    PickXor(p.d1, q.d1, a1);
    PickXor(p.d2, q.d2, a2);
    PickXor(p.d3, q.d3, a3);
    PickXor(p.d4, q.d4, a4);
    Chain(Pick(p.d0, a), Pick(p.d1, a1), Pick(p.d2, a2), Pick(p.d3, a3), Pick(p.d4, a4),
          Pick(q.d0, a), Pick(q.d1, a1), Pick(q.d2, a2), Pick(q.d3, a3), Pick(q.d4, a4));
  }

  lemma TimesLinear(p: Poly, a: Byte, b: Byte)
    ensures Times(p, Xor(a, b)) == Xor(Times(p, a), Times(p, b))
  {
    hide Xor, Xtime, Pick;
    var a1, b1 := Xtime(a), Xtime(b);
    var a2, b2 := Xtime(a1), Xtime(b1);
    var a3, b3 := Xtime(a2), Xtime(b2);
    var a4, b4 := Xtime(a3), Xtime(b3);
    XtimeLinear(a, b);
    XtimeLinear(a1, b1);
    XtimeLinear(a2, b2);
    XtimeLinear(a3, b3);
    PickLinear(p.d0, a, b);
    PickLinear(p.d1, a1, b1);
    PickLinear(p.d2, a2, b2);
    PickLinear(p.d3, a3, b3);
    PickLinear(p.d4, a4, b4);
    Chain(Pick(p.d0, a), Pick(p.d1, a1), Pick(p.d2, a2), Pick(p.d3, a3), Pick(p.d4, a4),
          Pick(p.d0, b), Pick(p.d1, b1), Pick(p.d2, b2), Pick(p.d3, b3), Pick(p.d4, b4));
  }

  lemma TimesXtime(p: Poly, a: Byte)
    requires !p.d4
    ensures Times(p, Xtime(a)) == Times(Up(p), a)
  {
    hide Xor, Xtime;
    var a1 := Xtime(a);
    var a2 := Xtime(a1);
    var a3 := Xtime(a2);
    var a4 := Xtime(a3);
    XorZero(Pick(p.d3, a4));
    XorZero(Xor(Pick(p.d0, a1), Xor(Pick(p.d1, a2), Xor(Pick(p.d2, a3), Pick(p.d3, a4)))));
  }

  lemma TimesNone(a: Byte)
    ensures Times(NONE, a) == 0
  {
    hide Xor, Xtime;
    XorZero(0);
  }

  lemma TimesOne(a: Byte)
    ensures Times(P1, a) == a
  {
    hide Xor, Xtime;
    XorZero(0);
    XorZero(a);
  }

  lemma TimesTwo(a: Byte)
    ensures Times(P2, a) == Xtime(a)
  {
    hide Xor, Xtime;
    XorZero(0);
    XorZero(Xtime(a));
  }

  lemma TimesThree(a: Byte)
    ensures Times(P3, a) == Xor(a, Xtime(a))
  {
    hide Xor, Xtime, Times;
    TimesSum(P1, P2, a);
    TimesOne(a);
    TimesTwo(a);
  }

  /** The product with 1, 2 or 3. */
  function Product(p: Poly, q: Poly): Poly {
    Sum(if q.d0 then p else NONE, if q.d1 then Up(p) else NONE)
  }

  predicate Linear(q: Poly) {
    !q.d2 && !q.d3 && !q.d4
  }

  /** Multiplying by two polynomials in turn is multiplying by their product; nothing is reduced. */
  lemma TimesTimes(p: Poly, q: Poly, a: Byte)
    requires !p.d4 && Linear(q)
    ensures Times(p, Times(q, a)) == Times(Product(p, q), a)
  {
    hide Xor, Xtime;
    LinearTimes(q, a);
    hide Times;
    TimesLinear(p, Pick(q.d0, a), Pick(q.d1, Xtime(a)));
    TimesXtime(p, a);
    TimesZero(p);
    TimesNone(a);
    TimesSum(if q.d0 then p else NONE, if q.d1 then Up(p) else NONE, a);
  }

  lemma LinearTimes(q: Poly, a: Byte)
    requires Linear(q)
    ensures Times(q, a) == Xor(Pick(q.d0, a), Pick(q.d1, Xtime(a)))
  {
    hide Xor, Xtime;
    XorZero(0);
    XorZero(Pick(q.d1, Xtime(a)));
  }

  lemma TimesZero(p: Poly)
    ensures Times(p, 0) == 0
  {
    assert Xtime(0) == 0;
    hide Xtime, Xor;
    XorZero(0);
  }
}
