/** Powers of two and bitwise operations on natural numbers. */
module Bits {
  import opened Limbs

  function Two(n: nat): (r: int)
    ensures r > 0
  {
    if n == 0 then 1 else 2 * Two(n - 1)
  }

  /** Bitwise or, one binary digit at a time. */
  function Or(a: nat, b: nat): nat
    decreases a + b
  {
    if a == 0 && b == 0 then 0
    else (if a % 2 == 1 || b % 2 == 1 then 1 else 0) + 2 * Or(a / 2, b / 2)
  }

  /** Bitwise and. */
  function And(a: nat, b: nat): nat {
    if a == 0 || b == 0 then 0
    else (if a % 2 == 1 && b % 2 == 1 then 1 else 0) + 2 * And(a / 2, b / 2)
  }

  lemma OrDigits(a: nat, b: nat)
    ensures Or(a, b) / 2 == Or(a / 2, b / 2)
    ensures Or(a, b) % 2 == if a % 2 == 1 || b % 2 == 1 then 1 else 0
  {
  }

  lemma AndDigits(a: nat, b: nat)
    ensures And(a, b) / 2 == And(a / 2, b / 2)
    ensures And(a, b) % 2 == if a % 2 == 1 && b % 2 == 1 then 1 else 0
  {
  }

  lemma {:induction false} OrBelow(a: nat, b: nat, k: nat)
    requires a < Two(k) && b < Two(k)
    ensures Or(a, b) < Two(k)
  {
    if k > 0 {
      OrBelow(a / 2, b / 2, k - 1);
      OrDigits(a, b);
    }
  }

  lemma {:induction false} AndBelow(a: nat, b: nat)
    ensures And(a, b) <= a
  {
    if a > 0 && b > 0 {
      AndBelow(a / 2, b / 2);
      AndDigits(a, b);
    }
  }

  /** All ones keep a number, all zeros clear it. */
  lemma {:induction false} AndOnes(a: nat, k: nat)
    requires a < Two(k)
    ensures And(a, Two(k) - 1) == a && And(a, 0) == 0
  {
    if k > 0 {
      AndOnes(a / 2, k - 1);
      AndDigits(a, Two(k) - 1);
      AndDigits(a, 0);
      assert (Two(k) - 1) / 2 == Two(k - 1) - 1 && (Two(k) - 1) % 2 == 1;
    }
  }

  lemma {:induction false} ZeroOr(x: nat)
    ensures Or(0, x) == x
  {
    if x > 0 {
      ZeroOr(x / 2);
    }
  }

  lemma {:induction false} TwoAdd(a: nat, b: nat)
    ensures Two(a + b) == Two(a) * Two(b)
  {
    if b > 0 {
      TwoAdd(a, b - 1);
      MulSwap(2, Two(a), Two(b - 1));
    }
  }

  lemma {:induction false} TwoMono(a: nat, b: nat)
    requires a <= b
    ensures Two(a) <= Two(b)
  {
    if a < b {
      TwoMono(a, b - 1);
    }
  }

  /** Limb weights are powers of two. */
  lemma {:induction false} PowTwo(i: nat)
    ensures Pow(i) == Two(32 * i)
  {
    if i > 0 {
      PowTwo(i - 1);
      TwoAdd(32 * (i - 1), 32);
      Two32();
    }
  }

  lemma Two32()
    ensures Two(5) == 32 && Two(8) == 256 && Two(16) == 0x1_0000 && Two(31) == BASE / 2 && Two(32) == BASE
  {
    assert Two(2) == 4;
    assert Two(4) == 16;
    assert Two(6) == 64;
    TwoAdd(8, 8);
    TwoAdd(16, 16);
  }

  /** Factors of a limb's width: a left part and its complement. */
  lemma TwoSplit(t: nat)
    requires t <= 32
    ensures Two(t) * Two(32 - t) == BASE && Two(t) <= BASE
    ensures t < 32 ==> Two(t) < BASE
  {
    TwoAdd(t, 32 - t);
    Two32();
    TwoMono(t, 32);
    if t < 32 {
      TwoMono(t, 31);
    }
  }

  lemma ShlTwo(c: int, i: nat)
    ensures Shl(c, i) == c * Two(32 * i)
  {
    ShlIsProduct(c, i);
    PowTwo(i);
  }

  /** Or of numbers with no common binary digit is their sum. */
  lemma {:induction false} OrDisjoint(a: nat, b: nat, t: nat)
    requires b < Two(t)
    ensures Or(a * Two(t), b) == a * Two(t) + b
  {
    var x := a * Two(t);
    if t == 0 {
      OrZero(x);
    } else {
      var half := a * Two(t - 1);
      MulSwap(a, 2, Two(t - 1));
      assert x == 2 * half;
      OrDisjoint(a, b / 2, t - 1);
    }
  }

  lemma {:induction false} OrZero(x: nat)
    ensures Or(x, 0) == x
  {
    if x > 0 {
      OrZero(x / 2);
    }
  }

  lemma DivBounds(x: int, d: int)
    requires d > 0
    ensures d * (x / d) <= x < d * (x / d) + d
    ensures x == d * (x / d) + x % d
  {
  }

  /** A quotient is pinned down by its product and a short remainder. */
  lemma DivUnique(x: int, d: int, q: int, r: int)
    requires d > 0 && x == d * q + r && 0 <= r < d
    ensures x / d == q && x % d == r
  {
    var q', r' := x / d, x % d;
    DivBounds(x, d);
    if q < q' {
      MulMono(q + 1, q', d);
    } else if q' < q {
      MulMono(q' + 1, q, d);
    }
  }

  // ---------- binary digits ----------

  /** Binary digit k. */
  ghost function BitAt(x: int, k: nat): int {
    x / Two(k) % 2
  }

  lemma MulPos(d: nat, e: nat)
    requires d > 0 && e > 0
    ensures d * e > 0
  {
  }

  lemma DivDiv(x: nat, d: nat, e: nat)
    requires d > 0 && e > 0
    ensures d * e > 0 && x / d / e == x / (d * e)
  {
    MulPos(d, e);
    var q, r := x / d, x % d;
    DivBounds(x, d);
    DivBounds(q, e);
    var p, t := q / e, q % e;
    MulMono(t + 1, e, d);
    DivParts(x, d, e, p, t, r);
    MulMono(0, t, d);
    DistSum(t, 1, d);
    DivUnique(x, d * e, p, t * d + r);
  }

  lemma DivParts(x: int, d: int, e: int, p: int, t: int, r: int)
    requires x == d * (e * p + t) + r
    ensures x == (d * e) * p + (t * d + r)
  {
    assert d * (e * p + t) == d * (e * p) + d * t;
    assert d * (e * p) == (d * e) * p;
  }

  lemma BitShift(x: nat, c: nat, k: nat)
    ensures BitAt(x / Two(c), k) == BitAt(x, c + k)
  {
    DivDiv(x, Two(c), Two(k));
    TwoAdd(c, k);
  }

  /** Binary digits below t do not see the part from digit t on. */
  lemma LowBit(y: nat, q: nat, x: nat, t: nat, k: nat)
    requires k < t && y == q * Two(t) + x && x < Two(t)
    ensures BitAt(y, k) == BitAt(x, k)
  {
    hide Two;
    var d, h := Two(k), Two(t - k - 1);
    TwoParts(t, k);
    DivBounds(x, d);
    var m := x / d;
    QuotSum(q, h, d, x, m);
    MulMono(0, q, h);
    MulMono(0, q, Two(t));
    DivUnique(y, d, 2 * (q * h) + m, x % d);
  }

  lemma TwoParts(t: nat, k: nat)
    requires k < t
    ensures Two(t) == Two(k) * (2 * Two(t - k - 1))
  {
    TwoAdd(k, t - k);
  }

  lemma QuotSum(q: int, h: int, d: int, x: int, m: int)
    ensures q * (d * (2 * h)) + x == d * (2 * (q * h) + m) + (x - d * m)
  {
    assert q * (d * (2 * h)) == d * (2 * (q * h));
    assert d * (2 * (q * h) + m) == d * (2 * (q * h)) + d * m;
  }

  lemma BitHalf(x: nat, k: nat)
    ensures BitAt(x / 2, k) == BitAt(x, k + 1) && BitAt(x, 0) == x % 2
  {
    BitShift(x, 1, k);
    assert Two(1) == 2;
  }

  lemma {:induction false} AndBit(a: nat, b: nat, k: nat)
    ensures BitAt(And(a, b), k) == if BitAt(a, k) == 1 && BitAt(b, k) == 1 then 1 else 0
    decreases k
  {
    hide And, BitAt;
    AndDigits(a, b);
    BitHalf(a, if k > 0 then k - 1 else 0);
    BitHalf(b, if k > 0 then k - 1 else 0);
    BitHalf(And(a, b), if k > 0 then k - 1 else 0);
    if k > 0 {
      AndBit(a / 2, b / 2, k - 1);
    }
  }

  lemma {:induction false} OrBit(a: nat, b: nat, k: nat)
    ensures BitAt(Or(a, b), k) == if BitAt(a, k) == 1 || BitAt(b, k) == 1 then 1 else 0
    decreases k
  {
    hide Or, BitAt;
    OrDigits(a, b);
    BitHalf(a, if k > 0 then k - 1 else 0);
    BitHalf(b, if k > 0 then k - 1 else 0);
    BitHalf(Or(a, b), if k > 0 then k - 1 else 0);
    if k > 0 {
      OrBit(a / 2, b / 2, k - 1);
    }
  }

  /** Numbers that add up to n ones are opposite in every one of those digits. */
  lemma {:induction false} OppositeBit(x: nat, y: nat, n: nat, k: nat)
    requires x + y == Two(n) - 1 && k < n
    ensures BitAt(x, k) + BitAt(y, k) == 1
    decreases k
  {
    hide BitAt;
    BitHalf(x, if k > 0 then k - 1 else 0);
    BitHalf(y, if k > 0 then k - 1 else 0);
    assert Two(n) == 2 * Two(n - 1);
    if k > 0 {
      OppositeBit(x / 2, y / 2, n - 1, k - 1);
    }
  }

  /** Numbers below 2^n with the same n digits are equal. */
  lemma {:induction false} SameBits(x: nat, y: nat, n: nat)
    requires x < Two(n) && y < Two(n) && forall k :: 0 <= k < n ==> BitAt(x, k) == BitAt(y, k)
    ensures x == y
    decreases n
  {
    hide BitAt;
    if n > 0 {
      BitHalf(x, 0);
      BitHalf(y, 0);
      forall k | 0 <= k < n - 1
        ensures BitAt(x / 2, k) == BitAt(y / 2, k)
      {
        BitHalf(x, k);
        BitHalf(y, k);
      }
      SameBits(x / 2, y / 2, n - 1);
    }
  }

  /** Those from t on are those of that part. */
  lemma HighBit(y: nat, q: nat, x: nat, t: nat, k: nat)
    requires y == q * Two(t) + x && x < Two(t)
    ensures BitAt(y, t + k) == BitAt(q, k)
  {
    hide Two, BitAt;
    MulSwap(q, Two(t), 1);
    DivUnique(y, Two(t), q, x);
    BitShift(y, t, k);
  }
}
