/**
 * When modular exponentiation is not reduced: with a negative base and an odd exponent it returns the modulus
 * itself if the power is a multiple of it. Which bases are safe can be told before the call.
 */
module BignumExpSign {
  import opened Bignum
  import opened BignumExp
  import opened Congruence

  /** a has an inverse modulo n. */
  ghost predicate Unit(a: int, n: int) {
    exists b :: Cong(a * b, 1, n)
  }

  /** d is a divisor of n, not 1, modulo which a has an inverse. */
  ghost predicate Coprime(a: int, n: int, d: nat) {
    d > 1 && Cong(n, 0, d) && Unit(a, d)
  }

  /** a is not divisible by every prime factor of n. */
  ghost predicate Safe(a: int, n: int) {
    exists d: nat :: Coprime(a, n, d)
  }

  /** Euclid's algorithm with the coefficients of the common divisor g. */
  lemma {:induction false} Euclid(a: nat, b: nat) returns (g: nat, x: int, y: int, p: nat, q: nat)
    requires a > 0 || b > 0
    ensures g > 0 && a == g * p && b == g * q && g == a * x + b * y
    decreases b
  {
    if b == 0 {
      g, x, y, p, q := a, 1, 0, 1, 0;
    } else {
      var k, r := a / b, a % b;
      assert a == b * k + r && 0 <= r < b;
      var x1, y1, p1, q1;
      g, x1, y1, p1, q1 := Euclid(b, r);
      EuclidStep(a, b, k, r, g, x1, y1, p1, q1);
      x, y, p, q := y1, x1 - k * y1, p1 * k + q1, p1;
    }
  }

  lemma EuclidStep(a: nat, b: nat, k: nat, r: nat, g: nat, x: int, y: int, p: nat, q: nat)
    requires a == b * k + r && b == g * p && r == g * q && g == b * x + r * y
    ensures p * k + q >= 0 && a == g * (p * k + q) && g == a * y + b * (x - k * y)
  {
    assert g * (p * k + q) == (g * p) * k + g * q;
    assert a * y == (b * k) * y + r * y;
    assert b * (x - k * y) == b * x - (b * k) * y;
  }

  /** Either some power of a is a multiple of n, or a is a unit modulo some divisor of n. */
  lemma {:induction false} PowerOrUnit(a: nat, n: nat) returns (e: nat, d: nat)
    requires n > 0
    ensures Cong(Exp(a, e), 0, n) || Coprime(a, n, d)
    decreases n
  {
    var g, x, y, m, k := Euclid(n, a);
    if g == 1 {
      e, d := 0, n;
      if n == 1 {
        CongIntro(Exp(a, 0), 0, 1, 1);
      } else {
        CongIntro(a * y, 1, -x, n);
        CongIntro(n, 0, 1, n);
        assert Unit(a, n);
      }
    } else {
      assert 0 < m < n by {
        Factor(n, g, m);
      }
      e, d := PowerOrUnit(a, m);
      if Cong(Exp(a, e), 0, m) {
        OneMore(a, e, g, k, m);
        e := e + 1;
      } else {
        CongScale(m, 0, g, d);
        assert Coprime(a, n, d);
      }
    }
  }

  lemma Factor(n: nat, g: nat, m: nat)
    requires n > 0 && n == g * m && g > 1
    ensures 0 < m < n
  {
    if m > 0 {
      assert g * m >= 2 * m;
    }
  }

  lemma OneMore(a: nat, e: nat, g: nat, k: nat, m: nat)
    requires a == g * k && Cong(Exp(a, e), 0, m)
    ensures Cong(Exp(a, e + 1), 0, g * m)
  {
    var j := CongWitness(Exp(a, e), 0, m);
    assert Exp(a, e + 1) == a * Exp(a, e);
    assert (g * k) * (j * m) == (k * j) * (g * m);
    CongIntro(Exp(a, e + 1), 0, k * j, g * m);
  }

  lemma {:induction false} UnitPower(a: int, b: int, e: nat, n: int)
    requires Cong(a * b, 1, n)
    ensures Cong(Exp(a, e) * Exp(b, e), 1, n)
  {
    if e == 0 {
      CongRefl(1, n);
    } else {
      UnitPower(a, b, e - 1, n);
      var u, v := Exp(a, e - 1), Exp(b, e - 1);
      CongMul(a * b, 1, u * v, 1, n);
      assert (a * b) * (u * v) == (a * u) * (b * v);
    }
  }

  /** No power of a unit modulo a divisor of n is a multiple of n. */
  lemma UnitNeverZero(a: nat, e: nat, n: nat, d: nat)
    requires Coprime(a, n, d)
    ensures !Cong(Exp(a, e), 0, n)
  {
    if Cong(Exp(a, e), 0, n) {
      var b :| Cong(a * b, 1, d);
      UnitPower(a, b, e, d);
      var x, y := Exp(a, e), Exp(b, e);
      var k := CongWitness(x, 0, n);
      CongScale(n, 0, k, d);
      CongScale(x, 0, y, d);
      CongSym(x * y, 1, d);
      CongTrans(1, x * y, 0, d);
      CongIsMod(1, 0, d);
    }
  }

  lemma ZeroResidueMeans(x: int, n: int)
    requires n > 0
    ensures x % n == 0 <==> Cong(x, 0, n)
  {
    if Cong(x, 0, n) {
      CongIsMod(x, 0, n);
    }
    if x % n == 0 {
      ModIsCong(x, n);
    }
  }

  /** A power that is a multiple stays one. */
  lemma ZeroStays(a: nat, e: nat, n: nat)
    requires Cong(Exp(a, e), 0, n)
    ensures Cong(Exp(a, e + 1), 0, n)
  {
    CongScale(Exp(a, e), 0, a, n);
  }

  /**
   * For negative bases of magnitude a the result is a reduced residue for every exponent if and only if
   * a has an inverse modulo some divisor of n above 1.
   */
  lemma ReducedExactlyWhen(a: nat, n: nat)
    requires n > 0
    ensures (forall e: nat :: ModPower(-1, a, e, n) < n) <==> Safe(a, n)
  {
    if Safe(a, n) {
      var d: nat :| Coprime(a, n, d);
      forall e: nat
        ensures ModPower(-1, a, e, n) < n
      {
        ModPowerLaw(-1, a, e, n);
        UnitNeverZero(a, e, n, d);
        ZeroResidueMeans(Exp(a, e), n);
      }
    } else {
      var e, d := PowerOrUnit(a, n);
      assert !Coprime(a, n, d);
      ZeroStays(a, e, n);
      var odd := if e % 2 == 1 then e else e + 1;
      ZeroResidueMeans(Exp(a, odd), n);
      ModPowerLaw(-1, a, odd, n);
      assert !(ModPower(-1, a, odd, n) < n);
    }
  }

  /** A base prime to the modulus gives a reduced residue with every sign and exponent. */
  lemma UnitReduced(s: int, a: nat, e: nat, n: nat)
    requires n > 1 && Unit(a, n)
    ensures 0 <= ModPower(s, a, e, n) < n
  {
    CongIntro(n, 0, 1, n);
    UnitNeverZero(a, e, n, n);
    ZeroResidueMeans(Exp(a, e), n);
    ModPowerLaw(s, a, e, n);
  }

  /** (-3)^1 mod 3 comes out as 3. */
  lemma ModulusReturned()
    ensures ModPower(-1, 3, 1, 3) == 3 && !Safe(3, 3)
  {
    assert Exp(3, 1) == 3 * Exp(3, 0);
    assert !(ModPower(-1, 3, 1, 3) < 3);
    ReducedExactlyWhen(3, 3);
  }

  method MinusThreeModThree() returns (X: Mpi, ret: int)
    ensures ret == 0 && X.Int() == 3
  {
    X := new Mpi();
    var A := new Mpi.FromInt(-3);
    var E := new Mpi.FromInt(1);
    var N := new Mpi.FromInt(3);
    ModulusReturned();
    ret := ExpMod(X, A, E, N, null);
  }
}
