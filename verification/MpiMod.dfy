/** Reduction modulo a multi-precision or a small integer. */
module BignumMod {
  import opened Limbs
  import opened Bits
  import opened Bignum
  import opened BignumShift
  import opened BignumDiv

  /** The truncating remainder, brought up to the mathematical one. */
  lemma TruncToMod(a: int, b: int)
    requires b > 0
    ensures a % b == if TruncMod(a, b) < 0 then TruncMod(a, b) + b else TruncMod(a, b)
  {
    DivisionLaw(a, b);
    var q, r := TruncDiv(a, b), TruncMod(a, b);
    MulComm(q, b);
    if r < 0 {
      assert b * (q - 1) == b * q - b;
      DivUnique(a, b, q - 1, r + b);
    } else {
      DivUnique(a, b, q, r);
    }
  }

  /** R := A mod B, in [0, B). */
  method ModMpi(R: Mpi, A: Mpi, B: Mpi) returns (ret: int)
    requires A.Valid() && B.Valid() && R.Valid() && R != B
    modifies R
    ensures ret == (if B.Int() < 0 then ERR_NEGATIVE_VALUE else if B.Int() == 0 then ERR_DIVISION_BY_ZERO else OK)
    ensures ret == OK ==> R.Valid() && R.Int() == old(A.Int()) % B.Int()
    ensures ret == OK && old(|A.p|) > 0 ==> |R.p| >= old(|R.p|) && |R.p| > 0
    ensures ret != OK ==> unchanged(R)
  {
    assert B.Int() != 0 ==> |B.p| > 0;
    hide TruncMod, TruncDiv, Val;
    var c := B.CmpInt(0);
    if c < 0 {
      return ERR_NEGATIVE_VALUE;
    }
    ghost var a, b := A.Int(), B.Int();
    ret := DivMpi(null, R, A, B);
    if ret != OK {
      return;
    }
    ghost var t := TruncMod(a, b);
    DivisionLaw(a, b);
    TruncToMod(a, b);
    c := R.CmpInt(0);
    while c < 0
      invariant R.Valid() && c == Sign(R.Int())
      invariant old(|A.p|) > 0 ==> |R.p| >= old(|R.p|) && |R.p| > 0
      invariant R.Int() == t || (t < 0 && R.Int() == t + b)
      decreases b - R.Int()
    {
      R.AddMpi(R, B);
      c := R.CmpInt(0);
    }
    BringBelow(R, B);
    DivUnique(a % b, b, 0, a % b);
  }

  /** Subtracts the modulus until the residue is below it. */
  method BringBelow(R: Mpi, B: Mpi)
    requires R.Valid() && B.Valid() && R != B && 0 <= R.Int() && 0 < B.Int()
    modifies R
    ensures R.Valid() && R.Int() == old(R.Int()) % B.Int()
    ensures old(|R.p|) > 0 ==> |R.p| >= old(|R.p|)
  {
    assert |B.p| > 0;
    hide Val;
    var c := R.CmpMpi(B);
    while c >= 0
      invariant R.Valid() && c == Sign(R.Int() - B.Int())
      invariant old(|R.p|) > 0 ==> |R.p| >= old(|R.p|)
      invariant 0 <= R.Int() && R.Int() % B.Int() == old(R.Int()) % B.Int()
      decreases R.Int()
    {
      ModShift(R.Int() - B.Int(), 1, B.Int());
      R.SubMpi(R, B);
      c := R.CmpMpi(B);
    }
    DivUnique(R.Int(), B.Int(), 0, R.Int());
  }

  // ---------- modulo a machine integer ----------

  /** One half-limb of the long division by b, in 32-bit arithmetic. */
  function HalfStep(y: Limb, h: Limb, b: Limb): Limb
    requires b > 0 && h < HALF
  {
    (y * HALF % BASE + h) % b
  }

  /** The limbs from index i upward, divided down half a limb at a time. */
  function Fold(p: seq<Limb>, i: nat, b: Limb): Limb
    requires b > 0 && i <= |p|
    decreases |p| - i
  {
    if i == |p| then 0
    else HalfStep(HalfStep(Fold(p, i + 1, b), p[i] / HALF, b), p[i] % HALF, b)
  }

  /** The result the code returns for a sign and a residue of the magnitude. */
  function SignedResidue(s: int, y: Limb, b: Limb): int {
    if s < 0 && y != 0 then b - y else y
  }

  method ModInt(A: Mpi, b: int) returns (ret: int, r: int)
    requires A.Valid() && -BASE / 2 <= b < BASE / 2
    requires b == 2 ==> |A.p| > 0
    ensures ret == (if b == 0 then ERR_DIVISION_BY_ZERO else if b < 0 then ERR_NEGATIVE_VALUE else OK)
    ensures b == 1 ==> r == 0
    ensures b == 2 ==> r == A.p[0] % 2
    ensures b > 2 ==> r == SignedResidue(A.s, Fold(A.p, 0, b), b)
  {
    r := 0;
    if b == 0 {
      return ERR_DIVISION_BY_ZERO, 0;
    }
    if b < 0 {
      return ERR_NEGATIVE_VALUE, 0;
    }
    if b == 1 {
      return OK, 0;
    }
    if b == 2 {
      return OK, A.p[0] % 2;
    }
    var i, y: Limb := |A.p|, 0;
    while i > 0
      invariant 0 <= i <= |A.p|
      invariant y == Fold(A.p, i, b)
    {
      var x := A.p[i - 1];
      y := Take(y, x / HALF, b);
      y := Take(y, x % HALF, b);
      i := i - 1;
    }
    if A.s < 0 && y != 0 {
      return OK, b - y;
    }
    return OK, y;
  }

  /** Shift in half a limb, divide, keep the remainder. */
  method Take(y: Limb, h: Limb, b: Limb) returns (r: Limb)
    requires 0 < b && h < HALF
    ensures r == HalfStep(y, h, b)
  {
    var w: Limb := y * HALF % BASE + h;
    var z := w / b;
    DivBounds(w, b);
    MulComm(z, b);
    r := w - z * b;
  }

  /** Adding a multiple of b does not change the residue. */
  lemma ModShift(x: int, k: int, b: int)
    requires b > 0
    ensures (x + k * b) % b == x % b
  {
    DivBounds(x, b);
    MulComm(k, b);
    DistSum(b, x / b, k);
    DivUnique(x + k * b, b, x / b + k, x % b);
  }

  /** The moduli for which nothing of importance is shifted out of 32 bits. */
  predicate Safe(b: int)
    requires b > 0
  {
    b <= HALF || BASE % b == 0
  }

  /** Half a limb further up, the multiple of b is one still. */
  lemma HalfUp(v: int, b: int, q: int, y: int)
    requires b > 0 && q == v / b && y == v % b
    ensures v * HALF == y * HALF + (q * HALF) * b
  {
    DivBounds(v, b);
    MulComm(b, q);
    MulSwap(HALF, q, b);
    MulComm(HALF, q);
    MulComm(q * HALF, b);
    MulSwap(b, q, HALF);
  }

  lemma WholeBase(c: int, m: int, b: int)
    requires b > 0 && BASE % b == 0 && m == BASE / b
    ensures c * BASE == (c * m) * b
  {
    DivBounds(BASE, b);
    MulComm(c * m, b);
    MulSwap(b, c, m);
  }

  lemma HalfStepExact(y: Limb, v: int, h: Limb, b: Limb)
    requires 0 < b && h < HALF && Safe(b) && y == v % b
    ensures HalfStep(y, h, b) == (v * HALF + h) % b
  {
    var q := v / b;
    HalfUp(v, b, q, y);
    ModShift(y * HALF + h, q * HALF, b);
    if b > HALF {
      var c, w, m := y * HALF / BASE, y * HALF % BASE, BASE / b;
      DivBounds(y * HALF, BASE);
      WholeBase(c, m, b);
      ModShift(w + h, c * m, b);
    } else {
      DivBounds(v, b);
    }
  }

  lemma LimbStepExact(f: Limb, v: int, x: Limb, b: Limb)
    requires 0 < b && Safe(b) && f == v % b
    ensures HalfStep(HalfStep(f, x / HALF, b), x % HALF, b) == (x + BASE * v) % b
  {
    hide HalfStep, Safe;
    HalfStepExact(f, v, x / HALF, b);
    HalfStepExact(HalfStep(f, x / HALF, b), v * HALF + x / HALF, x % HALF, b);
    assert (v * HALF + x / HALF) * HALF + x % HALF == x + BASE * v;
  }

  lemma {:induction false} FoldExact(p: seq<Limb>, i: nat, b: Limb)
    requires 0 < b && i <= |p| && Safe(b)
    ensures Fold(p, i, b) == Value(p[i..]) % b
    decreases |p| - i
  {
    hide HalfStep, Safe, Val, Value, Shl;
    if i == |p| {
      assert p[i..] == [];
      ValEmpty();
      DivUnique(0, b, 0, 0);
    } else {
      FoldExact(p, i + 1, b);
      var f, v, x := Fold(p, i + 1, b), Value(p[i + 1..]), p[i];
      assert Fold(p, i, b) == HalfStep(HalfStep(f, x / HALF, b), x % HALF, b);
      hide *;
      LimbStepExact(f, v, x, b);
      assert p[i..] == [x] + p[i + 1..];
      ValCons(x, p[i + 1..]);
    }
  }

  lemma ResidueOfNegative(v: int, b: int)
    requires b > 0 && v >= 0
    ensures (-v) % b == if v % b == 0 then 0 else b - v % b
  {
    DivBounds(v, b);
    var q, r := v / b, v % b;
    assert b * (-q) == -(b * q) && b * (-q - 1) == -(b * q) - b;
    if r == 0 {
      DivUnique(-v, b, -q, 0);
    } else {
      DivUnique(-v, b, -q - 1, b - r);
    }
  }

  /** 2^32 as two limbs: its only bit is lost between the two half-limb steps of a large modulus. */
  lemma LostBit(b: Limb)
    requires HALF < b && BASE % b != 0
    ensures Fold([0, 1], 0, b) != Value([0, 1]) % b
  {
    hide HalfStep;
    var p: seq<Limb> := [0, 1];
    LostSteps(b);
    assert Fold(p, 2, b) == 0;
    assert Fold(p, 1, b) == 1;
    assert Fold(p, 0, b) == 0;
    TwoLimbs(p);
  }

  lemma LostSteps(b: Limb)
    requires HALF < b
    ensures HalfStep(0, 0, b) == 0 && HalfStep(0, 1, b) == 1
    ensures HalfStep(1, 0, b) == HALF && HalfStep(HALF, 0, b) == 0
  {
    DivUnique(0, b, 0, 0);
    DivUnique(1, b, 0, 1);
    DivUnique(HALF, b, 0, HALF);
  }

  lemma TwoLimbs(p: seq<Limb>)
    requires |p| == 2
    ensures Value(p) == p[0] + BASE * p[1]
  {
    OneLimb(p);
    assert Shl(p[1], 1) == BASE * Shl(p[1], 0);
  }

  /** For which moduli the half-limb division gives the residue of every number. */
  lemma ModIntExactlyWhen(b: Limb)
    requires b > 2
    ensures Safe(b) <==> forall p: seq<Limb> :: Fold(p, 0, b) == Value(p) % b
  {
    if Safe(b) {
      forall p: seq<Limb>
        ensures Fold(p, 0, b) == Value(p) % b
      {
        FoldExact(p, 0, b);
        assert p[0..] == p;
      }
    } else {
      LostBit(b);
    }
  }

  /** Consequently the returned residue is the signed one for every number and every safe modulus. */
  lemma ModIntCorrect(s: int, p: seq<Limb>, b: Limb)
    requires 2 < b && Safe(b)
    ensures SignedResidue(s, Fold(p, 0, b), b) == (if s < 0 then -Value(p) else Value(p)) % b
  {
    FoldExact(p, 0, b);
    assert p[0..] == p;
    ResidueOfNegative(Value(p), b);
  }
}
