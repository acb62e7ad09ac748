/** Montgomery arithmetic: the constant, the multiplication and the reduction. */
module BignumMont {
  import opened Limbs
  import opened Bits
  import opened Bignum
  import opened BignumShift
  import opened Congruence

  // ---------- the constant -N^-1 mod 2^32 ----------

  /** The wrapped product is the exact one up to multiples of 2^32. */
  lemma NewtonWraps(m0: Limb, x: Limb)
    ensures Cong(Mul32(x, Sub32(2, Mul32(m0, x))), x * (2 - m0 * x), BASE)
  {
    var t := m0 * x;
    ModIsCong(t, BASE);
    CongNeg(t % BASE, t, BASE);
    CongRefl(2, BASE);
    CongAdd(2, 2, -(t % BASE), -t, BASE);
    ModIsCong(2 - t % BASE, BASE);
    var u := Sub32(2, Mul32(m0, x));
    CongTrans(u, 2 - t % BASE, 2 - t, BASE);
    CongScale(u, 2 - t, x, BASE);
    ModIsCong(x * u, BASE);
    CongTrans(Mul32(x, u), x * u, x * (2 - t), BASE);
  }

  lemma Square(m0: int, x: int, t: int, e: int, M: int)
    requires t == m0 * x && t == M * e + 1
    ensures m0 * (x * (2 - t)) == 1 - (M * M) * (e * e)
  {
    assert m0 * (x * (2 - t)) == t * (2 - t);
    assert t * (2 - t) == 1 - (M * e) * (M * e);
    assert (M * e) * (M * e) == (M * M) * (e * e);
  }

  /** With m0 x = 1 + e M, the next value gives (1 + e M) (1 - e M) = 1 - e^2 M^2. */
  lemma NewtonExact(m0: int, x: int, v: int, M: int, c: int)
    requires M > 1 && c * (M * M) == BASE && m0 * x % M == 1
    requires Cong(v, x * (2 - m0 * x), BASE)
    ensures m0 * v % (M * M) == 1
  {
    var t := m0 * x;
    DivBounds(t, M);
    var e := t / M;
    CongScale(v, x * (2 - t), m0, BASE);
    var k := CongWitness(m0 * v, m0 * (x * (2 - t)), BASE);
    Square(m0, x, t, e, M);
    MulSwap(k, c, M * M);
    hide *;
    Collect(M * M, k, c, e * e);
    DivUnique(m0 * v, M * M, k * c - e * e, 1);
  }

  lemma Collect(m: int, k: int, c: int, s: int)
    ensures m * (k * c - s) == c * (k * m) - m * s
    ensures k * (c * m) == c * (k * m)
  {
    assert m * (k * c - s) == m * (k * c) - m * s;
    assert m * (k * c) == c * (k * m);
    assert k * (c * m) == c * (k * m);
  }

  /** Newton's step doubles the number of correct low bits. */
  lemma Newton(m0: Limb, x: Limb, M: int)
    requires M == 16 || M == 256 || M == 65536
    requires m0 * x % M == 1
    ensures m0 * Mul32(x, Sub32(2, Mul32(m0, x))) % (M * M) == 1
  {
    NewtonWraps(m0, x);
    NewtonExact(m0, x, Mul32(x, Sub32(2, Mul32(m0, x))), M, BASE / (M * M));
  }

  lemma ProductMod(x: int, y: int, m: int)
    requires m > 0
    ensures x * y % m == (x % m) * (y % m) % m
  {
    ModIsCong(x, m);
    ModIsCong(y, m);
    CongMul(x, x % m, y, y % m, m);
    CongIsMod(x * y, (x % m) * (y % m), m);
  }

  /** The starting value of the iteration. */
  function Start(m0: Limb): Limb {
    Add32(m0, 2 * (Add32(m0, 2) / 4 % 2 * 4))
  }

  lemma OddNibble(m0: int)
    requires m0 % 2 == 1
    ensures m0 % 16 % 2 == 1
  {
    var q, r := m0 / 16, m0 % 16;
    DivBounds(m0, 16);
    if r % 2 == 0 {
      DivUnique(m0, 2, 8 * q + r / 2, 0);
    }
  }

  /** The starting value is right on four bits. */
  lemma FourBits(m0: Limb)
    requires m0 % 2 == 1
    ensures m0 * Start(m0) % 16 == 1
  {
    hide *;
    OddNibble(m0);
    ProductMod(m0, Start(m0), 16);
    StartMod(m0);
    SmallInverse(m0 % 16, Start(m0) % 16);
  }

  lemma SmallInverse(r: int, s: int)
    requires 0 <= r < 16 && r % 2 == 1
    requires s == if r == 1 || r == 7 || r == 9 || r == 15 then r else (r + 8) % 16
    ensures r * s % 16 == 1
  {
    if r == 1 || r == 7 || r == 9 || r == 15 {
      assert r * s == if r == 1 then 1 else if r == 7 then 49 else if r == 9 then 81 else 225;
    } else if r < 8 {
      assert r == 3 || r == 5;
      assert r * s == if r == 3 then 33 else 65;
    } else {
      assert r == 11 || r == 13;
      assert r * s == if r == 11 then 33 else 65;
    }
  }

  lemma CorrectionBit(m0: Limb, h: int, r: int)
    requires m0 == 8 * h + r && (r == 1 || r == 3 || r == 5 || r == 7)
    ensures Add32(m0, 2) / 4 % 2 == if r == 3 || r == 5 then 1 else 0
  {
    if m0 == BASE - 1 {
      DivUnique(m0 + 2, BASE, 1, 1);
      assert r == 7;
    } else {
      DivUnique(m0 + 2, BASE, 0, m0 + 2);
      var c := if r == 1 then 0 else if r == 7 then 2 else 1;
      DivUnique(m0 + 2, 4, 2 * h + c, r + 2 - 4 * c);
      DivUnique(2 * h + c, 2, if c == 2 then h + 1 else h, if c == 1 then 1 else 0);
    }
  }

  lemma StartMod(m0: Limb)
    requires m0 % 2 == 1
    ensures var r := m0 % 16;
            Start(m0) % 16 == if r == 1 || r == 7 || r == 9 || r == 15 then r else (r + 8) % 16
  {
    var q, r := m0 / 16, m0 % 16;
    assert r % 2 == 1;
    var up := if r >= 8 then 1 else 0;
    CorrectionBit(m0, 2 * q + up, r - 8 * up);
    var w := if r % 8 == 3 || r % 8 == 5 then 1 else 0;
    assert Start(m0) == Add32(m0, 8 * w);
    WrapKeepsLow(m0, q, r, w);
  }

  lemma WrapKeepsLow(m0: Limb, q: int, r: int, w: int)
    requires m0 == 16 * q + r && 0 <= r < 16 && 0 <= w <= 1
    ensures Add32(m0, 8 * w) % 16 == if r + 8 * w >= 16 then r + 8 * w - 16 else r + 8 * w
  {
    var x := m0 + 8 * w;
    var carry := if x >= BASE then 1 else 0;
    DivUnique(x, BASE, carry, x - BASE * carry);
    var over := if r + 8 * w >= 16 then 1 else 0;
    DivUnique(x - BASE * carry, 16, q + over - 0x1000_0000 * carry, r + 8 * w - 16 * over);
  }

  /** The number -1 / N mod 2^32 that Montgomery multiplication needs. */
  method MontgInit(N: Mpi) returns (mm: Limb)
    requires |N.p| > 0 && N.p[0] % 2 == 1
    ensures (N.p[0] * mm + 1) % BASE == 0
  {
    var m0 := N.p[0];
    var x: Limb := Start(m0);
    FourBits(m0);
    var i := 32;
    ghost var M := 16;
    while i >= 8
      invariant (i == 32 && M == 16) || (i == 16 && M == 256) || (i == 8 && M == 65536) || (i == 4 && M == BASE)
      invariant m0 * x % M == 1
    {
      Newton(m0, x, M);
      x := Mul32(x, Sub32(2, Mul32(m0, x)));
      i := i / 2;
      M := M * M;
    }
    mm := Add32(BASE - 1 - x, 1);
    NegInverse(m0, x, mm);
  }

  lemma NegInverse(m0: Limb, x: Limb, mm: Limb)
    requires m0 * x % BASE == 1 && mm == Add32(BASE - 1 - x, 1)
    ensures (m0 * mm + 1) % BASE == 0
  {
    ModIsCong(BASE - x, BASE);
    CongScale(mm, BASE - x, m0, BASE);
    ModIsCong(m0 * x, BASE);
    var k := CongWitness(m0 * mm, m0 * (BASE - x), BASE);
    var l := CongWitness(m0 * x, 1, BASE);
    assert m0 * (BASE - x) == BASE * m0 - m0 * x;
    DivUnique(m0 * mm + 1, BASE, k + m0 - l, 0);
  }

  // ---------- the multiplication ----------

  lemma NegInverseCong(n0: Limb, mm: Limb)
    requires (n0 * mm + 1) % BASE == 0
    ensures Cong(mm * n0, -1, BASE)
  {
    DivBounds(n0 * mm + 1, BASE);
    var q := (n0 * mm + 1) / BASE;
    MulComm(n0, mm);
    CongIntro(mm * n0, -1, q, BASE);
  }

  /** The multiple of N chosen for a row clears the row's lowest limb. */
  lemma RowClears(d0: Limb, u0: Limb, b0: Limb, n0: Limb, mm: Limb)
    requires (n0 * mm + 1) % BASE == 0
    ensures Cong(d0 + u0 * b0 + Mul32(Add32(d0, Mul32(u0, b0)), mm) * n0, 0, BASE)
  {
    var s := d0 + u0 * b0;
    var s' := Add32(d0, Mul32(u0, b0));
    var u1 := Mul32(s', mm);
    ModIsCong(u0 * b0, BASE);
    CongRefl(d0, BASE);
    CongAdd(d0, d0, Mul32(u0, b0), u0 * b0, BASE);
    ModIsCong(d0 + Mul32(u0, b0), BASE);
    CongTrans(s', d0 + Mul32(u0, b0), s, BASE);
    ModIsCong(s' * mm, BASE);
    CongScale(s', s, mm, BASE);
    CongTrans(u1, s' * mm, s * mm, BASE);
    CongScale(u1, s * mm, n0, BASE);
    NegInverseCong(n0, mm);
    CongScale(mm * n0, -1, s, BASE);
    hide *;
    MulAssoc(s, mm, n0);
    CongTrans(u1 * n0, s * (mm * n0), s * -1, BASE);
    CongRefl(s, BASE);
    CongAdd(s, s, u1 * n0, s * -1, BASE);
    assert s + s * -1 == 0;
  }

  /** A value and its lowest limb. */
  lemma LowLimb(p: seq<Limb>, m: nat)
    requires 0 < m <= |p|
    ensures Cong(Val(p, m), p[0], BASE)
  {
    ValSplitAt(p, 1, m);
    OneLimb(p);
    var v := Val(p[1..], m - 1);
    assert Shl(v, 1) == BASE * Shl(v, 0);
    CongIntro(Val(p, m), p[0], v, BASE);
  }

  /** The row's total is a multiple of the base. */
  lemma RowTotal(d: seq<Limb>, u0: Limb, b: seq<Limb>, m: nat, n: seq<Limb>, mm: Limb)
    requires |d| > 0 && 0 < m <= |b| && |n| > 0
    requires (n[0] * mm + 1) % BASE == 0
    ensures var u1 := Mul32(Add32(d[0], Mul32(u0, b[0])), mm);
            Cong(Value(d) + Val(b, m) * u0 + Value(n) * u1, 0, BASE)
  {
    hide Val, Mul32, Add32, Cong;
    var u1 := Mul32(Add32(d[0], Mul32(u0, b[0])), mm);
    LowLimb(d, |d|);
    LowLimb(b, m);
    LowLimb(n, |n|);
    CongScale(Val(b, m), b[0], u0, BASE);
    CongScale(Value(n), n[0], u1, BASE);
    CongAdd(Value(d), d[0], Val(b, m) * u0, u0 * b[0], BASE);
    CongAdd(Value(d) + Val(b, m) * u0, d[0] + u0 * b[0], Value(n) * u1, (u1 as int) * n[0], BASE);
    RowClears(d[0], u0, b[0], n[0], mm);
    CongTrans(Value(d) + Val(b, m) * u0 + Value(n) * u1, d[0] + u0 * b[0] + (u1 as int) * n[0], 0, BASE);
  }

  /** What a buffer gains at limb i is gained by its window from i upward. */
  lemma WindowGain(p: seq<Limb>, q: seq<Limb>, i: nat, x: int)
    requires i <= |p| == |q| && p[..i] == q[..i]
    requires Value(q) == Value(p) + Shl(x, i)
    ensures Value(q[i..]) == Value(p[i..]) + x
  {
    ValSplit(p, i);
    ValSplit(q, i);
    forall k | 0 <= k < i
      ensures p[k] == q[k]
    {
      assert p[..i][k] == q[..i][k];
    }
    ValEq(p, q, i);
    var v, w := Value(p[i..]) + x, Value(q[i..]);
    ShlSum(Value(p[i..]), x, i);
    if v < w {
      ShlStrict(v, w, i);
    }
    if w < v {
      ShlStrict(w, v, i);
    }
  }

  /** A window of r limbs plus what lies below it stays inside the buffer. */
  lemma WindowRoom(p: seq<Limb>, i: nat, x: int, r: nat)
    requires i + r <= |p| && Value(p[i..]) + x < Pow(r)
    ensures Value(p) + Shl(x, i) < Pow(|p|)
  {
    hide Val, Shl, Pow, Value;
    ValSplit(p, i);
    ValBound(p, i);
    ShlSum(Value(p[i..]), x, i);
    ShlMono(Value(p[i..]) + x + 1, Pow(r), i);
    ShlSum(Value(p[i..]) + x, 1, i);
    ShlUnit(i);
    ShlPow(r, i);
    PowMono(r + i, |p|);
  }

  /** Bounds on the row totals: never past two limbs above N's length. */
  lemma RowBound(d: int, b: int, n: int, u0: Limb, u1: Limb, k: nat)
    requires 0 <= d < b + n && 0 <= b < Pow(k) && 0 <= n < Pow(k)
    ensures 0 <= b * u0 && 0 <= n * u1
    ensures d + b * u0 + n * u1 < BASE * (b + n) <= Pow(k + 2)
    ensures b + n <= Pow(k + 1)
  {
    MulComm(b, u0);
    MulComm(n, u1);
    MulMono(u0, BASE - 1, b);
    MulMono(u1, BASE - 1, n);
    MulMono(0, u0, b);
    MulMono(0, u1, n);
  }

  /** One row: add u0 * B, add the multiple of N that clears the lowest limb, drop that limb. */
  method MontRow(T: Mpi, b: seq<Limb>, m: nat, n: seq<Limb>, i: nat, u0: Limb, mm: Limb) returns (ghost u1: Limb)
    requires |n| > 0 && 0 < m <= |b| && m <= |n| && i < |n| && |T.p| >= 2 * |n| + 2
    requires (n[0] * mm + 1) % BASE == 0
    requires Value(T.p[i..]) < Val(b, m) + Value(n)
    modifies T`p
    ensures |T.p| == old(|T.p|) && T.p[..i + 1] == old(T.p[..i]) + [u0]
    ensures BASE * Value(T.p[i + 1..]) == old(Value(T.p[i..])) + Val(b, m) * u0 + Value(n) * u1
    ensures Value(T.p[i + 1..]) < Val(b, m) + Value(n)
  {
    hide Val, Pow, Shl, Value, Mul32, Add32;
    ghost var p0 := T.p;
    ghost var d := p0[i..];
    var v := Mul32(Add32(T.p[i], Mul32(u0, b[0])), mm);
    u1 := v;
    ValueBounds(b, m, n);
    RowTotal(d, u0, b, m, n, mm);
    RowBound(Value(d), Val(b, m), Value(n), u0, u1, |n|);
    WindowRoom(p0, i, Val(b, m) * u0, |n| + 2);
    T.MulHlp(m, b, i, u0);
    WindowGain(p0, T.p, i, Val(b, m) * u0);
    ghost var p1 := T.p;
    WindowRoom(p1, i, Value(n) * u1, |n| + 2);
    FullValue(n);
    T.MulHlp(|n|, n, i, v);
    WindowGain(p1, T.p, i, Value(n) * u1);
    ghost var p2 := T.p;
    assert p2[..i] == p0[..i];
    DropLimb(p2, i, Val(b, m) + Value(n), |n|);
    T.p := T.p[i := u0];
    T.p := T.p[i + |n| + 2 := 0];
    assert T.p[i + 1..] == p2[i + 1..];
  }

  lemma FullValue(n: seq<Limb>)
    ensures Value(n) == Val(n, |n|)
  {
  }

  lemma ValueBounds(b: seq<Limb>, m: nat, n: seq<Limb>)
    requires m <= |b| && m <= |n|
    ensures 0 <= Val(b, m) < Pow(|n|) && 0 <= Value(n) < Pow(|n|)
  {
    ValBound(b, m);
    ValBound(n, |n|);
    PowMono(m, |n|);
  }

  /** The cleared lowest limb is zero, and so is everything above the window's reach. */
  lemma DropLimb(p: seq<Limb>, i: nat, bound: int, k: nat)
    requires i + k + 2 < |p| && Cong(Value(p[i..]), 0, BASE)
    requires Value(p[i..]) < BASE * bound && bound <= Pow(k + 1)
    ensures Value(p[i..]) == BASE * Value(p[i + 1..])
    ensures Value(p[i + 1..]) < bound
    ensures p[i + k + 2] == 0
  {
    assert p[i..] == [p[i]] + p[i + 1..];
    ValCons(p[i], p[i + 1..]);
    var c := CongWitness(Value(p[i..]), 0, BASE);
    HighZero(p[i + 1..], k + 1);
    assert p[i + 1..][k + 1] == p[i + k + 2];
  }

  /** The balance of one row, carried up to its weight. */
  lemma RowBalance(a: seq<Limb>, i: nat, bv: int, nv: int, d: int, d': int, u1: int)
    requires i < |a| && Cong(Shl(d, i), Val(a, i) * bv, nv)
    requires BASE * d' == d + bv * a[i] + nv * u1
    ensures Cong(Shl(d', i + 1), Val(a, i + 1) * bv, nv)
  {
    hide Shl, Cong;
    ShlCarry(d', i);
    ShlSum(d + bv * a[i], nv * u1, i);
    ShlSum(d, bv * a[i], i);
    ShlTimes(bv, a[i], i);
    ShlTimes(nv, u1, i);
    var x, y := Shl(d, i) + bv * Shl(a[i], i), Val(a, i) * bv + bv * Shl(a[i], i);
    CongRefl(bv * Shl(a[i], i), nv);
    CongAdd(Shl(d, i), Val(a, i) * bv, bv * Shl(a[i], i), bv * Shl(a[i], i), nv);
    MulComm(nv, Shl(u1, i));
    CongIntro(x + nv * Shl(u1, i), x, Shl(u1, i), nv);
    CongTrans(x + nv * Shl(u1, i), x, y, nv);
    assert Val(a, i + 1) * bv == y by { DistSum(bv, Val(a, i), Shl(a[i], i)); }
  }

  /** The window and the balance after all rows of a product. */
  method MontRows(T: Mpi, a: seq<Limb>, b: seq<Limb>, m: nat, n: seq<Limb>, mm: Limb)
    requires 0 < |n| <= |a| && 0 < m <= |b| && m <= |n| && |T.p| >= 2 * |n| + 2
    requires (n[0] * mm + 1) % BASE == 0 && Value(n) > 0
    modifies T
    ensures |T.p| == old(|T.p|) && T.p[..|n|] == a[..|n|]
    ensures 0 <= Value(T.p[|n|..]) < Val(b, m) + Value(n)
    ensures Cong(Shl(Value(T.p[|n|..]), |n|), Val(a, |n|) * Val(b, m), Value(n))
  {
    hide Pow, Cong;
    T.p := Zeros(|T.p|);
    var i := 0;
    assert T.p[0..] == T.p;
    ValZeros(|T.p|);
    ValBound(b, m);
    CongRefl(0, Value(n));
    assert Val(a, 0) * Val(b, m) == 0;
    while i < |n|
      invariant 0 <= i <= |n| && |T.p| == old(|T.p|) && T.p[..i] == a[..i]
      invariant Value(T.p[i..]) < Val(b, m) + Value(n)
      invariant Cong(Shl(Value(T.p[i..]), i), Val(a, i) * Val(b, m), Value(n))
    {
      ghost var d := Value(T.p[i..]);
      ghost var u1 := MontRow(T, b, m, n, i, a[i], mm);
      RowBalance(a, i, Val(b, m), Value(n), d, Value(T.p[i + 1..]), u1);
      i := i + 1;
    }
  }

  /** The operand as far as the multiplication reads it. */
  lemma ReadAll(b: seq<Limb>, n: seq<Limb>) returns (m: nat)
    requires |b| > 0 && |n| > 0 && Value(b) <= Value(n)
    ensures m == (if |b| < |n| then |b| else |n|) && Val(b, m) == Value(b)
  {
    m := if |b| < |n| then |b| else |n|;
    ValBound(n, |n|);
    if m < |b| {
      HighZero(b, m);
    }
  }

  /** A residue below twice the modulus sits in n + 1 limbs of the window. */
  lemma TakeWindow(t: seq<Limb>, k: nat, a: seq<Limb>, bound: int) returns (r: seq<Limb>)
    requires |t| >= 2 * k + 2 && |a| >= k + 1 && Value(a) < Pow(k)
    requires Value(t[k..]) < bound <= Pow(k + 1)
    ensures r == t[k..2 * k + 1] + a[k + 1..] && |r| == |a| && Value(r) == Value(t[k..])
  {
    hide Pow, Shl;
    r := t[k..2 * k + 1] + a[k + 1..];
    HighZero(a, k);
    HighZero(t[k..], k + 1);
    forall j | k + 1 <= j < |r|
      ensures r[j] == 0
    {
      assert r[j] == a[j];
    }
    ValTop(r, k + 1, |r|);
    ValEq(r, t[k..], k + 1);
  }

  /** Twice a modulus of k limbs is below the weight of limb k + 1. */
  lemma TwiceFits(b: int, n: seq<Limb>)
    requires b <= Value(n)
    ensures b + Value(n) <= Pow(|n| + 1) && Value(n) < Pow(|n|)
  {
    ValBound(n, |n|);
  }

  /** Taking the modulus off keeps the balance. */
  lemma TakeOff(d: int, k: nat, x: int, n: int)
    requires Cong(Shl(d, k), x, n)
    ensures Cong(Shl(d - n, k), x, n)
  {
    ShlSum(d - n, n, k);
    ShlTimes(n, 1, k);
    var w := Shl(1, k);
    assert n * w == w * n;
    CongIntro(Shl(d, k), Shl(d - n, k), w, n);
    CongSym(Shl(d, k), Shl(d - n, k), n);
    CongTrans(Shl(d - n, k), Shl(d, k), x, n);
  }

  /** The scratch buffer can always pay for the dummy subtraction. */
  lemma DummyCovered(t: seq<Limb>, k: nat, a: seq<Limb>)
    requires k <= |t| && k <= |a| && Value(a) == Value(t[k..])
    ensures Val(a, k) <= Value(t)
  {
    ValSplit(t, k);
    ValBound(t, k);
    ValMono(a, k, |a|);
    ShlGrows(Value(a), k);
  }

  lemma {:induction false} ShlGrows(x: int, k: nat)
    requires 0 <= x
    ensures x <= Shl(x, k)
  {
    if k > 0 {
      ShlGrows(x, k - 1);
    }
  }

  /**
   * A := A * B / R mod N with R = 2^(32 n), for odd N and B at most N.
   * A and B may be the same number; T is scratch.
   */
  method MontMul(A: Mpi, B: Mpi, N: Mpi, mm: Limb, T: Mpi) returns (ret: int)
    requires T != A && T != B && T != N && A != N
    requires |N.p| > 0 && (N.p[0] * mm + 1) % BASE == 0
    requires |A.p| > |N.p| && A.Abs() < Pow(|N.p|)
    requires |B.p| > 0 && 0 < N.Abs() && B.Abs() <= N.Abs()
    requires |T.p| >= 2 * |N.p| + 2 || |T.p| <= |N.p|
    modifies A`p, T
    ensures ret == (if old(|T.p|) < |N.p| + 1 then ERR_BAD_INPUT_DATA else OK)
    ensures |A.p| == old(|A.p|) && |T.p| == old(|T.p|)
    ensures ret == OK ==> A.Abs() < N.Abs()
    ensures ret == OK ==> Cong(Shl(A.Abs(), |N.p|), old(A.Abs()) * old(B.Abs()), N.Abs())
    ensures ret != OK ==> A.p == old(A.p)
  {
    hide Val, Pow, Shl, Cong;
    if |T.p| < |N.p| + 1 {
      return ERR_BAD_INPUT_DATA;
    }
    var n := |N.p|;
    var m := if |B.p| < n then |B.p| else n;
    ghost var m' := ReadAll(B.p, N.p);
    HighZero(A.p, n);
    ghost var x := A.Abs() * B.Abs();
    MontRows(T, A.p, B.p, m, N.p, mm);
    TwiceFits(B.Abs(), N.p);
    ghost var r := TakeWindow(T.p, n, A.p, B.Abs() + N.Abs());
    A.p := T.p[n..2 * n + 1] + A.p[n + 1..];
    var c := A.CmpAbs(N);
    FullValue(N.p);
    if c >= 0 {
      TakeOff(A.Abs(), n, x, N.Abs());
      A.SubHlp(n, N.p);
    } else {
      DummyCovered(T.p, n, A.p);
      T.SubHlp(n, A.p);
    }
    return OK;
  }

  /** A := A / R mod N. */
  method MontRed(A: Mpi, N: Mpi, mm: Limb, T: Mpi) returns (ret: int)
    requires T != A && T != N && A != N
    requires |N.p| > 0 && (N.p[0] * mm + 1) % BASE == 0 && 0 < N.Abs()
    requires |A.p| > |N.p| && A.Abs() < Pow(|N.p|)
    requires |T.p| >= 2 * |N.p| + 2 || |T.p| <= |N.p|
    modifies A`p, T
    ensures ret == (if old(|T.p|) < |N.p| + 1 then ERR_BAD_INPUT_DATA else OK)
    ensures |A.p| == old(|A.p|) && |T.p| == old(|T.p|)
    ensures ret == OK ==> A.Abs() < N.Abs()
    ensures ret == OK ==> Cong(Shl(A.Abs(), |N.p|), old(A.Abs()), N.Abs())
  {
    var U := new Mpi.FromLimb(1);
    ret := MontMul(A, U, N, mm, T);
  }
}
