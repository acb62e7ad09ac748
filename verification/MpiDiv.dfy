/** Multi-limb division with a guessed and corrected quotient digit, and reduction modulo. */
module BignumDiv {
  import opened Limbs
  import opened Bits
  import opened Bignum
  import opened BignumShift
  import opened IntDiv

  // ---------- one quotient digit, on integers ----------

  /**
   * Dividend and divisor seen through their top digits: up to a common factor k,
   * x is n3 units of w plus less than one unit, and y is d2 units plus less than one.
   */
  ghost predicate Scaled(x: int, y: int, n3: int, d2: int, k: int, w: int, xl: int, yl: int) {
    && k > 0 && w > 0 && 0 <= xl < w && 0 <= yl < w
    && k * x == n3 * w + xl
    && k * y == d2 * w + yl
  }

  lemma Cancel(k: int, a: int, b: int)
    requires k > 0 && k * a < k * b
    ensures a < b
  {
    if a >= b {
      MulMono(b, a, k);
    }
  }

  /** A guess the three-by-two test rejects is above the quotient. */
  lemma RejectedIsTooBig(q: int, x: int, y: int, n3: int, d2: int, k: int, w: int, xl: int, yl: int)
    requires Scaled(x, y, n3, d2, k, w, xl, yl) && 0 <= q
    requires q * d2 > n3
    ensures x < q * y
  {
    MulMono(n3 + 1, q * d2, w);
    MulMono(0, q, yl);
    assert (n3 + 1) * w == n3 * w + w;
    ScaleProduct(q, y, d2, k, w, yl);
    Cancel(k, x, q * y);
  }

  lemma ScaleProduct(q: int, y: int, d2: int, k: int, w: int, yl: int)
    requires k * y == d2 * w + yl
    ensures k * (q * y) == (q * d2) * w + q * yl
  {
    MulSwap(k, q, y);
    DistSum(q, d2 * w, yl);
    assert q * (d2 * w) == (q * d2) * w;
  }

  /** A limb-sized guess the test accepts is at most one above the quotient. */
  lemma AcceptedIsClose(q: int, x: int, y: int, n3: int, d2: int, k: int, w: int, xl: int, yl: int)
    requires Scaled(x, y, n3, d2, k, w, xl, yl) && 0 <= q < BASE && BASE <= d2
    requires q * d2 <= n3
    ensures q * y < x + y
  {
    MulMono(q * d2, n3, w);
    MulMono(q, BASE - 1, yl);
    MulMono(BASE, d2, w);
    ScaleProduct(q, y, d2, k, w, yl);
    assert k * (x + y) == n3 * w + xl + d2 * w + yl by { DistSum(k, x, y); }
    Cancel(k, q * y, x + y);
  }

  /** The two-by-one guess is no less than the quotient. */
  lemma FirstGuessHigh(q: int, x: int, y: int, n3: int, d2: int, k: int, w: int, xl: int, yl: int, n2: int, y1: int)
    requires Scaled(x, y, n3, d2, k, w, xl, yl) && 0 <= q
    requires n2 < (q + 1) * y1 && n3 < (n2 + 1) * BASE && y1 * BASE <= d2
    ensures x < (q + 1) * y
  {
    MulMono(y1 * BASE, d2, q + 1);
    assert (q + 1) * (y1 * BASE) == ((q + 1) * y1) * BASE;
    assert (q + 1) * d2 >= (q + 1) * (y1 * BASE);
    RejectedIsTooBig(q + 1, x, y, n3, d2, k, w, xl, yl);
  }

  // ---------- top digits of limb sequences ----------

  function Digits3(x: seq<Limb>, i: nat): (int)
    requires 0 < i < |x|
  {
    ((x[i] * BASE) + x[i - 1]) * BASE + (if i < 2 then 0 else x[i - 2])
  }

  function Digits2(y: seq<Limb>, t: nat): int
    requires t < |y|
  {
    y[t] * BASE + (if t < 1 then 0 else y[t - 1])
  }

  lemma TopTwo(y: seq<Limb>, t: nat)
    requires 0 < t < |y|
    ensures Val(y, t + 1) == Shl(Digits2(y, t), t - 1) + Val(y, t - 1)
  {
    ShlCarry(y[t], t - 1);
    ShlSum(y[t] * BASE, y[t - 1], t - 1);
  }

  lemma TopThree(x: seq<Limb>, i: nat)
    requires 1 < i < |x|
    ensures Val(x, i + 1) == Shl(Digits3(x, i), i - 2) + Val(x, i - 2)
  {
    TopTwo(x, i);
    assert Val(x, i - 1) == Val(x, i - 2) + Shl(x[i - 2], i - 2);
    var d := Digits2(x, i);
    ShlCarry(d, i - 2);
    ShlSum(d * BASE, x[i - 2], i - 2);
  }

  /** The digits the code looks at describe both operands well enough. */
  lemma Describe(x: seq<Limb>, y: seq<Limb>, i: nat, t: nat) returns (k: int, w: int, xl: int, yl: int)
    requires t < i < |x| && t < |y|
    requires Value(x) < Pow(i + 1) && Value(y) == Val(y, t + 1)
    ensures Scaled(Value(x), Shl(Value(y), i - t - 1), Digits3(x, i), Digits2(y, t), k, w, xl, yl)
  {
    HighZero(x, i + 1);
    if i == 1 {
      k, w, xl, yl := BASE, 1, 0, 0;
      OneLimb(x);
      OneLimb(y);
      assert Val(x, 2) == x[0] + Shl(x[1], 1) == x[0] + BASE * x[1];
    } else {
      hide Shl, Pow, Digits2, Digits3;
      k, w, xl := 1, Pow(i - 2), Val(x, i - 2);
      TopThree(x, i);
      ValBound(x, i - 2);
      ShlIsProduct(Digits3(x, i), i - 2);
      ShlIsProduct(Digits2(y, t), i - 2);
      yl := LowPart(y, t, i);
    }
  }

  /** The divisor, moved into place, below its two top digits. */
  lemma LowPart(y: seq<Limb>, t: nat, i: nat) returns (yl: int)
    requires t < |y| && t < i && 1 < i
    ensures 0 <= yl < Pow(i - 2)
    ensures Shl(Val(y, t + 1), i - t - 1) == Shl(Digits2(y, t), i - 2) + yl
  {
    if t == 0 {
      yl := 0;
      OneLimb(y);
      ShlCarry(y[0], i - 2);
    } else {
      hide Shl, Pow, Digits2, Val;
      var j := i - t - 1;
      yl := Shl(Val(y, t - 1), j);
      TopTwo(y, t);
      ShlSum(Shl(Digits2(y, t), t - 1), Val(y, t - 1), j);
      ShlShl(Digits2(y, t), t - 1, j);
      ValBound(y, t - 1);
      ShlNonneg(Val(y, t - 1), j);
      ShlStrict(Val(y, t - 1), Pow(t - 1), j);
      ShlPow(t - 1, j);
    }
  }

  // ---------- the temporaries of the three-by-two test ----------

  lemma FewLimbs(p: seq<Limb>)
    requires |p| >= 3 || |p| == 2
    requires forall k :: 3 <= k < |p| ==> p[k] == 0
    ensures Value(p) == p[0] + BASE * p[1] + (if |p| == 2 then 0 else BASE * BASE * p[2])
  {
    ValTop(p, if |p| == 2 then 2 else 3, |p|);
    OneLimb(p);
    assert Shl(p[1], 1) == BASE * Shl(p[1], 0);
    if |p| > 2 {
      assert Shl(p[2], 2) == BASE * Shl(p[2], 1) == BASE * (BASE * Shl(p[2], 0));
    }
  }

  /** T1 := q times the two top digits of the divisor. */
  method LoadT1(T1: Mpi, y0: Limb, y1: Limb, q: Limb)
    requires |T1.p| >= 2
    modifies T1
    ensures T1.Valid() && |T1.p| >= 2 && T1.Int() == q * (y1 * BASE + y0)
  {
    T1.Lset(0);
    T1.p := T1.p[0 := y0][1 := y1];
    FewLimbs(T1.p);
    assert T1.Int() == y1 * BASE + y0;
    T1.MulInt(T1, q);
  }

  /** T2 := the three top digits of the dividend. */
  method LoadT2(T2: Mpi, x0: Limb, x1: Limb, x2: Limb)
    requires |T2.p| >= 3
    modifies T2
    ensures T2.Valid() && |T2.p| >= 3 && T2.Int() == (x2 * BASE + x1) * BASE + x0
  {
    T2.Lset(0);
    T2.p := T2.p[0 := x0][1 := x1][2 := x2];
    FewLimbs(T2.p);
  }

  ghost predicate Apart(X: Mpi, Y: Mpi, Z: Mpi, T1: Mpi, T2: Mpi) {
    && X != Y && X != Z && X != T1 && X != T2
    && Y != Z && Y != T1 && Y != T2
    && Z != T1 && Z != T2 && T1 != T2
  }

  /** q is all ones or no less than the quotient of x2, x1 by y1. */
  ghost predicate Estimate(q: Limb, x2: Limb, x1: Limb, y1: Limb) {
    q == BASE - 1 || x2 * BASE + x1 < (q + 1) * y1
  }

  /** The two-by-one estimate, capped to a limb. */
  method FirstGuess(x2: Limb, x1: Limb, y1: Limb) returns (q: Limb)
    requires y1 > 0
    ensures Estimate(q, x2, x1, y1)
  {
    if x2 >= y1 {
      q := BASE - 1;
    } else {
      var r;
      q, r := IntDivDouble(x2, x1, y1);
      DistSum(y1, q, 1);
    }
  }

  /** Everything the quotient digit at position j needs to know about the operands. */
  ghost predicate Ready(x: seq<Limb>, y: seq<Limb>, i: nat, t: nat) {
    && t < i < |x| && t < |y| && y[t] != 0
    && Value(y) == Val(y, t + 1)
    && Value(x) < Shl(Value(y), i - t)
  }

  /** A dividend below the divisor's place i - t has no digit above i. */
  lemma ReadyRoom(x: seq<Limb>, y: seq<Limb>, i: nat, t: nat)
    requires Ready(x, y, i, t)
    ensures Value(x) < Pow(i + 1)
  {
    ValBound(y, t + 1);
    ShlMono(Value(y), Pow(t + 1), i - t);
    ShlPow(t + 1, i - t);
  }

  /** q is no less than the quotient of x by w. */
  ghost predicate NotLow(x: int, q: int, w: int) {
    x < (q + 1) * w
  }

  /** q is at most one above the quotient of x by w. */
  ghost predicate NotHigh(x: int, q: int, w: int) {
    q * w < x + w
  }

  /** The estimate is no less than the quotient digit. */
  lemma StartHigh(x: seq<Limb>, y: seq<Limb>, i: nat, t: nat, q: Limb)
    requires Ready(x, y, i, t)
    requires Estimate(q, x[i], x[i - 1], y[t])
    ensures NotLow(Value(x), q, Shl(Value(y), i - t - 1))
  {
    hide Val, Pow;
    if q == BASE - 1 {
      assert Shl(Value(y), i - t) == BASE * Shl(Value(y), i - t - 1);
    } else {
      ReadyRoom(x, y, i, t);
      var k, w, xl, yl := Describe(x, y, i, t);
      FirstGuessHigh(q, Value(x), Shl(Value(y), i - t - 1), Digits3(x, i), Digits2(y, t), k, w, xl, yl,
                     x[i] * BASE + x[i - 1], y[t]);
    }
  }

  /** The three-by-two test says the digit is too big. */
  ghost predicate Rejected(x: seq<Limb>, y: seq<Limb>, i: nat, t: nat, q: Limb)
    requires 0 < i < |x| && t < |y|
  {
    q * Digits2(y, t) > Digits3(x, i)
  }

  lemma NextLower(x: seq<Limb>, y: seq<Limb>, i: nat, t: nat, q: Limb)
    requires Ready(x, y, i, t) && Rejected(x, y, i, t, q)
    ensures q > 0 && NotLow(Value(x), q - 1, Shl(Value(y), i - t - 1))
  {
    hide Val, Pow, Shl;
    ReadyRoom(x, y, i, t);
    var k, w, xl, yl := Describe(x, y, i, t);
    RejectedIsTooBig(q, Value(x), Shl(Value(y), i - t - 1), Digits3(x, i), Digits2(y, t), k, w, xl, yl);
  }

  lemma Close(x: seq<Limb>, y: seq<Limb>, i: nat, t: nat, q: Limb)
    requires Ready(x, y, i, t) && !Rejected(x, y, i, t, q)
    ensures NotHigh(Value(x), q, Shl(Value(y), i - t - 1))
  {
    hide Val, Pow, Shl;
    ReadyRoom(x, y, i, t);
    var k, w, xl, yl := Describe(x, y, i, t);
    AcceptedIsClose(q, Value(x), Shl(Value(y), i - t - 1), Digits3(x, i), Digits2(y, t), k, w, xl, yl);
  }

  /** Chooses the quotient digit so that it is right or exactly one too big. */
  method GuessDigit(X: Mpi, Y: Mpi, Z: Mpi, T1: Mpi, T2: Mpi, i: nat, t: nat)
    requires Apart(X, Y, Z, T1, T2)
    requires Ready(X.p, Y.p, i, t) && i - t - 1 < |Z.p|
    requires |T1.p| >= 2 && |T2.p| >= 3
    modifies Z`p, T1, T2
    ensures |Z.p| == old(|Z.p|) && Z.p == old(Z.p)[i - t - 1 := Z.p[i - t - 1]]
    ensures |T1.p| >= 2 && |T2.p| >= 3
    ensures NotLow(X.Abs(), Z.p[i - t - 1], Shl(Y.Abs(), i - t - 1))
    ensures NotHigh(X.Abs(), Z.p[i - t - 1], Shl(Y.Abs(), i - t - 1))
  {
    hide Shl, Val, Pow, Value, NotLow, NotHigh, Estimate, Rejected, Add32, Sub32;
    var j := i - t - 1;
    ghost var w := Shl(Y.Abs(), j);
    var q: Limb := FirstGuess(X.p[i], X.p[i - 1], Y.p[t]);
    StartHigh(X.p, Y.p, i, t, q);
    Z.p := Z.p[j := q];
    Z.p := Z.p[j := Add32(Z.p[j], 1)];
    var again := true;
    while again
      invariant |Z.p| == old(|Z.p|) && Z.p == old(Z.p)[j := Z.p[j]]
      invariant |T1.p| >= 2 && |T2.p| >= 3
      invariant again ==> Z.p[j] == Add32(q, 1) && NotLow(X.Abs(), q, w)
      invariant !again ==> Z.p[j] == q && NotLow(X.Abs(), q, w) && NotHigh(X.Abs(), q, w)
      decreases again, q
    {
      UpDown(q);
      Z.p := Z.p[j := Sub32(Z.p[j], 1)];
      q := Z.p[j];
      again := TestDigit(X.p, Y.p, T1, T2, i, t, q);
      if again {
        NextLower(X.p, Y.p, i, t, q);
        q := q - 1;
        UpDown(q);
      } else {
        Close(X.p, Y.p, i, t, q);
      }
    }
  }

  lemma UpDown(q: Limb)
    ensures Sub32(Add32(q, 1), 1) == q && (q < BASE - 1 ==> Add32(q, 1) == q + 1)
  {
  }

  /** The three-by-two test, carried out on two multi-precision temporaries. */
  method TestDigit(x: seq<Limb>, y: seq<Limb>, T1: Mpi, T2: Mpi, i: nat, t: nat, q: Limb) returns (high: bool)
    requires 0 < i < |x| && t < |y| && T1 != T2
    requires |T1.p| >= 2 && |T2.p| >= 3
    modifies T1, T2
    ensures |T1.p| >= 2 && |T2.p| >= 3
    ensures high <==> Rejected(x, y, i, t, q)
  {
    LoadT1(T1, if t < 1 then 0 else y[t - 1], y[t], q);
    LoadT2(T2, if i < 2 then 0 else x[i - 2], x[i - 1], x[i]);
    var c := T1.CmpMpi(T2);
    high := c > 0;
  }

  /** T1 := q times the divisor, moved to place j. */
  method PlaceProduct(T1: Mpi, Y: Mpi, q: Limb, j: nat)
    requires T1 != Y && Y.Valid() && Y.s == 1
    requires |T1.p| >= 2
    modifies T1
    ensures T1.Valid() && |T1.p| >= 2 && T1.Int() == q * Shl(Y.Abs(), j)
  {
    T1.MulInt(Y, q);
    ghost var a := T1.Abs();
    ShlTwo(a, j);
    ShlTimes(q, Y.Abs(), j);
    ShiftL(T1, 32 * j);
  }

  /** One step of the division: guess a digit, subtract its product, add back once if that was too much. */
  method SubtractDigit(X: Mpi, Y: Mpi, Z: Mpi, T1: Mpi, T2: Mpi, i: nat, t: nat)
    requires Apart(X, Y, Z, T1, T2) && X.Valid() && Y.Valid() && Y.s == 1 && X.Int() == X.Abs()
    requires Ready(X.p, Y.p, i, t) && i - t - 1 < |Z.p|
    requires |T1.p| >= 2 && |T2.p| >= 3
    modifies X, Z`p, T1, T2
    ensures X.Valid() && X.Int() == X.Abs() && |X.p| >= old(|X.p|)
    ensures |T1.p| >= 2 && |T2.p| >= 3
    ensures |Z.p| == old(|Z.p|) && Z.p == old(Z.p)[i - t - 1 := Z.p[i - t - 1]]
    ensures old(X.Abs()) == X.Abs() + Z.p[i - t - 1] * Shl(Y.Abs(), i - t - 1)
    ensures X.Abs() < Shl(Y.Abs(), i - t - 1)
  {
    hide Shl, Val, Pow;
    var j := i - t - 1;
    ghost var x, w := X.Abs(), Shl(Y.Abs(), j);
    GuessDigit(X, Y, Z, T1, T2, i, t);
    ghost var q := Z.p[j];
    PlaceProduct(T1, Y, Z.p[j], j);
    DistSum(w, q, 1);
    OneLessDigit(q, w);
    X.SubMpi(X, T1);
    var high := AddBack(X, Y, T1, j);
    if high {
      Z.p := Z.p[j := Sub32(Z.p[j], 1)];
    }
  }

  /** The single add-back: a difference that went negative was less than one divisor short. */
  method AddBack(X: Mpi, Y: Mpi, T1: Mpi, j: nat) returns (high: bool)
    requires X != Y && X != T1 && Y != T1 && X.Valid() && Y.Valid() && Y.s == 1
    requires |X.p| > 0 && |Y.p| > 0 && |T1.p| >= 2
    requires -Shl(Y.Abs(), j) < X.Int() < Shl(Y.Abs(), j)
    modifies X, T1
    ensures X.Valid() && X.Int() == X.Abs() && |X.p| >= old(|X.p|) && |T1.p| >= 2
    ensures high <==> old(X.Int()) < 0
    ensures X.Int() == old(X.Int()) + (if high then Shl(Y.Abs(), j) else 0)
  {
    hide Shl, Val, Pow;
    var c := X.CmpInt(0);
    high := c < 0;
    if high {
      T1.Copy(Y);
      ShlTwo(Y.Abs(), j);
      ShiftL(T1, 32 * j);
      X.AddMpi(X, T1);
    }
    ValBound(X.p, |X.p|);
  }

  lemma OneLessDigit(q: int, w: int)
    ensures (q - 1) * w == q * w - w
    ensures q == 0 ==> q * w == 0
  {
  }

  /** Moved up to place n, the divisor reaches the weight of limb n. */
  lemma DivisorFloor(y: seq<Limb>, t: nat, n: nat)
    requires t < |y| && t <= n && y[t] != 0
    ensures 0 < Value(y) && Pow(n) <= Shl(Value(y), n - t)
  {
    ValFloor(y, t, |y|);
    ShlMono(Pow(t), Value(y), n - t);
    ShlPow(t, n - t);
  }

  /** The top quotient digit cannot outgrow a limb. */
  lemma TopDigitRoom(c: int, w: int, x: int, x0: int, n: nat)
    requires Pow(n) <= w <= x && 0 <= c && x0 == x + c * w && x0 < Pow(n + 1)
    ensures c + 1 < BASE && x0 == (x - w) + (c + 1) * w
  {
    assert (c + 1) * w == c * w + w;
    if c + 1 >= BASE {
      MulMono(BASE, c + 1, w);
    }
  }

  /** A quotient with a single digit, times the divisor. */
  lemma DigitAlone(z: seq<Limb>, j: nat, c: Limb, y: int)
    requires j < |z| && forall k :: 0 <= k < |z| ==> z[k] == 0
    ensures Value(z[j := c]) * y == c * Shl(y, j)
  {
    ValTop(z, 0, |z|);
    ValUpdate(z, j, c, |z|);
    ShlUnit(j);
    assert Value(z[j := c]) == Shl(c, j);
    hide *;
    ShlTimes(y, c, j);
    ShlTimes(c, y, j);
    MulComm(c, y);
    MulComm(Shl(c, j), y);
  }

  /** The top digit: the divisor is moved all the way up and subtracted while it fits. */
  method TopDigit(X: Mpi, Y: Mpi, Z: Mpi, n: nat, t: nat)
    requires X != Y && X != Z && Y != Z && X.Valid() && Y.Valid() && X.s == 1 && Y.s == 1
    requires t <= n < |X.p| == n + 1 && t < |Y.p| && Y.p[t] != 0 && n - t < |Z.p|
    requires forall k :: 0 <= k < |Z.p| ==> Z.p[k] == 0
    requires Y.Abs() < Pow(t + 1)
    modifies X, Y, Z`p
    ensures X.Valid() && Y.Valid() && Y.s == 1 && X.Int() == X.Abs() && |X.p| >= old(|X.p|)
    ensures Y.Abs() == old(Y.Abs()) && |Y.p| >= old(|Y.p|)
    ensures |Z.p| == old(|Z.p|) && forall k :: 0 <= k < n - t ==> Z.p[k] == 0
    ensures X.Abs() < Shl(Y.Abs(), n - t)
    ensures old(X.Abs()) == X.Abs() + Value(Z.p) * Y.Abs()
  {
    hide Shl, Val, Pow;
    ghost var y, j := Y.Abs(), n - t;
    ShlTwo(y, j);
    ValBound(Y.p, |Y.p|);
    ShiftL(Y, 32 * (n - t));
    DivisorFloor(old(Y.p), t, n);
    SubtractWhileFits(X, Y, Z, n, n - t);
    ShiftR(Y, 32 * (n - t));
    DivUnique(Shl(y, j), Two(32 * j), y, 0);
    DigitAlone(old(Z.p), j, Z.p[j], y);
  }

  method SubtractWhileFits(X: Mpi, Y: Mpi, Z: Mpi, n: nat, j: nat)
    requires X != Y && X != Z && Y != Z && X.Valid() && Y.Valid() && X.s == 1 && Y.s == 1
    requires |X.p| == n + 1 && |Y.p| > 0 && j < |Z.p| && Z.p[j] == 0
    requires Pow(n) <= Y.Abs()
    modifies X, Z`p
    ensures X.Valid() && X.Int() == X.Abs() && |X.p| >= n + 1
    ensures |Z.p| == old(|Z.p|) && Z.p == old(Z.p)[j := Z.p[j]]
    ensures old(X.Abs()) == X.Abs() + Z.p[j] * Y.Abs() && X.Abs() < Y.Abs()
  {
    hide Shl, Val, Pow;
    ghost var x0 := X.Abs();
    ValBound(X.p, |X.p|);
    var c := X.CmpMpi(Y);
    while c >= 0
      invariant X.Valid() && |X.p| >= n + 1 && Y.Int() == Y.Abs()
      invariant X.Int() == X.Abs() && 0 <= X.Abs() <= x0
      invariant |Z.p| == old(|Z.p|) && Z.p == old(Z.p)[j := Z.p[j]]
      invariant x0 == X.Abs() + Z.p[j] * Y.Abs()
      invariant c >= 0 <==> X.Abs() >= Y.Abs()
      decreases X.Abs()
    {
      TopDigitRoom(Z.p[j], Y.Abs(), X.Abs(), x0, n);
      Z.p := Z.p[j := Add32(Z.p[j], 1)];
      X.SubMpi(X, Y);
      ValBound(X.p, |X.p|);
      c := X.CmpMpi(Y);
    }
  }

  // ---------- the division ----------

  /** Adding a digit to the quotient and taking its product from the dividend balance. */
  lemma DigitAdded(z: seq<Limb>, j: nat, d: Limb, y: int)
    requires j < |z| && z[j] == 0
    ensures Value(z[j := d]) * y == Value(z) * y + d * Shl(y, j)
  {
    hide Val, Shl, Pow;
    ValUpdate(z, j, d, |z|);
    ShlUnit(j);
    ShlTimes(y, d, j);
    ShlTimes(d, y, j);
    MulComm(d, y);
    DistSum(y, Value(z), Shl(d, j));
    MulComm(Value(z), y);
    MulComm(Value(z[j := d]), y);
  }

  /** The remaining digits, from the highest down. */
  method LowerDigits(X: Mpi, Y: Mpi, Z: Mpi, T1: Mpi, T2: Mpi, n: nat, t: nat)
    requires Apart(X, Y, Z, T1, T2) && X.Valid() && Y.Valid() && Y.s == 1 && X.Int() == X.Abs()
    requires t <= n < |X.p| && t < |Y.p| && Y.p[t] != 0 && n - t < |Z.p|
    requires Y.Abs() == Val(Y.p, t + 1) && X.Abs() < Shl(Y.Abs(), n - t)
    requires forall k :: 0 <= k < n - t ==> Z.p[k] == 0
    requires |T1.p| >= 2 && |T2.p| >= 3
    modifies X, Z`p, T1, T2
    ensures X.Valid() && X.Int() == X.Abs() && X.Abs() < Y.Abs()
    ensures |X.p| > n && |Z.p| == old(|Z.p|)
    ensures old(X.Abs()) + old(Value(Z.p)) * Y.Abs() == X.Abs() + Value(Z.p) * Y.Abs()
  {
    hide Val, Shl, Pow;
    ghost var total := X.Abs() + Value(Z.p) * Y.Abs();
    var i := n;
    while i > t
      invariant t <= i <= n < |X.p| && |Z.p| == old(|Z.p|) && |T1.p| >= 2 && |T2.p| >= 3
      invariant X.Valid() && X.Int() == X.Abs() && X.Abs() < Shl(Y.Abs(), i - t)
      invariant forall k :: 0 <= k < i - t ==> Z.p[k] == 0
      invariant total == X.Abs() + Value(Z.p) * Y.Abs()
    {
      ghost var z := Z.p;
      SubtractDigit(X, Y, Z, T1, T2, i, t);
      DigitAdded(z, i - t - 1, Z.p[i - t - 1], Y.Abs());
      i := i - 1;
    }
    NoShift(Y.Abs());
  }

  lemma NoShift(c: int)
    ensures Shl(c, 0) == c
  {
  }

  /** C's truncating division and its remainder. */
  ghost function TruncDiv(a: int, b: int): int
    requires b != 0
  {
    var q := AbsOf(a) / AbsOf(b);
    if (a < 0) == (b < 0) then q else -q
  }

  ghost function TruncMod(a: int, b: int): int
    requires b != 0
  {
    var r := AbsOf(a) % AbsOf(b);
    if a < 0 then -r else r
  }

  /** What the two functions are for: a = q * b + r, with r short and signed like a. */
  lemma DivisionLaw(a: int, b: int)
    requires b != 0
    ensures a == TruncDiv(a, b) * b + TruncMod(a, b)
    ensures AbsOf(TruncMod(a, b)) < AbsOf(b)
    ensures TruncMod(a, b) == 0 || (TruncMod(a, b) < 0 <==> a < 0)
  {
    var m, d := AbsOf(a), AbsOf(b);
    DivBounds(m, d);
    var q: int := m / d;
    if (a < 0) == (b < 0) {
      SignedProduct(q, d, b);
    } else {
      SignedProduct(-q, d, b);
    }
    NegProduct(d, q);
  }

  lemma SignedProduct(q: int, d: int, b: int)
    requires b == d || b == -d
    ensures q * b == if b == d then d * q else -(d * q)
  {
    MulComm(q, d);
    NegProduct(q, d);
  }

  lemma NegProduct(a: int, b: int)
    ensures a * (-b) == -(a * b)
  {
  }

  /** A non-zero top limb in a copied buffer. */
  lemma CopiedTop(p: seq<Limb>)
    requires |p| > 0 && (|p| == 1 || p[|p| - 1] != 0) && Value(p) > 0
    ensures p[|p| - 1] != 0
  {
    OneLimb(p);
  }

  /** The divisor, shifted up and back, has its top digit where it was. */
  lemma TopBack(y: seq<Limb>, t: nat)
    requires t < |y| && Pow(t) <= Value(y) < Pow(t + 1)
    ensures y[t] != 0 && Value(y) == Val(y, t + 1)
  {
    HighZero(y, t + 1);
    if y[t] == 0 {
      ShlUnit(t);
      ValBound(y, t);
    }
  }

  /** Magnitudes: the larger operand has at least as many limbs. */
  lemma LimbOrder(x: seq<Limb>, y: seq<Limb>)
    requires |x| > 0 && |y| > 0 && y[|y| - 1] != 0 && Value(y) <= Value(x)
    ensures |y| <= |x| && Pow(|y| - 1) <= Value(y) < Pow(|y|)
  {
    ValFloor(y, |y| - 1, |y|);
    ValBound(x, |x|);
    ValBound(y, |y|);
    if |x| < |y| {
      PowMono(|x|, |y| - 1);
    }
  }

  /** Removing the normalisation from quotient and remainder. */
  lemma Unnormalise(a: int, b: int, z: int, x: int, T: int)
    requires a >= 0 && b > 0 && T > 0 && 0 <= z && 0 <= x < b * T && a * T == x + z * (b * T)
    ensures z == a / b && x / T == a % b
  {
    var m := a - b * z;
    Factor(a, b, z, T);
    MulComm(z, b * T);
    assert x == m * T;
    Unscale(m, b, T);
    DivUnique(a, b, z, m);
    MulComm(T, m);
    DivUnique(x, T, m, 0);
  }

  /** Shifts both magnitudes so that the divisor's bit length is 31 modulo 32. */
  method Normalise(X: Mpi, Y: Mpi) returns (k: nat)
    requires X != Y && |X.p| > 0 && |Y.p| > 0 && X.p[|X.p| - 1] != 0 && Y.p[|Y.p| - 1] != 0
    modifies X`p, Y`p
    ensures k < 32 && X.Abs() == old(X.Abs()) * Two(k) && Y.Abs() == old(Y.Abs()) * Two(k)
    ensures |X.p| > 0 && X.p[|X.p| - 1] != 0 && |X.p| <= old(|X.p|) + 1
    ensures |Y.p| > 0 && Y.p[|Y.p| - 1] != 0
  {
    var len := Bitlen(Y);
    k := len % 32;
    if k < 31 {
      k := 31 - k;
      ShiftL(X, k);
      ShiftL(Y, k);
    } else {
      k := 0;
    }
  }

  /** All digits: Z collects the quotient of X by Y, X is left as the remainder. */
  method DivideInPlace(X: Mpi, Y: Mpi, Z: Mpi, T1: Mpi, T2: Mpi)
    requires Apart(X, Y, Z, T1, T2) && X.Valid() && Y.Valid() && X.s == 1 && Y.s == 1
    requires |X.p| > 0 && X.p[|X.p| - 1] != 0 && |Y.p| > 0 && Y.p[|Y.p| - 1] != 0
    requires Y.Abs() <= X.Abs() && |X.p| <= |Z.p|
    requires forall k :: 0 <= k < |Z.p| ==> Z.p[k] == 0
    requires |T1.p| >= 2 && |T2.p| >= 3
    modifies X, Y, Z`p, T1, T2
    ensures X.Valid() && 0 <= X.Abs() < old(Y.Abs()) && |X.p| > 0
    ensures old(X.Abs()) == X.Abs() + Value(Z.p) * old(Y.Abs()) && |Z.p| == old(|Z.p|)
  {
    hide Val, Shl, Pow;
    LimbOrder(X.p, Y.p);
    var n, t := |X.p| - 1, |Y.p| - 1;
    TopDigit(X, Y, Z, n, t);
    TopBack(Y.p, t);
    LowerDigits(X, Y, Z, T1, T2, n, t);
  }

  /** A fresh positive copy, trimmed to its top limb. */
  method PositiveCopy(A: Mpi) returns (X: Mpi)
    requires A.Valid() && 0 < A.Abs()
    ensures fresh(X) && X.Valid() && X.s == 1 && X.Abs() == A.Abs()
    ensures 0 < |X.p| <= |A.p| && X.p[|X.p| - 1] != 0
  {
    X := new Mpi();
    X.Copy(A);
    X.s := 1;
    CopiedTop(X.p);
  }

  method Temporaries(n: nat) returns (Z: Mpi, T1: Mpi, T2: Mpi)
    requires n > 0
    ensures fresh(Z) && fresh(T1) && fresh(T2) && Z != T1 && Z != T2 && T1 != T2
    ensures Z.Valid() && |Z.p| == n && Z.s == 1 && forall k :: 0 <= k < n ==> Z.p[k] == 0
    ensures |T1.p| >= 2 && |T2.p| >= 3 && Z.Abs() == 0
  {
    Z := new Mpi();
    T1 := new Mpi();
    T2 := new Mpi();
    Z.Grow(n);
    Z.Lset(0);
    T1.Grow(2);
    T2.Grow(3);
  }

  /** Quotient and remainder of the magnitudes: Z = |A| / |B|, X >> k = |A| % |B|. */
  method DivMagnitudes(A: Mpi, B: Mpi) returns (X: Mpi, Z: Mpi)
    requires A.Valid() && B.Valid() && 0 < B.Abs() <= A.Abs()
    ensures fresh(X) && fresh(Z) && X != Z && X.Valid() && Z.Valid() && |X.p| > 0 && |Z.p| > 0
    ensures Z.Abs() == A.Abs() / B.Abs() && X.Abs() == A.Abs() % B.Abs()
  {
    hide Val, Shl, Pow, Two;
    ghost var a, b := A.Abs(), B.Abs();
    X := PositiveCopy(A);
    var Y := PositiveCopy(B);
    var T1, T2;
    Z, T1, T2 := Temporaries(|A.p| + 2);
    var k := Normalise(X, Y);
    MulMono(b, a, Two(k));
    DivideInPlace(X, Y, Z, T1, T2);
    Unnormalise(a, b, Z.Abs(), X.Abs(), Two(k));
    ShiftR(X, k);
  }

  /** The signed results from the magnitudes. */
  lemma Signed(a: int, b: int, m: nat, d: nat)
    requires d > 0 && (a == m || a == -(m as int)) && (b == d || b == -(d as int))
    ensures TruncMod(a, b) == if a < 0 then -(m % d) else m % d
    ensures m / d == 0 || TruncDiv(a, b) == if (a < 0) == (b < 0) then m / d else -(m / d)
    ensures m / d == 0 ==> TruncDiv(a, b) == 0
  {
  }

  method PutQuotient(Q: Mpi, Z: Mpi, s: int)
    requires Q != Z && Z.Valid() && |Z.p| > 0 && (s == 1 || s == -1)
    modifies Q
    ensures Q.Valid() && Q.Int() == if s < 0 then -Z.Abs() else Z.Abs()
  {
    Q.Copy(Z);
    Q.s := s;
  }

  method PutRemainder(R: Mpi, X: Mpi, s: int)
    requires R != X && X.Valid() && |X.p| > 0 && (s == 1 || s == -1)
    modifies R, X
    ensures R.Valid() && R.Int() == if s < 0 then -old(X.Abs()) else old(X.Abs())
    ensures |R.p| >= old(|R.p|) && |R.p| > 0
  {
    X.s := s;
    R.Copy(X);
    var c := R.CmpInt(0);
    if c == 0 {
      R.s := 1;
    }
  }

  /** Signed division; a missing Q or R is not computed. */
  method DivMpi(Q: Mpi?, R: Mpi?, A: Mpi, B: Mpi) returns (ret: int)
    requires A.Valid() && B.Valid()
    requires Q != null ==> Q != A && Q != B && Q != R
    modifies Q, R
    ensures ret == (if old(B.Int()) == 0 then ERR_DIVISION_BY_ZERO else OK)
    ensures ret == OK && Q != null ==> Q.Valid() && Q.Int() == TruncDiv(old(A.Int()), old(B.Int()))
    ensures ret == OK && R != null ==> R.Valid() && R.Int() == TruncMod(old(A.Int()), old(B.Int()))
    ensures ret == OK && R != null && old(|A.p|) > 0 ==> |R.p| >= old(|R.p|) && |R.p| > 0
    ensures ret != OK && Q != null ==> unchanged(Q)
    ensures ret != OK && R != null ==> unchanged(R)
  {
    hide TruncDiv, TruncMod, Val;
    var zero := B.CmpInt(0);
    if zero == 0 {
      return ERR_DIVISION_BY_ZERO;
    }
    ret := OK;
    Signed(A.Int(), B.Int(), A.Abs(), B.Abs());
    var less := A.CmpAbs(B);
    if less < 0 {
      DivUnique(A.Abs(), B.Abs(), 0, A.Abs());
      if Q != null {
        Q.Lset(0);
      }
      if R != null {
        R.Copy(A);
      }
      return;
    }
    var X, Z := DivMagnitudes(A, B);
    if Q != null {
      PutQuotient(Q, Z, A.s * B.s);
    }
    if R != null {
      PutRemainder(R, X, A.s);
    }
  }
}
