/** Bit length and shifts of multi-precision integers. */
module BignumShift {
  import opened Limbs
  import opened Bits
  import opened Bignum

  /** Counts the leading zero bits with a moving mask. */
  method Clz(x: Limb) returns (j: nat)
    ensures j <= 32 && x < Two(32 - j)
    ensures j < 32 ==> Two(31 - j) <= x
  {
    var mask: Limb := 0x8000_0000;
    j := 0;
    Two32();
    while j < 32
      invariant j <= 32 && x < Two(32 - j)
      invariant j < 32 ==> mask == Two(31 - j)
    {
      if x / mask % 2 != 0 {
        if x < mask {
          DivUnique(x, mask, 0, x);
        }
        break;
      }
      if x >= mask {
        DivUnique(x, mask, 1, x - mask);
      }
      mask := mask / 2;
      j := j + 1;
    }
  }

  /** The bit length is the least r with the magnitude below 2^r. */
  method Bitlen(X: Mpi) returns (r: nat)
    ensures X.Abs() < Two(r) && (r > 0 ==> Two(r - 1) <= X.Abs())
    ensures r <= 32 * |X.p|
  {
    if |X.p| == 0 {
      return 0;
    }
    var i := |X.p| - 1;
    while i > 0
      invariant 0 <= i < |X.p|
      invariant forall k :: i < k < |X.p| ==> X.p[k] == 0
    {
      if X.p[i] != 0 {
        break;
      }
      i := i - 1;
    }
    var z := Clz(X.p[i]);
    r := 32 * i + (32 - z);
    TopLimb(X.p, i, 32 - z);
  }

  /** The top non-zero limb gives the bit length. */
  lemma TopLimb(p: seq<Limb>, i: nat, j: nat)
    requires i < |p| && forall k :: i < k < |p| ==> p[k] == 0
    requires p[i] < Two(j) && (j > 0 ==> Two(j - 1) <= p[i]) && (j == 0 ==> i == 0)
    ensures Value(p) < Two(32 * i + j)
    ensures 32 * i + j > 0 ==> Two(32 * i + j - 1) <= Value(p)
  {
    ValTop(p, i + 1, |p|);
    ValBound(p, i);
    assert Val(p, i + 1) == Val(p, i) + Shl(p[i], i);
    hide Val, Shl, Pow, Two;
    ShlTwo(p[i], i);
    PowTwo(i);
    TwoAdd(32 * i, j);
    LessProduct(Val(p, i), p[i], Two(j), Two(32 * i));
    if j > 0 {
      TwoAdd(32 * i, j - 1);
      MulMono(Two(j - 1), p[i], Two(32 * i));
      MulComm(Two(j - 1), Two(32 * i));
    }
  }

  lemma MulComm(a: int, b: int)
    ensures a * b == b * a
  {
  }

  lemma LessProduct(v: int, x: int, n: int, w: int)
    requires 0 <= v < w && x < n
    ensures v + x * w < w * n
  {
    MulMono(x + 1, n, w);
    DistSum(w, x, 1);
    MulComm(n, w);
  }

  // ---------- left shift ----------

  /** Moves every limb up by v positions; the limbs pushed off the top must be zero. */
  method LimbsUp(X: Mpi, v: nat)
    requires v <= |X.p|
    requires X.Abs() < Pow(|X.p| - v)
    modifies X`p
    ensures |X.p| == old(|X.p|)
    ensures X.Abs() == Shl(old(X.Abs()), v)
    ensures forall k :: 0 <= k < v ==> X.p[k] == 0
  {
    hide Value, Val, Shl, Pow;
    ghost var q, n := X.p, |X.p|;
    var i := |X.p|;
    while i > v
      invariant v <= i <= n && |X.p| == n
      invariant forall k :: 0 <= k < i ==> X.p[k] == q[k]
      invariant forall k :: i <= k < n ==> X.p[k] == q[k - v]
    {
      X.p := X.p[i - 1 := X.p[i - v - 1]];
      i := i - 1;
    }
    while i > 0
      invariant 0 <= i <= v <= n && |X.p| == n
      invariant forall k :: i <= k < v ==> X.p[k] == 0
      invariant forall k :: v <= k < n ==> X.p[k] == q[k - v]
    {
      X.p := X.p[i - 1 := 0];
      i := i - 1;
    }
    LimbsUpValue(q, v, X.p);
  }

  lemma LimbsUpValue(q: seq<Limb>, v: nat, p: seq<Limb>)
    requires v <= |q| == |p| && Value(q) < Pow(|q| - v)
    requires forall k :: 0 <= k < v ==> p[k] == 0
    requires forall k :: v <= k < |q| ==> p[k] == q[k - v]
    ensures Value(p) == Shl(Value(q), v)
  {
    var m := |q| - v;
    assert p == Zeros(v) + q[..m];
    ValZeros(v);
    ValConcat(Zeros(v), q[..m]);
    HighZero(q, m);
    ValEq(q[..m], q, m);
  }

  lemma Expand(a: int, q: int, r: int, t: int)
    ensures (a * q + r) * t == (t * a) * q + r * t
  {
    assert (a * q + r) * t == (a * q) * t + r * t;
    assert (a * q) * t == (t * a) * q;
  }

  lemma QuotientRange(x: int, d: int, n: int)
    requires d > 0 && 0 <= x < n * d
    ensures 0 <= x / d < n
  {
    DivBounds(x, d);
    var q := x / d;
    if q >= n {
      MulMono(n, q, d);
    }
  }

  lemma RemainderRoom(r: int, u: int, t: int)
    requires 0 <= r < u && t > 0
    ensures 0 <= r * t <= t * u - t
  {
    MulMono(r, u - 1, t);
    MulMono(0, r, t);
    assert (u - 1) * t == t * u - t;
  }

  /** Multiplying by t and wrapping at t * u splits x at u. */
  lemma WrapProduct(x: int, t: int, u: int)
    requires t > 0 && u > 0 && t * u == BASE && 0 <= x < BASE
    ensures 0 <= x / u < t && x * t / BASE == x / u
    ensures x * t % BASE == (x % u) * t && 0 <= (x % u) * t <= BASE - t
  {
    DivBounds(x, u);
    QuotientRange(x, u, t);
    Expand(u, x / u, x % u, t);
    RemainderRoom(x % u, u, t);
    DivUnique(x * t, BASE, x / u, (x % u) * t);
  }

  /** One limb of the left bit shift: nothing but whole multiples of 2^32 leave the limb. */
  lemma ShiftDigitUp(x: Limb, t: nat, r0: Limb)
    requires 0 < t < 32 && r0 < Two(t)
    ensures var r1 := x / Two(32 - t); var e := Or(x * Two(t) % BASE, r0);
            0 <= r1 < Two(t) && e < BASE && e + BASE * r1 == x * Two(t) + r0
  {
    TwoSplit(t);
    WrapProduct(x, Two(t), Two(32 - t));
    OrDisjoint(x % Two(32 - t), r0, t);
    DivBounds(x * Two(t), BASE);
  }

  /** Moves every bit up by t positions, carrying between limbs from the bottom. */
  method BitsUp(X: Mpi, v: nat, t: nat)
    requires v <= |X.p| && 0 < t < 32
    requires forall k :: 0 <= k < v ==> X.p[k] == 0
    requires X.Abs() * Two(t) < Pow(|X.p|)
    modifies X`p
    ensures |X.p| == old(|X.p|)
    ensures X.Abs() == old(X.Abs()) * Two(t)
  {
    ghost var q, n := X.p, |X.p|;
    var i, r0: Limb := v, 0;
    ValTop(q, 0, v);
    ShlUnit(v);
    while i < |X.p|
      invariant v <= i <= |X.p| && |X.p| == n && r0 < Two(t)
      invariant forall k :: i <= k < n ==> X.p[k] == q[k]
      invariant Val(X.p, i) + Shl(r0, i) == Val(q, i) * Two(t)
    {
      var x := X.p[i];
      ShiftDigitUp(x, t, r0);
      TwoSplit(t);
      TwoSplit(32 - t);
      var r1: Limb := x / Two(32 - t);
      var e: Limb := Or(x * Two(t) % BASE, r0);
      BitsUpStep(X.p, q, i, e, r0, r1, Two(t));
      X.p := X.p[i := e];
      r0 := r1;
      i := i + 1;
    }
    if r0 > 0 {
      ValBound(X.p, n);
      ShlMono(1, r0, n);
      ShlUnit(n);
      assert false;
    }
    ShlUnit(n);
  }

  lemma BitsUpStep(p: seq<Limb>, q: seq<Limb>, i: nat, e: Limb, r0: Limb, r1: Limb, T: int)
    requires i < |p| == |q| && e + BASE * r1 == q[i] * T + r0
    requires Val(p, i) + Shl(r0, i) == Val(q, i) * T
    ensures Val(p[i := e], i + 1) + Shl(r1, i + 1) == Val(q, i + 1) * T
  {
    ValEq(p[i := e], p, i);
    ShlCarry(r1, i);
    ShlSum(e, BASE * r1, i);
    ShlSum(q[i] * T, r0, i);
    ShlTimes(T, q[i], i);
    assert (Val(q, i) + Shl(q[i], i)) * T == Val(q, i) * T + T * Shl(q[i], i);
  }

  /** X <<= count: exact, because the buffer is grown to the new bit length first. */
  method ShiftL(X: Mpi, count: nat)
    modifies X`p
    ensures X.Abs() == old(X.Abs()) * Two(count)
    ensures old(|X.p|) <= |X.p| <= old(|X.p|) + count / 32 + 1
    ensures old(|X.p|) > 0 && old(X.p[|X.p| - 1]) != 0 ==> |X.p| > 0 && X.p[|X.p| - 1] != 0
  {
    hide Two, Val, Shl, Pow;
    var v0, t1 := count / 32, count % 32;
    var len := Bitlen(X);
    var i := len + count;
    if |X.p| * 32 < i {
      X.Grow(i / 32 + (if i % 32 != 0 then 1 else 0));
    }
    ShiftFacts(X.Abs(), len, count, |X.p|);
    if v0 > 0 {
      LimbsUp(X, v0);
    }
    if t1 > 0 {
      BitsUp(X, v0, t1);
    }
    if old(|X.p|) > 0 && old(X.p[|X.p| - 1]) != 0 {
      TopStays(old(X.p), len, count, X.p, i);
    }
  }

  /** A buffer of n limbs has room for both halves of the shift. */
  lemma ShiftFacts(a: int, len: nat, count: nat, n: nat)
    requires 0 <= a < Two(len) && len + count <= 32 * n
    ensures count / 32 <= n && a < Pow(n - count / 32)
    ensures Shl(a, count / 32) * Two(count % 32) == a * Two(count) < Pow(n)
    ensures count / 32 == 0 ==> Shl(a, count / 32) == a
    ensures count % 32 == 0 ==> Shl(a, count / 32) == a * Two(count)
  {
    PowTwo(n - count / 32);
    TwoMono(len, 32 * (n - count / 32));
    ShiftRoom(a, len, count, n);
    ShiftParts(a, count);
  }

  /** The shifted magnitude fits the grown buffer. */
  lemma ShiftRoom(a: int, len: nat, count: nat, n: nat)
    requires 0 <= a < Two(len) && len + count <= 32 * n
    ensures a * Two(count) < Pow(n)
  {
    PowTwo(n);
    TwoAdd(len, count);
    TwoMono(len + count, 32 * n);
    MulStrict(a, Two(len), Two(count));
  }

  lemma MulStrict(a: int, b: int, c: int)
    requires a < b && c > 0
    ensures a * c < b * c
  {
  }

  /** A shift count splits into whole limbs and bits. */
  lemma ShiftParts(a: int, count: nat)
    ensures Shl(a, count / 32) * Two(count % 32) == a * Two(count)
  {
    var v, t := count / 32, count % 32;
    ShlTwo(a, v);
    TwoAdd(32 * v, t);
    MulAssoc(a, Two(32 * v), Two(t));
  }

  lemma MulAssoc(a: int, b: int, c: int)
    ensures (a * b) * c == a * (b * c)
  {
  }

  /** With no zero limb on top before, there is none after. */
  lemma TopStays(q: seq<Limb>, len: nat, count: nat, p: seq<Limb>, i: nat)
    requires |q| > 0 && q[|q| - 1] != 0
    requires Value(q) < Two(len) && (len > 0 ==> Two(len - 1) <= Value(q)) && len <= 32 * |q|
    requires i == len + count && Value(p) == Value(q) * Two(count)
    requires |p| == if |q| * 32 < i then i / 32 + (if i % 32 != 0 then 1 else 0) else |q|
    ensures |p| > 0 && p[|p| - 1] != 0
  {
    ValFloor(q, |q| - 1, |q|);
    PowTwo(|q| - 1);
    if len <= 32 * (|q| - 1) {
      TwoMono(len, 32 * (|q| - 1));
    }
    TwoAdd(len - 1, count);
    MulMono(Two(len - 1), Value(q), Two(count));
    var m := |p| - 1;
    assert 32 * m <= i - 1;
    TwoMono(32 * m, i - 1);
    PowTwo(m);
    if p[m] == 0 {
      ValTop(p, m, |p|);
      ValBound(p, m);
    }
  }

  // ---------- right shift ----------

  /** Moves every limb down by v positions. */
  method LimbsDown(X: Mpi, v: nat)
    requires 0 < v <= |X.p|
    modifies X`p
    ensures X.p == old(X.p[v..]) + Zeros(v)
    ensures X.Abs() == Value(old(X.p[v..]))
  {
    ghost var q, n := X.p, |X.p|;
    var i := 0;
    while i < |X.p| - v
      invariant 0 <= i <= |X.p| - v && |X.p| == n
      invariant forall k :: 0 <= k < i ==> X.p[k] == q[k + v]
      invariant forall k :: i <= k < n ==> X.p[k] == q[k]
    {
      X.p := X.p[i := X.p[i + v]];
      i := i + 1;
    }
    while i < |X.p|
      invariant n - v <= i <= n && |X.p| == n
      invariant forall k :: 0 <= k < n - v ==> X.p[k] == q[k + v]
      invariant forall k :: n - v <= k < i ==> X.p[k] == 0
    {
      X.p := X.p[i := 0];
      i := i + 1;
    }
    assert X.p == q[v..] + Zeros(v);
    ValExtend(q[v..], v);
  }

  lemma ValCons(x: Limb, s: seq<Limb>)
    ensures Value([x] + s) == x + BASE * Value(s)
  {
    ValConcat([x], s);
    OneLimb([x]);
  }

  /** One limb of the right bit shift, with m the remainder handed down from above. */
  lemma ShiftDigitDown(x: Limb, t: nat, m: int, hi: int, h: int)
    requires 0 < t < 32 && 0 <= m < Two(t) && h == Two(t) * hi + m
    ensures x / Two(t) >= 0 && m * Two(32 - t) >= 0
    ensures var U := Two(32 - t); var e := Or(x / Two(t), m * U); var m' := x % Two(t);
            && 0 <= e < BASE && 0 <= m' < Two(t)
            && x * U % BASE == m' * U
            && x + BASE * h == Two(t) * (e + BASE * hi) + m'
  {
    hide Two, Or;
    var T, U := Two(t), Two(32 - t);
    TwoSplit(t);
    WrapProduct(x, U, T);
    RemainderRoom(m, T, U);
    OrDisjoint(m, x / T, 32 - t);
    OrSwap(x / T, m * U);
    DivBounds(x, T);
    DownSum(T, U, x / T, m, hi);
  }

  lemma DownSum(T: int, U: int, y: int, m: int, hi: int)
    requires T * U == BASE
    ensures T * (y + m * U + BASE * hi) == T * y + BASE * m + BASE * (T * hi)
  {
    DistSum(T, y + m * U, BASE * hi);
    DistSum(T, y, m * U);
    MulSwap(T, BASE, hi);
    MulSwap(T, m, U);
  }

  lemma {:induction false} OrSwap(a: nat, b: nat)
    ensures Or(a, b) == Or(b, a)
    decreases a + b
  {
    if a != 0 || b != 0 {
      OrSwap(a / 2, b / 2);
    }
  }

  /** Moves every bit down by t positions, carrying between limbs from the top. */
  method BitsDown(X: Mpi, t: nat)
    requires 0 < t < 32
    modifies X`p
    ensures |X.p| == old(|X.p|)
    ensures X.Abs() == old(X.Abs()) / Two(t)
  {
    hide Two, Or, Val, Shl, Value;
    ghost var q, n := X.p, |X.p|;
    var T, U := Two(t), Two(32 - t);
    var i, r0: Limb := |X.p|, 0;
    ghost var m := 0;
    assert q[n..] == [];
    ValEmpty();
    while i > 0
      invariant 0 <= i <= n && |X.p| == n && 0 <= m < T && r0 == m * U
      invariant forall k :: 0 <= k < i ==> X.p[k] == q[k]
      invariant Value(q[i..]) == T * Value(X.p[i..]) + m
    {
      var x := X.p[i - 1];
      BitsDownStep(q, X.p, i, t, m);
      var r1: Limb := x * U % BASE;
      var e: Limb := Or(x / T, r0);
      X.p := X.p[i - 1 := e];
      r0 := r1;
      m := x % T;
      i := i - 1;
    }
    assert q[0..] == q && X.p[0..] == X.p;
    DivUnique(Value(q), T, Value(X.p), m);
  }

  lemma ValEmpty()
    ensures Value([]) == 0
  {
  }

  lemma BitsDownStep(q: seq<Limb>, p: seq<Limb>, i: nat, t: nat, m: int)
    requires 0 < t < 32 && 0 <= m < Two(t) && 0 < i <= |q| == |p| && p[i - 1] == q[i - 1]
    requires Value(q[i..]) == Two(t) * Value(p[i..]) + m
    ensures p[i - 1] / Two(t) >= 0 && m * Two(32 - t) >= 0
    ensures var x := p[i - 1]; var U := Two(32 - t); var e := Or(x / Two(t), m * U);
            && 0 <= e < BASE && 0 <= x % Two(t) < Two(t) && x * U % BASE == x % Two(t) * U
            && Value(q[i - 1..]) == Two(t) * Value(p[i - 1 := e][i - 1..]) + x % Two(t)
  {
    hide Two, Or, Val, Shl;
    var x := p[i - 1];
    ShiftDigitDown(x, t, m, Value(p[i..]), Value(q[i..]));
    var e := Or(x / Two(t), m * Two(32 - t));
    assert q[i - 1..] == [x] + q[i..];
    ValCons(x, q[i..]);
    assert p[i - 1 := e][i - 1..] == [e] + p[i..];
    ValCons(e, p[i..]);
  }

  /** X >>= count: the floor of the magnitude divided by 2^count. */
  method ShiftR(X: Mpi, count: nat)
    requires X.Valid()
    modifies X
    ensures X.Valid() && (X.s == old(X.s) || X.Abs() == 0)
    ensures X.Abs() == old(X.Abs()) / Two(count)
    ensures |X.p| >= old(|X.p|)
  {
    hide Two, Val, Shl, Pow, Value;
    var v0, v1 := count / 32, count % 32;
    ghost var q := X.p;
    if v0 > |X.p| || (v0 == |X.p| && v1 > 0) {
      ShiftedOut(q, count);
      X.Lset(0);
      return;
    }
    if v0 > 0 {
      LimbsDown(X, v0);
    } else {
      assert q[0..] == q;
    }
    DownTwice(q, v0, v1);
    if v1 > 0 {
      BitsDown(X, v1);
    } else {
      ByOne(X.Abs());
    }
  }

  lemma ByOne(h: int)
    ensures h / Two(0) == h
  {
  }

  /** A shift by at least the length of the buffer leaves nothing. */
  lemma ShiftedOut(q: seq<Limb>, count: nat)
    requires 32 * |q| <= count
    ensures Value(q) / Two(count) == 0
  {
    hide Two, Pow;
    ValBound(q, |q|);
    PowTwo(|q|);
    TwoMono(32 * |q|, count);
    DivUnique(Value(q), Two(count), 0, Value(q));
  }

  /** A shift by limbs and then by bits. */
  lemma DownTwice(q: seq<Limb>, v0: nat, v1: nat)
    requires v0 <= |q|
    ensures Value(q) / Two(32 * v0 + v1) == Value(q[v0..]) / Two(v1)
  {
    hide Two, Pow, Val, Shl;
    var h := Value(q[v0..]);
    ValSplit(q, v0);
    ValBound(q, v0);
    ShlTwo(h, v0);
    PowTwo(v0);
    TwoAdd(32 * v0, v1);
    FloorTwice(Value(q), Two(32 * v0), h, Val(q, v0), Two(v1));
  }

  /** Dividing twice is dividing by the product. */
  lemma FloorTwice(x: int, a: int, h: int, r: int, b: int)
    requires a > 0 && b > 0 && x == r + h * a && 0 <= r < a
    ensures h / b == x / (a * b)
  {
    DivBounds(h, b);
    var q, s := h / b, h % b;
    assert h * a == (b * q + s) * a == (a * b) * q + s * a by {
      assert (b * q + s) * a == (b * q) * a + s * a;
      assert (b * q) * a == (a * b) * q;
    }
    MulMono(s, b - 1, a);
    MulMono(0, s, a);
    assert (b - 1) * a == a * b - a;
    DivUnique(x, a * b, q, s * a + r);
  }
}
