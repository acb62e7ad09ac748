/** Little-endian sequences of 32-bit limbs and the natural numbers they stand for. */
module Limbs {
  const BASE: int := 0x1_0000_0000

  /** Half limbs. */
  const HALF: int := 0x1_0000

  type Limb = x: int | 0 <= x < 0x1_0000_0000

  /** 32-bit unsigned arithmetic: every result is reduced modulo 2^32. */
  function Add32(a: Limb, b: Limb): Limb {
    (a + b) % BASE
  }

  function Sub32(a: Limb, b: Limb): Limb {
    (a - b) % BASE
  }

  function Mul32(a: Limb, b: Limb): Limb {
    (a * b) % BASE
  }

  /** A C comparison used as a number. */
  function Bit(b: bool): Limb {
    if b then 1 else 0
  }

  /** The weight of limb n. */
  ghost function Pow(n: nat): (r: nat)
    ensures r > 0
  {
    if n == 0 then 1 else BASE * Pow(n - 1)
  }

  /** c moved up by i limbs: c * Pow(i), written so that it stays linear in c. */
  ghost function Shl(c: int, i: nat): int
    decreases i
  {
    if i == 0 then c else BASE * Shl(c, i - 1)
  }

  /** The number held by the n lowest limbs of s. */
  ghost function Val(s: seq<Limb>, n: nat): (v: int)
    requires n <= |s|
    ensures 0 <= v
    decreases n
  {
    if n == 0 then 0
    else
      ShlNonneg(s[n - 1], n - 1);
      Val(s, n - 1) + Shl(s[n - 1], n - 1)
  }

  lemma {:induction false} ShlNonneg(c: int, i: nat)
    requires 0 <= c
    ensures 0 <= Shl(c, i)
  {
    if i > 0 {
      ShlNonneg(c, i - 1);
    }
  }

  ghost function Value(s: seq<Limb>): (v: int)
    ensures 0 <= v
  {
    Val(s, |s|)
  }

  function Zeros(n: nat): (z: seq<Limb>)
    ensures |z| == n && forall i :: 0 <= i < n ==> z[i] == 0
  {
    seq(n, _ => 0)
  }

  // ---------- shifting by limbs ----------

  lemma {:induction false} ShlIsProduct(c: int, i: nat)
    ensures Shl(c, i) == c * Pow(i)
  {
    if i > 0 {
      ShlIsProduct(c, i - 1);
      MulSwap(BASE, c, Pow(i - 1));
    }
  }

  lemma {:induction false} ShlSum(a: int, b: int, i: nat)
    ensures Shl(a + b, i) == Shl(a, i) + Shl(b, i)
  {
    if i > 0 {
      ShlSum(a, b, i - 1);
    }
  }

  lemma {:induction false} ShlUnit(i: nat)
    ensures Shl(0, i) == 0 && Shl(1, i) == Pow(i) && Shl(-1, i) == -1 * Pow(i)
  {
    if i > 0 {
      ShlUnit(i - 1);
    }
  }

  lemma {:induction false} ShlCarry(c: int, i: nat)
    ensures Shl(BASE * c, i) == Shl(c, i + 1)
  {
    if i > 0 {
      ShlCarry(c, i - 1);
    }
  }

  lemma {:induction false} ShlShl(c: int, i: nat, j: nat)
    ensures Shl(Shl(c, i), j) == Shl(c, i + j)
  {
    if j > 0 {
      ShlShl(c, i, j - 1);
    }
  }

  lemma {:induction false} ShlMono(a: int, b: int, i: nat)
    requires a <= b
    ensures Shl(a, i) <= Shl(b, i)
  {
    if i > 0 {
      ShlMono(a, b, i - 1);
    }
  }

  lemma {:induction false} ShlStrict(a: int, b: int, i: nat)
    requires a < b
    ensures Shl(a, i) < Shl(b, i)
  {
    if i > 0 {
      ShlStrict(a, b, i - 1);
    }
  }

  lemma {:induction false} ShlTimes(a: int, b: int, i: nat)
    ensures a * Shl(b, i) == Shl(a * b, i)
  {
    if i > 0 {
      ShlTimes(a, b, i - 1);
      MulSwap(a, BASE, Shl(b, i - 1));
    }
  }

  lemma {:induction false} ShlNeg(a: int, i: nat)
    ensures Shl(-a, i) == -Shl(a, i)
  {
    if i > 0 {
      ShlNeg(a, i - 1);
    }
  }

  lemma ShlPow(i: nat, j: nat)
    ensures Shl(Pow(i), j) == Pow(i + j)
  {
    ShlUnit(i);
    ShlShl(1, i, j);
    ShlUnit(i + j);
  }

  lemma PowAdd(a: nat, b: nat)
    ensures Pow(a + b) == Pow(a) * Pow(b)
  {
    ShlPow(a, b);
    ShlIsProduct(Pow(a), b);
  }

  lemma MulSwap(a: int, b: int, c: int)
    ensures a * (b * c) == b * (a * c)
  {
  }

  lemma MulMono(a: int, b: int, c: nat)
    requires a <= b
    ensures a * c <= b * c
  {
  }

  lemma DistSum(a: int, b: int, c: int)
    ensures a * (b + c) == a * b + a * c
  {
  }

  lemma {:induction false} PowMono(a: nat, b: nat)
    requires a <= b
    ensures Pow(a) <= Pow(b)
  {
    if a < b {
      PowMono(a, b - 1);
    }
  }

  // ---------- values of limb sequences ----------

  lemma {:induction false} ValBound(s: seq<Limb>, n: nat)
    requires n <= |s|
    ensures 0 <= Val(s, n) < Pow(n)
  {
    if n > 0 {
      ValBound(s, n - 1);
      ShlMono(0, s[n - 1], n - 1);
      ShlMono((s[n - 1] as int) + 1, BASE, n - 1);
      ShlSum(s[n - 1], 1, n - 1);
      ShlUnit(n - 1);
      ShlCarry(1, n - 1);
      ShlUnit(n);
    }
  }

  lemma {:induction false} ValEq(s: seq<Limb>, t: seq<Limb>, n: nat)
    requires n <= |s| && n <= |t|
    requires forall i :: 0 <= i < n ==> s[i] == t[i]
    ensures Val(s, n) == Val(t, n)
  {
    if n > 0 {
      ValEq(s, t, n - 1);
    }
  }

  /** Equal top limbs cancel in a difference. */
  lemma {:induction false} ValSameTop(s: seq<Limb>, t: seq<Limb>, lo: nat, n: nat)
    requires lo <= n && n <= |s| && n <= |t|
    requires forall i :: lo <= i < n ==> s[i] == t[i]
    ensures Val(s, n) - Val(t, n) == Val(s, lo) - Val(t, lo)
  {
    if lo < n {
      ValSameTop(s, t, lo, n - 1);
    }
  }

  /** Zero limbs at the top do not count. */
  lemma {:induction false} ValTop(s: seq<Limb>, lo: nat, n: nat)
    requires lo <= n <= |s|
    requires forall i :: lo <= i < n ==> s[i] == 0
    ensures Val(s, n) == Val(s, lo)
  {
    if lo < n {
      ValTop(s, lo, n - 1);
      ShlUnit(n - 1);
    }
  }

  lemma {:induction false} ValMono(s: seq<Limb>, lo: nat, n: nat)
    requires lo <= n <= |s|
    ensures Val(s, lo) <= Val(s, n)
  {
    if lo < n {
      ValMono(s, lo, n - 1);
      ShlUnit(n - 1);
      ShlMono(0, s[n - 1], n - 1);
    }
  }

  lemma ValZeros(n: nat)
    ensures Value(Zeros(n)) == 0
  {
    ValTop(Zeros(n), 0, n);
  }

  /** Writing one limb moves the value by the difference at that limb's weight. */
  lemma {:induction false} ValUpdate(s: seq<Limb>, i: nat, v: Limb, n: nat)
    requires i < n <= |s|
    ensures Val(s[i := v], n) == Val(s, n) + Shl(v, i) - Shl(s[i], i)
  {
    if n == i + 1 {
      ValEq(s[i := v], s, i);
    } else {
      ValUpdate(s, i, v, n - 1);
    }
  }

  lemma {:induction false} ValSplitAt(s: seq<Limb>, k: nat, n: nat)
    requires k <= n <= |s|
    ensures Val(s, n) == Val(s, k) + Shl(Val(s[k..], n - k), k)
  {
    if k == n {
      ShlUnit(k);
    } else {
      ValSplitAt(s, k, n - 1);
      var hi, m := s[k..], n - 1 - k;
      assert hi[m] == s[n - 1];
      ShlSum(Val(hi, m), Shl(hi[m], m), k);
      ShlShl(hi[m], m, k);
    }
  }

  lemma ValSplit(s: seq<Limb>, k: nat)
    requires k <= |s|
    ensures Value(s) == Val(s, k) + Shl(Value(s[k..]), k)
  {
    ValSplitAt(s, k, |s|);
  }

  lemma ValConcat(s: seq<Limb>, t: seq<Limb>)
    ensures Value(s + t) == Value(s) + Shl(Value(t), |s|)
  {
    ValSplit(s + t, |s|);
    ValEq(s + t, s, |s|);
    assert (s + t)[|s|..] == t;
  }

  /** Extending with zeros keeps the value. */
  lemma ValExtend(s: seq<Limb>, k: nat)
    ensures Value(s + Zeros(k)) == Value(s)
  {
    var t := s + Zeros(k);
    ValTop(t, |s|, |t|);
    ValEq(t, s, |s|);
  }

  /** The highest differing limb decides the comparison. */
  lemma ValLess(s: seq<Limb>, t: seq<Limb>, n: nat)
    requires 0 < n && n <= |s| && n <= |t|
    requires s[n - 1] < t[n - 1]
    ensures Val(s, n) < Val(t, n)
  {
    ValBound(s, n - 1);
    ValBound(t, n - 1);
    ShlMono((s[n - 1] as int) + 1, t[n - 1], n - 1);
    ShlSum(s[n - 1], 1, n - 1);
    ShlUnit(n - 1);
  }

  /** A non-zero limb puts a floor under the value. */
  lemma ValFloor(s: seq<Limb>, i: nat, n: nat)
    requires i < n <= |s|
    requires s[i] != 0
    ensures Pow(i) <= Val(s, n)
  {
    ValMono(s, i + 1, n);
    ValBound(s, i);
    ShlMono(1, s[i], i);
    ShlUnit(i);
  }

  lemma OneLimb(p: seq<Limb>)
    requires |p| > 0
    ensures Val(p, 1) == p[0]
  {
    assert Val(p, 1) == Val(p, 0) + Shl(p[0], 0);
  }

  /** A value below Pow(n) has no limb from n upward. */
  lemma HighZero(p: seq<Limb>, n: nat)
    requires Value(p) < Pow(n)
    ensures forall k :: n <= k < |p| ==> p[k] == 0
    ensures n <= |p| ==> Val(p, n) == Value(p)
  {
    forall k | n <= k < |p| && p[k] != 0
      ensures false
    {
      ValFloor(p, k, |p|);
      PowMono(n, k);
    }
    if n <= |p| {
      ValTop(p, n, |p|);
    }
  }

  // ---------- one step of a limb loop ----------

  /** Storing a digit e with carry c1 where d + c0 + t stood keeps value plus pending carry. */
  lemma StoreStep(p: seq<Limb>, i: nat, e: Limb, c0: int, c1: int, t: int)
    requires i < |p|
    requires e + BASE * c1 == p[i] + c0 + t
    ensures Value(p[i := e]) + Shl(c1, i + 1) == Value(p) + Shl(c0, i) + Shl(t, i)
  {
    ValUpdate(p, i, e, |p|);
    ShlCarry(c1, i);
    ShlSum(e, BASE * c1, i);
    ShlSum(p[i] + c0, t, i);
    ShlSum(p[i], c0, i);
  }

  /** One limb of an addition loop: two wrapping additions and their recovered carries. */
  lemma AddStep(p: seq<Limb>, i: nat, c: Limb, t: Limb, e: Limb, c': int)
    requires i < |p| && c <= 1
    requires e == Add32(Add32(p[i], c), t)
    requires c' == Bit(Add32(p[i], c) < c) + Bit(e < t)
    ensures 0 <= c' <= 1
    ensures Value(p[i := e]) + Shl(c', i + 1) == Value(p) + Shl(c, i) + Shl(t, i)
  {
    assert e + BASE * c' == p[i] + c + t;
    StoreStep(p, i, e, c, c', t);
  }

  /** One limb of a subtraction loop: two wrapping subtractions and their recovered borrows. */
  lemma SubStep(p: seq<Limb>, i: nat, c: Limb, t: Limb, e: Limb, c': int)
    requires i < |p| && c <= 1
    requires e == Sub32(Sub32(p[i], c), t)
    requires c' == Bit(Sub32(p[i], c) < t) + Bit(p[i] < c)
    ensures 0 <= c' <= 1
    ensures Value(p[i := e]) - Shl(c', i + 1) == Value(p) - Shl(c, i) - Shl(t, i)
  {
    assert e - BASE * c' == p[i] - c - t;
    StoreStep(p, i, e, -(c as int), -c', -(t as int));
    ShlNeg(c, i);
    ShlNeg(t, i);
    ShlNeg(c', i + 1);
  }
}
