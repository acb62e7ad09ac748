/** Signed multi-precision integers: a sign and a growable buffer of limbs, updated in place. */
module Bignum {
  import opened Limbs
  import opened BnMul

  const OK: int := 0
  const ERR_BAD_INPUT_DATA: int := -0x0004
  const ERR_BUFFER_TOO_SMALL: int := -0x0008
  const ERR_NEGATIVE_VALUE: int := -0x000A
  const ERR_DIVISION_BY_ZERO: int := -0x000C

  function Sign(x: int): int {
    if x > 0 then 1 else if x < 0 then -1 else 0
  }

  function AbsOf(x: int): nat {
    if x < 0 then -x else x
  }

  /** One more limb of a row of the product. */
  lemma RowStep(v: seq<Limb>, k: nat, b: int, off: nat)
    requires k < |v|
    ensures Shl(Val(v, k + 1) * b, off) == Shl(Val(v, k) * b, off) + Shl(v[k] * b, off + k)
  {
    var x, y := Val(v, k), Shl(v[k], k);
    assert (x + y) * b == x * b + y * b;
    ShlTimes(b, v[k], k);
    assert y * b == Shl(v[k] * b, k);
    ShlSum(x * b, y * b, off);
    ShlShl(v[k] * b, k, off);
  }

  /** Number of limbs left once the zero limbs at the top are dropped. */
  method Used(p: seq<Limb>) returns (i: nat)
    ensures i <= |p| && (i > 0 ==> p[i - 1] != 0)
    ensures forall k :: i <= k < |p| ==> p[k] == 0
    ensures Value(p) == Val(p, i)
    ensures Value(p) == 0 <==> i == 0
    ensures i > 0 ==> Pow(i - 1) <= Value(p)
  {
    i := |p|;
    while i > 0
      invariant 0 <= i <= |p|
      invariant forall k :: i <= k < |p| ==> p[k] == 0
    {
      if p[i - 1] != 0 {
        ValFloor(p, i - 1, |p|);
        break;
      }
      i := i - 1;
    }
    ValTop(p, i, |p|);
  }

  /** Compares n limbs from the top down. */
  method CmpLimbs(p: seq<Limb>, q: seq<Limb>, n: nat) returns (r: int)
    requires n <= |p| && n <= |q|
    ensures r == Sign(Val(p, n) - Val(q, n))
  {
    var i := n;
    while i > 0
      invariant 0 <= i <= n
      invariant forall k :: i <= k < n ==> p[k] == q[k]
    {
      ValSameTop(p, q, i, n);
      if p[i - 1] > q[i - 1] {
        ValLess(q, p, i);
        return 1;
      }
      if p[i - 1] < q[i - 1] {
        ValLess(p, q, i);
        return -1;
      }
      i := i - 1;
    }
    ValSameTop(p, q, 0, n);
    return 0;
  }

  class Mpi {
    var s: int
    var p: seq<Limb>

    ghost predicate Valid()
      reads this
    {
      s == 1 || s == -1
    }

    /** The magnitude. */
    ghost function Abs(): int
      reads this
    {
      Value(p)
    }

    /** The number; a negative sign on a zero magnitude does not show. */
    ghost function Int(): int
      reads this
    {
      if s < 0 then -Value(p) else Value(p)
    }

    constructor ()
      ensures Valid() && p == [] && s == 1 && Int() == 0 && Abs() == 0
    {
      s := 1;
      p := [];
    }

    /** The one-limb temporary that the small-integer variants build. */
    constructor FromInt(z: int)
      requires -BASE / 2 <= z < BASE / 2
      ensures Valid() && Int() == z && Abs() == AbsOf(z)
      ensures p == [AbsOf(z)] && s == (if z < 0 then -1 else 1)
    {
      s := if z < 0 then -1 else 1;
      p := [if z < 0 then -z else z];
      new;
      OneLimb(p);
    }

    constructor FromLimb(b: Limb)
      ensures Valid() && Int() == b && Abs() == b && p == [b] && s == 1
    {
      s := 1;
      p := [b];
      new;
      OneLimb(p);
    }

    method Free()
      modifies this
      ensures Valid() && p == [] && s == 1 && Int() == 0 && Abs() == 0
    {
      s := 1;
      p := [];
    }

    /** Enlarges the buffer; the new limbs are zero. */
    method Grow(n: nat)
      modifies `p
      ensures |p| == (if old(|p|) < n then n else old(|p|)) && old(p) <= p
      ensures forall k :: old(|p|) <= k < |p| ==> p[k] == 0
      ensures Abs() == old(Abs())
    {
      if |p| < n {
        ValExtend(p, n - |p|);
        p := p + Zeros(n - |p|);
      }
    }

    /** Copies sign and magnitude, keeping a larger buffer; an unallocated Y resets this one. */
    method Copy(Y: Mpi)
      requires Y.Valid()
      modifies this
      ensures Valid() && Int() == old(Y.Int()) && Abs() == old(Y.Abs())
      ensures old(|Y.p|) > 0 ==> s == old(Y.s) && |p| >= old(|p|) && |p| > 0
      ensures this != Y && old(|p|) == 0 && old(|Y.p|) > 0 ==>
                |p| <= old(|Y.p|) && (|p| == 1 || p[|p| - 1] != 0)
    {
      if this == Y {
        return;
      }
      if |Y.p| == 0 {
        Free();
        return;
      }
      var i := |Y.p| - 1;
      while i > 0
        invariant 0 <= i < |Y.p|
        invariant forall k :: i < k < |Y.p| ==> Y.p[k] == 0
      {
        if Y.p[i] != 0 {
          break;
        }
        i := i - 1;
      }
      i := i + 1;
      s := Y.s;
      Grow(i);
      p := Y.p[..i] + Zeros(|p| - i);
      ValTop(Y.p, i, |Y.p|);
      ValExtend(Y.p[..i], |p| - i);
      ValEq(Y.p[..i], Y.p, i);
    }

    /** Sets a small signed value, keeping the buffer. */
    method Lset(z: int)
      requires -BASE / 2 <= z < BASE / 2
      modifies this
      ensures Valid() && Int() == z && Abs() == AbsOf(z) && s == (if z < 0 then -1 else 1)
      ensures |p| == (if old(|p|) < 1 then 1 else old(|p|))
      ensures p[0] == AbsOf(z) && forall k :: 0 < k < |p| ==> p[k] == 0
    {
      Grow(1);
      p := Zeros(|p|)[0 := if z < 0 then -z else z];
      s := if z < 0 then -1 else 1;
      ValTop(p, 1, |p|);
      OneLimb(p);
    }

    /** Compares magnitudes. */
    method CmpAbs(Y: Mpi) returns (r: int)
      ensures r == Sign(Abs() - Y.Abs())
    {
      var i := Used(p);
      var j := Used(Y.p);
      if i == 0 && j == 0 {
        return 0;
      }
      if i > j {
        ValBound(Y.p, j);
        PowMono(j, i - 1);
        return 1;
      }
      if j > i {
        ValBound(p, i);
        PowMono(i, j - 1);
        return -1;
      }
      r := CmpLimbs(p, Y.p, i);
    }

    /** Compares signed values. */
    method CmpMpi(Y: Mpi) returns (r: int)
      requires Valid() && Y.Valid()
      ensures r == Sign(Int() - Y.Int())
    {
      var i := Used(p);
      var j := Used(Y.p);
      if i == 0 && j == 0 {
        return 0;
      }
      if i > j {
        ValBound(Y.p, j);
        PowMono(j, i - 1);
        return s;
      }
      if j > i {
        ValBound(p, i);
        PowMono(i, j - 1);
        return -Y.s;
      }
      if s > 0 && Y.s < 0 {
        return 1;
      }
      if Y.s > 0 && s < 0 {
        return -1;
      }
      r := CmpLimbs(p, Y.p, i);
      r := if r > 0 then s else if r < 0 then -s else 0;
    }

    /** Compares with a small signed value. */
    method CmpInt(z: int) returns (r: int)
      requires Valid()
      requires -BASE / 2 <= z < BASE / 2
      ensures r == Sign(Int() - z)
    {
      var Y := new Mpi.FromInt(z);
      r := CmpMpi(Y);
    }

    /** Lets a pending carry run up the buffer, enlarging it when the carry leaves the top. */
    method CarryUp(start: nat, carry: Limb)
      requires start <= |p| && carry <= 1
      modifies `p
      ensures |p| >= old(|p|)
      ensures Abs() == old(Abs()) + Shl(carry, start)
    {
      var i: nat, c: Limb := start, carry;
      while c != 0
        invariant start <= i <= |p| && c <= 1 && |p| >= old(|p|)
        invariant Value(p) + Shl(c, i) == old(Value(p)) + Shl(carry, start)
        decreases c, |p| - i
      {
        if i >= |p| {
          Grow(i + 1);
        }
        var e := Add32(p[i], c);
        StoreStep(p, i, e, c, Bit(e < c), 0);
        ShlUnit(i);
        p := p[i := e];
        c := Bit(e < c);
        i := i + 1;
      }
      ShlUnit(i);
    }

    /** Adds the j lowest limbs of b, which may be this very object. */
    method AddDigits(b: Mpi, j: nat) returns (c: Limb)
      requires j <= |p| && j <= |b.p|
      modifies `p
      ensures c <= 1 && |p| == old(|p|)
      ensures Abs() + Shl(c, j) == old(Abs()) + Val(old(b.p), j)
    {
      ghost var y := b.p;
      var i: nat := 0;
      c := 0;
      // b's limb is read before the sum is stored over it
      while i < j
        invariant i <= j <= |p| && |b.p| == |y| && |p| == old(|p|) && c <= 1
        invariant forall k :: i <= k < |y| ==> b.p[k] == y[k]
        invariant Value(p) + Shl(c, i) == old(Value(p)) + Val(y, i)
      {
        var tmp := b.p[i];
        var d := p[i];
        var e := Add32(d, c);
        var c' := Bit(e < c);
        e := Add32(e, tmp);
        c' := c' + Bit(e < tmp);
        AddStep(p, i, c, tmp, e, c');
        p := p[i := e];
        c := c';
        i := i + 1;
      }
    }

    /** Unsigned addition, for every aliasing of the three operands. */
    method AddAbs(A: Mpi, B: Mpi)
      requires A.Valid() && B.Valid()
      modifies this
      ensures Valid() && s == 1
      ensures Abs() == old(A.Abs()) + old(B.Abs())
      ensures old(|A.p|) > 0 && old(|B.p|) > 0 ==> |p| >= old(|p|) && |p| > 0
    {
      var a, b := A, B;
      if this == B {
        a, b := this, A;
      }
      if this != a {
        Copy(a);
      }
      s := 1;
      var j := Used(b.p);
      ghost var y := b.p;
      Grow(j);
      assert b.p == y;
      var c := AddDigits(b, j);
      CarryUp(j, c);
    }

    /** Lets a pending borrow run up; a value that can pay for it stops it inside the buffer. */
    method BorrowUp(start: nat, borrow: Limb)
      requires start <= |p| && borrow <= 1
      requires Shl(borrow, start) <= Abs()
      modifies `p
      ensures |p| == old(|p|)
      ensures Abs() == old(Abs()) - Shl(borrow, start)
    {
      var i: nat, c: Limb := start, borrow;
      while c != 0
        invariant start <= i <= |p| && c <= 1 && |p| == old(|p|)
        invariant Value(p) - Shl(c, i) == old(Value(p)) - Shl(borrow, start)
        decreases c, |p| - i
      {
        ValBound(p, |p|);
        ShlUnit(i);
        var z := Bit(p[i] < c);
        var e := Sub32(p[i], c);
        StoreStep(p, i, e, -1, -(z as int), 0);
        ShlNeg(z, i + 1);
        p := p[i := e];
        c := z;
        i := i + 1;
      }
      ShlUnit(i);
    }

    /** Subtracts the n lowest limbs of v; the borrow dies out inside the buffer. */
    method SubHlp(n: nat, v: seq<Limb>)
      requires n <= |v| && n <= |p|
      requires Val(v, n) <= Abs()
      modifies `p
      ensures |p| == old(|p|)
      ensures Abs() == old(Abs()) - Val(v, n)
    {
      var i: nat, c: Limb := 0, 0;
      while i < n
        invariant i <= n && c <= 1 && |p| == old(|p|)
        invariant Value(p) - Shl(c, i) == old(Value(p)) - Val(v, i)
      {
        var z := Bit(p[i] < c);
        var e := Sub32(p[i], c);
        var c' := Bit(e < v[i]) + z;
        e := Sub32(e, v[i]);
        SubStep(p, i, c, v[i], e, c');
        p := p[i := e];
        c := c';
        i := i + 1;
      }
      BorrowUp(n, c);
    }

    /** Unsigned subtraction, refused when the result would be negative. */
    method SubAbs(A: Mpi, B: Mpi) returns (ret: int)
      requires A.Valid() && B.Valid()
      modifies this
      ensures ret == (if old(A.Abs()) < old(B.Abs()) then ERR_NEGATIVE_VALUE else OK)
      ensures ret == OK ==> Valid() && s == 1 && Abs() == old(A.Abs()) - old(B.Abs())
      ensures ret == OK && old(|A.p|) > 0 && old(|B.p|) > 0 ==> |p| >= old(|p|) && |p| > 0
      ensures ret != OK ==> s == old(s) && p == old(p)
    {
      hide Val, Pow, Shl;
      var r := A.CmpAbs(B);
      if r < 0 {
        return ERR_NEGATIVE_VALUE;
      }
      var b := B;
      if this == B {
        b := new Mpi();
        b.Copy(B);
      }
      if this != A {
        Copy(A);
      }
      s := 1;
      var n := Used(b.p);
      if n > |p| {
        ValBound(p, |p|);
        PowMono(|p|, n - 1);
        assert false;
      }
      SubHlp(n, b.p);
      return OK;
    }

    /** Signed addition, for every aliasing of the three operands. */
    method AddMpi(A: Mpi, B: Mpi)
      requires A.Valid() && B.Valid()
      modifies this
      ensures Valid() && Int() == old(A.Int()) + old(B.Int())
      ensures old(|A.p|) > 0 && old(|B.p|) > 0 ==> |p| >= old(|p|) && |p| > 0
    {
      var sa := A.s;
      if A.s * B.s < 0 {
        var r := A.CmpAbs(B);
        if r >= 0 {
          var ret := SubAbs(A, B);
          s := sa;
        } else {
          var ret := SubAbs(B, A);
          s := -sa;
        }
      } else {
        AddAbs(A, B);
        s := sa;
      }
    }

    /** Signed subtraction, for every aliasing of the three operands. */
    method SubMpi(A: Mpi, B: Mpi)
      requires A.Valid() && B.Valid()
      modifies this
      ensures Valid() && Int() == old(A.Int()) - old(B.Int())
      ensures old(|A.p|) > 0 && old(|B.p|) > 0 ==> |p| >= old(|p|) && |p| > 0
    {
      var sa := A.s;
      if A.s * B.s > 0 {
        var r := A.CmpAbs(B);
        if r >= 0 {
          var ret := SubAbs(A, B);
          s := sa;
        } else {
          var ret := SubAbs(B, A);
          s := -sa;
        }
      } else {
        AddAbs(A, B);
        s := sa;
      }
    }

    /** Adds b times the n lowest limbs of v at limb offset off. */
    method MulHlp(n: nat, v: seq<Limb>, off: nat, b: Limb)
      requires n <= |v| && off + n < |p|
      requires Abs() + Shl(Val(v, n) * b, off) < Pow(|p|)
      modifies `p
      ensures |p| == old(|p|) && p[..off] == old(p[..off])
      ensures Abs() == old(Abs()) + Shl(Val(v, n) * b, off)
    {
      var k: nat, c: Limb := 0, 0;
      ShlUnit(off);
      while k < n
        invariant k <= n && |p| == old(|p|) && p[..off] == old(p[..off])
        invariant Value(p) + Shl(c, off + k) == old(Value(p)) + Shl(Val(v, k) * b, off)
      {
        var e, c' := MulAddDouble(v[k], p[off + k], b, c);
        StoreStep(p, off + k, e, c, c', v[k] * b);
        RowStep(v, k, b, off);
        p := p[off + k := e];
        c := c';
        k := k + 1;
      }
      CarryInto(off + n, c);
    }

    /** Adds a limb at position start at least once, even when it is zero, and lets the carry run up. */
    method CarryInto(start: nat, carry: Limb)
      requires start < |p|
      requires Abs() + Shl(carry, start) < Pow(|p|)
      modifies `p
      ensures |p| == old(|p|) && p[..start] == old(p[..start])
      ensures Abs() == old(Abs()) + Shl(carry, start)
    {
      var j, c, again := start, carry, true;
      while again
        invariant start <= j <= |p| && (again ==> j < |p|) && (again <==> j == start || c != 0)
        invariant 0 <= c < BASE && (j > start ==> c <= 1)
        invariant |p| == old(|p|) && p[..start] == old(p[..start])
        invariant Value(p) + Shl(c, j) == old(Value(p)) + Shl(carry, start)
        decreases |p| - j
      {
        var e := Add32(p[j], c);
        var c' := Bit(e < c);
        StoreStep(p, j, e, c, c', 0);
        ShlUnit(j);
        p := p[j := e];
        c := c';
        j := j + 1;
        again := c != 0;
        ShlUnit(j);
      }
      ShlUnit(j);
    }

    /** Signed product, for every aliasing of the three operands. */
    method MulMpi(A: Mpi, B: Mpi)
      requires A.Valid() && B.Valid()
      modifies this
      ensures Valid() && Int() == old(A.Int()) * old(B.Int()) && Abs() == old(A.Abs()) * old(B.Abs())
      ensures |p| >= old(|p|) && |p| > 0
    {
      var a, b := A, B;
      if this == A {
        a := new Mpi();
        a.Copy(A);
      }
      if this == B {
        b := new Mpi();
        b.Copy(B);
      }
      MulRows(a, b);
      SignRule(a.s, b.s, Value(a.p), Value(b.p));
      s := a.s * b.s;
    }

    /** The rows of the schoolbook product, from the highest limb of b down. */
    method MulRows(a: Mpi, b: Mpi)
      requires this != a && this != b
      modifies this
      ensures Abs() == a.Abs() * b.Abs()
      ensures |p| >= old(|p|) && |p| > 0
    {
      var i := Used(a.p);
      var j := Used(b.p);
      Grow(i + j);
      Lset(0);
      ghost var top := j;
      while j > 0
        invariant 0 <= j <= top <= |b.p| && |p| >= old(|p|) && |p| > 0 && |p| >= i + top
        invariant i <= |a.p| && Val(a.p, i) == Value(a.p) && Val(b.p, top) == Value(b.p)
        invariant Value(p) == Val(a.p, i) * (Val(b.p, top) - Val(b.p, j))
      {
        ProductRoom(a.p, i, b.p, j, top, |p|);
        MulHlp(i, a.p, j - 1, b.p[j - 1]);
        j := j - 1;
      }
    }

    /** Product with one limb. */
    method MulInt(A: Mpi, b: Limb)
      requires A.Valid()
      modifies this
      ensures Valid() && Int() == old(A.Int()) * b && Abs() == old(A.Abs()) * b
      ensures |p| >= old(|p|) && |p| > 0
    {
      var B := new Mpi.FromLimb(b);
      MulMpi(A, B);
    }
  }

  /** The rule of signs, on sign and magnitude. */
  lemma SignRule(s: int, t: int, a: nat, b: nat)
    requires (s == 1 || s == -1) && (t == 1 || t == -1)
    ensures s * t == 1 || s * t == -1
    ensures (if s * t < 0 then -(a * b) else a * b) == (if s < 0 then -(a as int) else a) * (if t < 0 then -(b as int) else b)
  {
    assert (-(a as int)) * b == -(a * b) && a * (-(b as int)) == -(a * b) && (-(a as int)) * (-(b as int)) == a * b;
  }

  /** Each row of the schoolbook product fits the buffer of i + top limbs. */
  lemma ProductRoom(a: seq<Limb>, i: nat, b: seq<Limb>, j: nat, top: nat, room: nat)
    requires i <= |a| && 0 < j <= top <= |b| && i + top <= room
    ensures var done := Val(a, i) * (Val(b, top) - Val(b, j));
            var row := Shl(Val(a, i) * b[j - 1], j - 1);
            done + row == Val(a, i) * (Val(b, top) - Val(b, j - 1)) < Pow(room)
  {
    var av, bv := Val(a, i), Val(b, top);
    ShlTimes(av, b[j - 1], j - 1);
    DistSum(av, bv - Val(b, j), Shl(b[j - 1], j - 1));
    ValBound(a, i);
    ValBound(b, top);
    ValMono(b, j - 1, top);
    ProductBound(av, bv - Val(b, j - 1), Pow(i) - 1, Pow(top) - 1);
    PowAdd(i, top);
    PowMono(i + top, room);
    BelowProduct(Pow(i), Pow(top));
  }

  lemma BelowProduct(a: int, b: int)
    requires a > 0 && b > 0
    ensures (a - 1) * (b - 1) < a * b
  {
    assert (a - 1) * (b - 1) == a * b - a - b + 1;
  }
}
