/** Bytes, 16-byte blocks, exclusive or, and the numbers that blocks stand for. */
module Bytes {
  import Limbs

  const W32 := Limbs.BASE

  type Byte = x: int | 0 <= x < 256

  type Block = s: seq<Byte> | |s| == 16 witness [0, 0, 0, 0, 0, 0, 0, 0, 0, 0, 0, 0, 0, 0, 0, 0]

  /** A block cipher under one key. */
  type BlockFn = Block -> Block

  // ---------- exclusive or ----------

  /** Exclusive or, one binary digit at a time. */
  function XorNat(a: nat, b: nat): nat
    decreases a + b
  {
    if a == 0 && b == 0 then 0
    else (if a % 2 == b % 2 then 0 else 1) + 2 * XorNat(a / 2, b / 2)
  }

  lemma {:induction false} XorBound(a: nat, b: nat, n: nat)
    requires a < n && b < n && (n == 1 || n == 2 || n == 4 || n == 8 || n == 16 || n == 32 || n == 64 || n == 128 || n == 256)
    ensures XorNat(a, b) < n
    decreases n
  {
    if n > 1 {
      XorBound(a / 2, b / 2, n / 2);
    }
  }

  lemma {:induction false} XorNatUndo(a: nat, b: nat)
    ensures XorNat(XorNat(a, b), b) == a
    decreases a + b
  {
    if a != 0 || b != 0 {
      XorNatUndo(a / 2, b / 2);
      var x := XorNat(a, b);
      assert x / 2 == XorNat(a / 2, b / 2);
    }
  }

  lemma {:induction false} XorNatComm(a: nat, b: nat)
    ensures XorNat(a, b) == XorNat(b, a)
    decreases a + b
  {
    if a != 0 || b != 0 {
      XorNatComm(a / 2, b / 2);
    }
  }

  lemma {:induction false} XorNatZero(a: nat)
    ensures XorNat(a, 0) == a
  {
    if a != 0 {
      XorNatZero(a / 2);
    }
  }

  lemma {:induction false} XorNatAssoc(a: nat, b: nat, c: nat)
    ensures XorNat(XorNat(a, b), c) == XorNat(a, XorNat(b, c))
    decreases a + b + c
  {
    if a != 0 || b != 0 || c != 0 {
      XorNatAssoc(a / 2, b / 2, c / 2);
      XorDigits(a, b);
      XorDigits(b, c);
      XorDigits(XorNat(a, b), c);
      XorDigits(a, XorNat(b, c));
    }
  }

  lemma XorDigits(a: nat, b: nat)
    ensures XorNat(a, b) / 2 == XorNat(a / 2, b / 2)
    ensures XorNat(a, b) % 2 == if a % 2 == b % 2 then 0 else 1
  {
  }

  function Xor(a: Byte, b: Byte): Byte {
    XorBound(a, b, 256);
    XorNat(a, b)
  }

  lemma XorUndo(a: Byte, b: Byte)
    ensures Xor(Xor(a, b), b) == a && Xor(b, Xor(a, b)) == a && Xor(b, Xor(b, a)) == a
  {
    XorNatUndo(a, b);
    XorNatComm(b, XorNat(a, b));
    XorNatComm(a, b);
  }

  lemma XorComm(a: Byte, b: Byte)
    ensures Xor(a, b) == Xor(b, a)
  {
    XorNatComm(a, b);
  }

  lemma XorAssoc(a: Byte, b: Byte, c: Byte)
    ensures Xor(Xor(a, b), c) == Xor(a, Xor(b, c))
  {
    XorNatAssoc(a, b, c);
  }

  lemma XorZero(a: Byte)
    ensures Xor(a, 0) == a && Xor(0, a) == a
  {
    XorNatZero(a);
    XorNatComm(a, 0);
  }

  /** Exclusive or of byte strings of one length. */
  function XorSeq(a: seq<Byte>, b: seq<Byte>): (r: seq<Byte>)
    requires |a| == |b|
    ensures |r| == |a|
    ensures forall i :: 0 <= i < |r| ==> r[i] == Xor(a[i], b[i])
  {
    seq(|a|, i requires 0 <= i < |a| => Xor(a[i], b[i]))
  }

  function XorBlock(a: Block, b: Block): Block {
    XorSeq(a, b)
  }

  lemma XorSeqUndo(a: seq<Byte>, b: seq<Byte>)
    requires |a| == |b|
    ensures XorSeq(XorSeq(a, b), b) == a && XorSeq(b, XorSeq(b, a)) == a && XorSeq(b, XorSeq(a, b)) == a
  {
    hide Xor;
    forall i | 0 <= i < |a|
      ensures XorSeq(XorSeq(a, b), b)[i] == a[i] && XorSeq(b, XorSeq(b, a))[i] == a[i]
      ensures XorSeq(b, XorSeq(a, b))[i] == a[i]
    {
      XorUndo(a[i], b[i]);
    }
  }

  // ---------- blocks ----------

  /** The bytes of a block in the opposite order. */
  function Rev(s: Block): (r: Block)
    ensures forall i :: 0 <= i < 16 ==> r[i] == s[15 - i]
  {
    [s[15], s[14], s[13], s[12], s[11], s[10], s[9], s[8], s[7], s[6], s[5], s[4], s[3], s[2], s[1], s[0]]
  }

  lemma RevRev(s: Block)
    ensures Rev(Rev(s)) == s
  {
  }

  /** c * 256^i, kept linear. */
  ghost function Sh8(c: int, i: nat): int
    decreases i
  {
    if i == 0 then c else Sh8(256 * c, i - 1)
  }

  lemma {:induction false} Sh8Sum(a: int, b: int, i: nat)
    ensures Sh8(a + b, i) == Sh8(a, i) + Sh8(b, i)
    decreases i
  {
    if i > 0 {
      Sh8Sum(256 * a, 256 * b, i - 1);
    }
  }

  lemma {:induction false} Sh8Mono(a: int, b: int, i: nat)
    requires a <= b
    ensures Sh8(a, i) <= Sh8(b, i)
    ensures a < b ==> Sh8(a, i) < Sh8(b, i)
    decreases i
  {
    if i > 0 {
      Sh8Mono(256 * a, 256 * b, i - 1);
    }
  }

  lemma {:induction false} Sh8Zero(i: nat)
    ensures Sh8(0, i) == 0
  {
    if i > 0 {
      Sh8Zero(i - 1);
    }
  }

  /** The first n bytes as a number, least significant byte first. */
  ghost function Le(s: seq<Byte>, n: nat): int
    requires n <= |s|
  {
    if n == 0 then 0 else Le(s, n - 1) + Sh8(s[n - 1], n - 1)
  }

  lemma {:induction false} LeBound(s: seq<Byte>, n: nat)
    requires n <= |s|
    ensures 0 <= Le(s, n) < Sh8(1, n)
  {
    if n > 0 {
      LeBound(s, n - 1);
      Sh8Mono(0, s[n - 1], n - 1);
      Sh8Zero(n - 1);
      Sh8Sum(s[n - 1] as int, 1, n - 1);
      Sh8Mono((s[n - 1] as int) + 1, 256, n - 1);
    }
  }

  lemma {:induction false} LeSame(s: seq<Byte>, t: seq<Byte>, n: nat)
    requires n <= |s| && n <= |t| && forall i :: 0 <= i < n ==> s[i] == t[i]
    ensures Le(s, n) == Le(t, n)
  {
    if n > 0 {
      LeSame(s, t, n - 1);
    }
  }

  /** Byte strings of one length with one value are equal. */
  lemma {:induction false} LeInjective(s: seq<Byte>, t: seq<Byte>, n: nat)
    requires n <= |s| && n <= |t| && Le(s, n) == Le(t, n)
    ensures s[..n] == t[..n]
  {
    hide Sh8;
    if n > 0 {
      var a: int, b: int := s[n - 1], t[n - 1];
      LeBound(s, n - 1);
      LeBound(t, n - 1);
      Sh8Sum(a, 1, n - 1);
      Sh8Sum(b, 1, n - 1);
      if a < b {
        Sh8Mono(a + 1, b, n - 1);
      } else if b < a {
        Sh8Mono(b + 1, a, n - 1);
      }
      LeInjective(s, t, n - 1);
      assert s[..n] == s[..n - 1] + [s[n - 1]];
      assert t[..n] == t[..n - 1] + [t[n - 1]];
    }
  }

  const W128: int := 0x1_0000_0000_0000_0000_0000_0000_0000_0000

  lemma Sh8Sixteen()
    ensures Sh8(1, 16) == W128
  {
    assert Sh8(1, 16) == Sh8(0x100, 15) == Sh8(0x1_0000, 14);
    assert Sh8(0x1_0000, 14) == Sh8(0x100_0000, 13) == Sh8(0x1_0000_0000, 12);
    assert Sh8(0x1_0000_0000, 12) == Sh8(0x100_0000_0000, 11) == Sh8(0x1_0000_0000_0000, 10);
    assert Sh8(0x1_0000_0000_0000, 10) == Sh8(0x100_0000_0000_0000, 9) == Sh8(0x1_0000_0000_0000_0000, 8);
    var x := 0x1_0000_0000_0000_0000;
    assert Sh8(x, 8) == Sh8(0x100 * x, 7) == Sh8(0x1_0000 * x, 6);
    assert Sh8(0x1_0000 * x, 6) == Sh8(0x100_0000 * x, 5) == Sh8(0x1_0000_0000 * x, 4);
    assert Sh8(0x1_0000_0000 * x, 4) == Sh8(0x100_0000_0000 * x, 3) == Sh8(0x1_0000_0000_0000 * x, 2);
    assert Sh8(0x1_0000_0000_0000 * x, 2) == Sh8(0x100_0000_0000_0000 * x, 1) == Sh8(x * x, 0);
  }

  /** The 128-bit number of a block, least significant byte first. */
  ghost function LeValue(s: Block): (v: int)
    ensures 0 <= v < W128
  {
    LeBound(s, 16);
    Sh8Sixteen();
    Le(s, 16)
  }

  /** The 128-bit number of a block, most significant byte first. */
  ghost function BeValue(s: Block): int {
    LeValue(Rev(s))
  }

  lemma LeValueInjective(s: Block, t: Block)
    requires LeValue(s) == LeValue(t)
    ensures s == t
  {
    LeInjective(s, t, 16);
    assert s[..16] == s && t[..16] == t;
  }

  /** The first n bytes of a number. */
  function Digits(v: nat, n: nat): (s: seq<Byte>)
    ensures |s| == n
  {
    if n == 0 then [] else [v % 256] + Digits(v / 256, n - 1)
  }

  lemma {:induction false} LeCons(b: Byte, s: seq<Byte>, n: nat)
    requires n <= |s|
    ensures Le([b] + s, n + 1) == b + Sh8(Le(s, n), 1)
  {
    if n > 0 {
      LeCons(b, s, n - 1);
      var c: int := s[n - 1];
      Sh8Swap(c, n - 1);
      assert ([b] + s)[n] == c;
      assert Le([b] + s, n + 1) == Le([b] + s, n) + Sh8(c, n);
      Sh8Sum(Le(s, n - 1), Sh8(c, n - 1), 1);
    } else {
      assert Le([b] + s, 0) == 0;
      assert Le([b] + s, 1) == Sh8(b, 0);
      assert Sh8(0, 1) == Sh8(0, 0);
    }
  }

  lemma {:induction false} Sh8Swap(c: int, i: nat)
    ensures Sh8(c, i + 1) == Sh8(Sh8(c, i), 1)
    decreases i
  {
    if i > 0 {
      Sh8Swap(256 * c, i - 1);
    } else {
      assert Sh8(c, 1) == Sh8(256 * c, 0);
    }
  }

  /** Writing a number in n bytes and reading it back loses only what does not fit. */
  lemma {:induction false} DigitsValue(v: nat, n: nat)
    requires v < Sh8(1, n)
    ensures Le(Digits(v, n), n) == v
  {
    if n > 0 {
      DivBelow(v, n);
      DigitsValue(v / 256, n - 1);
      LeCons(v % 256, Digits(v / 256, n - 1), n - 1);
      assert Sh8(v / 256, 1) == Sh8(256 * (v / 256), 0);
    }
  }

  lemma {:induction false} DivBelow(v: nat, n: nat)
    requires n > 0 && v < Sh8(1, n)
    ensures v / 256 < Sh8(1, n - 1)
  {
    Sh8Swap(1, n - 1);
    var x := Sh8(1, n - 1);
    assert Sh8(x, 1) == Sh8(256 * x, 0);
  }

  function ToLe(v: nat): Block
    requires v < W128
  {
    Digits(v, 16)
  }

  lemma ToLeValue(v: nat)
    requires v < W128
    ensures LeValue(ToLe(v)) == v
  {
    Sh8Sixteen();
    DigitsValue(v, 16);
  }

  // ---------- parts of buffers ----------

  /** s with the bytes from off on replaced by t. */
  function Splice(s: seq<Byte>, off: nat, t: seq<Byte>): (r: seq<Byte>)
    requires off + |t| <= |s|
    ensures |r| == |s|
    ensures forall i :: 0 <= i < |s| ==> r[i] == if off <= i < off + |t| then t[i - off] else s[i]
  {
    s[..off] + t + s[off + |t|..]
  }

  lemma SpliceTwice(s: seq<Byte>, off: nat, t: seq<Byte>, u: seq<Byte>)
    requires off + |t| + |u| <= |s|
    ensures Splice(Splice(s, off, t), off + |t|, u) == Splice(s, off, t + u)
  {
  }

  lemma SpliceWhole(s: seq<Byte>, t: seq<Byte>)
    requires |s| == |t|
    ensures Splice(s, 0, t) == t
  {
  }

  /** A slice of a slice. */
  lemma SubSlice(s: seq<Byte>, a: nat, n: nat, i: nat, j: nat)
    requires i <= j <= n && a + n <= |s|
    ensures s[a..a + n][i..j] == s[a + i..a + j]
  {
    var t, u := s[a..a + n][i..j], s[a + i..a + j];
    forall k | 0 <= k < j - i
      ensures t[k] == u[k]
    {
      assert t[k] == s[a..a + n][i + k];
    }
  }

  /** From byte i of the input on, s at off still holds x. */
  ghost predicate Remains(s: seq<Byte>, x: seq<Byte>, off: nat, i: nat) {
    i <= |x| && off + |x| <= |s| && s[off + i..off + |x|] == x[i..]
  }

  lemma Reads(s: seq<Byte>, x: seq<Byte>, off: nat, i: nat, k: nat)
    requires Remains(s, x, off, i) && i + k <= |x|
    ensures s[off + i..off + i + k] == x[i..i + k] && Remains(s, x, off, i + k)
  {
    assert s[off + i..off + i + k] == s[off + i..off + |x|][..k];
    assert s[off + i + k..off + |x|] == s[off + i..off + |x|][k..];
    assert x[i..i + k] == x[i..][..k];
    assert x[i + k..] == x[i..][k..];
  }

  lemma StillReads(s: seq<Byte>, x: seq<Byte>, off: nat, i: nat, t: seq<Byte>)
    requires Remains(s, x, off, i + |t|)
    ensures Remains(Splice(s, off + i, t), x, off, i + |t|)
  {
  }

  lemma ReadsAll(s: seq<Byte>, x: seq<Byte>, off: nat)
    requires off + |x| <= |s| && x == s[off..off + |x|]
    ensures Remains(s, x, off, 0)
  {
    assert x[0..] == x;
  }

  // ---------- a run over a buffer, in place or into another ----------

  /** The state of a run: i bytes are done, done holds their text. */
  ghost predicate Midway(x: seq<Byte>, was: seq<Byte>, now: seq<Byte>, outOff: nat, src: seq<Byte>, inOff: nat,
                         i: nat, done: seq<Byte>) {
    |done| == i <= |x| && outOff + |x| <= |was| && now == Splice(was, outOff, done) && Remains(src, x, inOff, i)
  }

  lemma MidwayStart(x: seq<Byte>, was: seq<Byte>, outOff: nat, src: seq<Byte>, inOff: nat)
    requires outOff + |x| <= |was| && inOff + |x| <= |src| && x == src[inOff..inOff + |x|]
    ensures Midway(x, was, was, outOff, src, inOff, 0, [])
  {
    ReadsAll(src, x, inOff);
  }

  /** k more bytes, written where they were read or to another buffer. */
  lemma MidwayStep(x: seq<Byte>, was: seq<Byte>, now: seq<Byte>, outOff: nat, src: seq<Byte>, inOff: nat,
                   i: nat, done: seq<Byte>, t: seq<Byte>)
    requires Midway(x, was, now, outOff, src, inOff, i, done) && i + |t| <= |x|
    ensures src[inOff + i..inOff + i + |t|] == x[i..i + |t|]
    ensures var now' := Splice(now, outOff + i, t);
      && Midway(x, was, now', outOff, src, inOff, i + |t|, done + t)
      && (src == now && inOff == outOff ==> Midway(x, was, now', outOff, now', inOff, i + |t|, done + t))
  {
    hide Splice, Remains;
    Reads(src, x, inOff, i, |t|);
    SpliceTwice(was, outOff, done, t);
    if src == now && inOff == outOff {
      StillReads(now, x, inOff, i, t);
    }
  }

  lemma MidwayEnd(x: seq<Byte>, was: seq<Byte>, now: seq<Byte>, outOff: nat, src: seq<Byte>, inOff: nat, done: seq<Byte>)
    requires Midway(x, was, now, outOff, src, inOff, |x|, done)
    ensures now == Splice(was, outOff, done)
  {
  }

  // ---------- words ----------

  /** The word at i, least significant byte first. */
  function WordLe(s: seq<Byte>, i: nat): (w: int)
    requires i + 4 <= |s|
    ensures 0 <= w < 0x1_0000_0000
  {
    var b0: int, b1: int, b2: int, b3: int := s[i], s[i + 1], s[i + 2], s[i + 3];
    b0 + 0x100 * b1 + 0x1_0000 * b2 + 0x100_0000 * b3
  }

  lemma Sh8Four(c: int, i: nat)
    ensures Sh8(c, i + 4) == Sh8(0x1_0000_0000 * c, i)
  {
    assert Sh8(c, i + 4) == Sh8(256 * c, i + 3) == Sh8(0x1_0000 * c, i + 2) == Sh8(0x100_0000 * c, i + 1);
  }

  lemma LeFour(s: seq<Byte>, i: nat)
    requires i + 4 <= |s|
    ensures Le(s, i + 4) == Le(s, i) + Sh8(WordLe(s, i), i)
  {
    var b0: int, b1: int, b2: int, b3: int := s[i], s[i + 1], s[i + 2], s[i + 3];
    assert Sh8(b1, i + 1) == Sh8(0x100 * b1, i);
    assert Sh8(b2, i + 2) == Sh8(0x100 * b2, i + 1) == Sh8(0x1_0000 * b2, i);
    assert Sh8(b3, i + 3) == Sh8(0x100 * b3, i + 2) == Sh8(0x1_0000 * b3, i + 1) == Sh8(0x100_0000 * b3, i);
    Sh8Sum(b0, 0x100 * b1, i);
    Sh8Sum(b0 + 0x100 * b1, 0x1_0000 * b2, i);
    Sh8Sum(b0 + 0x100 * b1 + 0x1_0000 * b2, 0x100_0000 * b3, i);
    assert Le(s, i + 4) == Le(s, i + 3) + Sh8(b3, i + 3);
    assert Le(s, i + 3) == Le(s, i + 2) + Sh8(b2, i + 2);
    assert Le(s, i + 2) == Le(s, i + 1) + Sh8(b1, i + 1);
    assert Le(s, i + 1) == Le(s, i) + Sh8(b0, i);
  }

  /** A block's number from its four words. */
  lemma LeWords(s: Block)
    ensures LeValue(s) == WordLe(s, 0) + 0x1_0000_0000 * WordLe(s, 4)
      + 0x1_0000_0000_0000_0000 * WordLe(s, 8) + 0x1_0000_0000_0000_0000_0000_0000 * WordLe(s, 12)
  {
    hide WordLe;
    LeFour(s, 0);
    LeFour(s, 4);
    LeFour(s, 8);
    LeFour(s, 12);
    var w1, w2, w3 := WordLe(s, 4), WordLe(s, 8), WordLe(s, 12);
    Sh8Four(w1, 0);
    Sh8Four(w2, 4);
    Sh8Four(0x1_0000_0000 * w2, 0);
    Sh8Four(w3, 8);
    Sh8Four(0x1_0000_0000 * w3, 4);
    Sh8Four(0x1_0000_0000_0000_0000 * w3, 0);
  }
}
