/** Reading and writing big-endian bytes: byte j of the number lies in limb j / 4. */
module BignumBinary {
  import opened Limbs
  import opened Bits
  import opened Bytes
  import opened MachineWords
  import opened Bignum
  import opened BignumShift

  // ---------- limbs as bytes ----------

  function LimbBytes(p: seq<Limb>): (s: seq<Byte>)
    ensures |s| == 4 * |p| && forall j :: 0 <= j < |s| ==> s[j] == ByteOf(p[j / 4], j % 4)
  {
    seq<Byte>(4 * |p|, j requires 0 <= j < 4 * |p| => ByteOf(p[j / 4], j % 4))
  }

  /** The bytes in the opposite order. */
  function Backwards(b: seq<Byte>): (s: seq<Byte>)
    ensures |s| == |b| && forall j :: 0 <= j < |s| ==> s[j] == b[|b| - 1 - j]
  {
    seq<Byte>(|b|, j requires 0 <= j < |b| => b[|b| - 1 - j])
  }

  /** The number that big-endian bytes hold. */
  ghost function BytesValue(b: seq<Byte>): int {
    Le(Backwards(b), |b|)
  }

  lemma {:induction false} Sh8Scale(c: int, i: nat)
    ensures Sh8(BASE * c, i) == BASE * Sh8(c, i)
    decreases i
  {
    if i > 0 {
      Sh8Scale(256 * c, i - 1);
    }
  }

  lemma {:induction false} LimbWeight(c: int, i: nat)
    ensures Shl(c, i) == Sh8(c, 4 * i)
  {
    if i > 0 {
      LimbWeight(c, i - 1);
      Sh8Four(c, 4 * (i - 1));
      Sh8Scale(c, 4 * (i - 1));
    }
  }

  lemma LimbWord(p: seq<Limb>, k: nat)
    requires k < |p|
    ensures WordLe(LimbBytes(p), 4 * k) == p[k]
  {
    hide ByteOf;
    var s := LimbBytes(p);
    assert (4 * k + 1) / 4 == k && (4 * k + 2) / 4 == k && (4 * k + 3) / 4 == k;
    assert (4 * k + 1) % 4 == 1 && (4 * k + 2) % 4 == 2 && (4 * k + 3) % 4 == 3;
    PackOfBytes(p[k]);
  }

  /** The limbs and their bytes stand for one number. */
  lemma {:induction false} ValueBytes(p: seq<Limb>, k: nat)
    requires k <= |p|
    ensures Val(p, k) == Le(LimbBytes(p), 4 * k)
    decreases k
  {
    hide LimbBytes, WordLe;
    if k > 0 {
      ValueBytes(p, k - 1);
      LimbWeight(p[k - 1], k - 1);
      LeFour(LimbBytes(p), 4 * (k - 1));
      LimbWord(p, k - 1);
    }
  }

  lemma {:induction false} LeZeros(s: seq<Byte>, a: nat, b: nat)
    requires a <= b <= |s| && forall m :: a <= m < b ==> s[m] == 0
    ensures Le(s, a) == Le(s, b)
    decreases b
  {
    if a < b {
      LeZeros(s, a, b - 1);
      Sh8Zero(b - 1);
    }
  }

  lemma {:induction false} LeFloor(s: seq<Byte>, m: nat, n: nat)
    requires m < n <= |s|
    ensures Le(s, n) >= Sh8(s[m] as int, m)
    decreases n
  {
    LeBound(s, n - 1);
    if m < n - 1 {
      LeFloor(s, m, n - 1);
      Sh8Zero(n - 1);
      Sh8Mono(0, s[n - 1] as int, n - 1);
    }
  }

  lemma {:induction false} Sh8Grows(a: nat, b: nat)
    requires a <= b
    ensures Sh8(1, a) <= Sh8(1, b)
    decreases b
  {
    if a < b {
      Sh8Grows(a, b - 1);
      Sh8Zero(b - 1);
      Sh8Mono(0, 1, b - 1);
      Sh8Mono(1, 256, b - 1);
      assert Sh8(1, b) == Sh8(256, b - 1);
    }
  }

  lemma {:induction false} Sh8Two(n: nat)
    ensures Sh8(1, n) == Two(8 * n)
  {
    if n > 0 {
      Sh8Two(n - 1);
      Sh8Times(n - 1);
      TwoAdd(8, 8 * (n - 1));
      Two32();
    }
  }

  lemma {:induction false} Sh8Times(n: nat)
    ensures Sh8(1, n + 1) == 256 * Sh8(1, n)
  {
    Sh8Swap(1, n);
    var x := Sh8(1, n);
    assert Sh8(x, 1) == Sh8(256 * x, 0);
  }

  /** A number below 256^n has no byte from n on. */
  lemma HighBytesZero(s: seq<Byte>, n: nat, m: nat)
    requires n <= m < |s| && Le(s, |s|) < Sh8(1, n)
    ensures s[m] == 0
  {
    LeFloor(s, m, |s|);
    Sh8Grows(n, m);
    if s[m] > 0 {
      Sh8Mono(1, s[m] as int, m);
    }
  }

  // ---------- reading ----------

  /** The weight of byte k in a limb. */
  function Weight(k: nat): nat
    requires k < 4
  {
    if k == 0 then 1 else if k == 1 then 0x100 else if k == 2 then 0x1_0000 else 0x100_0000
  }

  lemma WeightTwo(k: nat)
    requires k < 4
    ensures Two(8 * k) == Weight(k)
  {
    Two32();
    TwoAdd(8, 16);
    assert Two(0) == 1;
  }

  /** A byte or-ed into a limb above the bytes that are there. */
  lemma OrByte(v: Limb, b: Byte, k: nat)
    requires k < 4 && forall m :: k <= m < 4 ==> ByteOf(v, m) == 0
    ensures b * Weight(k) >= 0
    ensures Or(v, b * Weight(k)) < BASE
    ensures var w := Or(v, b * Weight(k));
      forall m :: 0 <= m < 4 ==> ByteOf(w, m) == if m == k then b else ByteOf(v, m)
  {
    hide Or, ByteOf;
    WeightTwo(k);
    PackOfBytes(v);
    var b0, b1, b2, b3 := ByteOf(v, 0), ByteOf(v, 1), ByteOf(v, 2), ByteOf(v, 3);
    assert v < Weight(k) by { Below(b0, b1, b2, b3, k); }
    OrDisjoint(b, v, 8 * k);
    OrSwap(b * Weight(k), v);
    var c0, c1 := (if k == 0 then b else b0), (if k == 1 then b else b1);
    var c2, c3 := (if k == 2 then b else b2), (if k == 3 then b else b3);
    PackBytes(c0, c1, c2, c3);
    assert v + b * Weight(k) == Pack(c0, c1, c2, c3);
  }

  lemma Below(b0: Byte, b1: Byte, b2: Byte, b3: Byte, k: nat)
    requires k < 4 && (k <= 0 ==> b0 == 0) && (k <= 1 ==> b1 == 0) && (k <= 2 ==> b2 == 0) && b3 == 0
    ensures Pack(b0, b1, b2, b3) < Weight(k)
  {
  }

  /** The lowest j bytes are those of r; the others are zero. */
  ghost predicate Read(p: seq<Limb>, r: seq<Byte>, j: nat) {
    j <= |r| && j <= 4 * |p| && forall m :: 0 <= m < 4 * |p| ==> LimbBytes(p)[m] == if m < j then r[m] else 0
  }

  lemma ReadStep(p: seq<Limb>, r: seq<Byte>, j: nat, w: Limb)
    requires Read(p, r, j) && j < |r| && j < 4 * |p|
    requires forall m :: 0 <= m < 4 ==> ByteOf(w, m) == if m == j % 4 then r[j] else ByteOf(p[j / 4], m)
    ensures Read(p[j / 4 := w], r, j + 1)
  {
    hide ByteOf;
    var q := p[j / 4 := w];
    forall m | 0 <= m < 4 * |p|
      ensures LimbBytes(q)[m] == if m < j + 1 then r[m] else 0
    {
      assert LimbBytes(p)[m] == ByteOf(p[m / 4], m % 4);
      if m / 4 == j / 4 {
        SameLimb(m, j);
      }
    }
  }

  lemma SameLimb(m: nat, j: nat)
    requires m / 4 == j / 4
    ensures m % 4 == j % 4 <==> m == j
  {
  }

  lemma UpperZero(p: seq<Limb>, r: seq<Byte>, j: nat, m: nat)
    requires Read(p, r, j) && j < 4 * |p| && j % 4 <= m < 4
    ensures ByteOf(p[j / 4], m) == 0
  {
    hide ByteOf;
    var k := j / 4 * 4 + m;
    assert k / 4 == j / 4 && k % 4 == m;
    assert LimbBytes(p)[k] == 0;
  }

  /** mpi_read_binary: leading zero bytes take no limbs. */
  method ReadBinary(X: Mpi, buf: seq<Byte>) returns (ret: int)
    modifies X
    ensures ret == OK && X.Valid() && X.Int() == BytesValue(buf) && X.s == 1
  {
    hide Or, ByteOf, LimbBytes, Read;
    ret := OK;
    var n := 0;
    while n < |buf|
      invariant 0 <= n <= |buf| && forall k :: 0 <= k < n ==> buf[k] == 0
    {
      if buf[n] != 0 {
        break;
      }
      n := n + 1;
    }
    var r := Backwards(buf);
    var len: nat := |buf| - n;
    X.Grow(len / 4 + if len % 4 != 0 then 1 else 0);
    X.Lset(0);
    LimbRoom(len);
    Empty(X.p, r);
    var i, j: nat := |buf|, 0;
    while i > n
      invariant n <= i <= |buf| && j == |buf| - i && len <= 4 * |X.p| && X.s == 1
      invariant Read(X.p, r, j)
    {
      var k := j / 4;
      forall m | j % 4 <= m < 4
        ensures ByteOf(X.p[k], m) == 0
      {
        UpperZero(X.p, r, j, m);
      }
      OrByte(X.p[k], buf[i - 1], j % 4);
      var w := Or(X.p[k], buf[i - 1] * Weight(j % 4));
      assert buf[i - 1] == r[j];
      ReadStep(X.p, r, j, w);
      X.p := X.p[k := w];
      i, j := i - 1, j + 1;
    }
    ReadDone(X.p, r, j);
  }

  lemma LimbRoom(len: nat)
    ensures len <= 4 * (len / 4 + if len % 4 != 0 then 1 else 0)
  {
  }

  lemma Empty(p: seq<Limb>, r: seq<Byte>)
    requires forall k :: 0 <= k < |p| ==> p[k] == 0
    ensures Read(p, r, 0)
  {
    assert forall m :: 0 <= m < 4 ==> ByteOf(0, m) == 0;
  }

  lemma ReadDone(p: seq<Limb>, r: seq<Byte>, j: nat)
    requires Read(p, r, j) && forall m :: j <= m < |r| ==> r[m] == 0
    ensures Value(p) == Le(r, |r|)
  {
    hide ByteOf;
    var s := LimbBytes(p);
    ValueBytes(p, |p|);
    LeZeros(s, j, 4 * |p|);
    LeZeros(r, j, |r|);
    LeSame(s, r, j);
  }

  // ---------- writing ----------

  /** mpi_write_binary: it fails exactly when the magnitude needs more bytes than there are. */
  method WriteBinary(X: Mpi, buf: array<Byte>) returns (ret: int)
    modifies buf
    ensures ret == if X.Abs() < Sh8(1, buf.Length) then OK else ERR_BUFFER_TOO_SMALL
    ensures ret == OK ==> BytesValue(buf[..]) == X.Abs()
    ensures ret != OK ==> buf[..] == old(buf[..])
  {
    hide ByteOf, Sh8, Le;
    var bits := Bitlen(X);
    var n := (bits + 7) / 8;
    Sizes(X.Abs(), bits, buf.Length);
    if buf.Length < n {
      return ERR_BUFFER_TOO_SMALL;
    }
    FitsLimbs(bits, |X.p|);
    ghost var p := X.p;
    for k := 0 to buf.Length
      invariant forall m :: 0 <= m < k ==> buf[m] == 0
    {
      buf[k] := 0;
    }
    for j := 0 to n
      invariant forall m :: buf.Length - j <= m < buf.Length ==> buf[m] == ByteOf(p[(buf.Length - 1 - m) / 4], (buf.Length - 1 - m) % 4)
      invariant forall m :: 0 <= m < buf.Length - j ==> buf[m] == 0
    {
      buf[buf.Length - 1 - j] := ByteOf(X.p[j / 4], j % 4);
    }
    Written(p, buf[..], n);
    return OK;
  }

  /** The size in bytes against the room there is. */
  lemma Sizes(v: int, bits: nat, len: nat)
    requires v < Two(bits) && (bits > 0 ==> Two(bits - 1) <= v) && 0 <= v
    ensures len < (bits + 7) / 8 <==> v >= Sh8(1, len)
    ensures v < Sh8(1, (bits + 7) / 8)
  {
    hide Two, Sh8;
    var n := (bits + 7) / 8;
    assert bits <= 8 * n && (len < n <==> 8 * len < bits);
    Sh8Two(len);
    Sh8Two(n);
    TwoMono(bits, 8 * n);
    if len < n {
      TwoMono(8 * len, bits - 1);
    } else {
      TwoMono(bits, 8 * len);
    }
  }

  lemma FitsLimbs(bits: nat, k: nat)
    requires bits <= 32 * k
    ensures (bits + 7) / 8 <= 4 * k
  {
  }

  lemma Written(p: seq<Limb>, b: seq<Byte>, n: nat)
    requires n <= |b| && n <= 4 * |p| && Value(p) < Sh8(1, n)
    requires forall m :: |b| - n <= m < |b| ==> b[m] == ByteOf(p[(|b| - 1 - m) / 4], (|b| - 1 - m) % 4)
    requires forall m :: 0 <= m < |b| - n ==> b[m] == 0
    ensures BytesValue(b) == Value(p)
  {
    hide ByteOf, Sh8, Le;
    var s, r := LimbBytes(p), Backwards(b);
    ValueBytes(p, |p|);
    forall m | n <= m < |s|
      ensures s[m] == 0
    {
      HighBytesZero(s, n, m);
    }
    forall m | 0 <= m < n
      ensures s[m] == r[m]
    {
      assert r[m] == b[|b| - 1 - m];
    }
    LeSame(s, r, n);
    LeZeros(s, n, |s|);
    LeZeros(r, n, |r|);
  }

  /** Bytes of one length with one value are the same bytes: what was read is written back as it was. */
  lemma SameBytes(a: seq<Byte>, b: seq<Byte>)
    requires |a| == |b| && BytesValue(a) == BytesValue(b)
    ensures a == b
  {
    hide Le;
    var r, s := Backwards(a), Backwards(b);
    LeInjective(r, s, |a|);
    forall m | 0 <= m < |a|
      ensures a[m] == b[m]
    {
      assert r[..|a|][|a| - 1 - m] == s[..|a|][|a| - 1 - m];
      assert r[|a| - 1 - m] == a[m] && s[|a| - 1 - m] == b[m];
    }
  }

  /** A number read from bytes and written to as many bytes gives the same bytes. */
  method ReadThenWrite(buf: seq<Byte>) returns (ret: int, out: array<Byte>)
    ensures fresh(out) && ret == OK && out[..] == buf
  {
    hide Le, Sh8;
    var X := new Mpi();
    ret := ReadBinary(X, buf);
    out := new Byte[|buf|](_ => 0);
    LeBound(Backwards(buf), |buf|);
    ret := WriteBinary(X, out);
    SameBytes(out[..], buf);
  }
}
