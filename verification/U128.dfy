/** 128-bit numbers as 16 bytes, least significant first, changed in place. */
module U128 {
  import opened Bytes
  import Bits
  import Limbs

  // ---------- addition and subtraction ----------

  /** One byte of an addition: the sum so far moves up by one byte. */
  lemma AddByte(a0: seq<Byte>, b0: seq<Byte>, a: seq<Byte>, a': seq<Byte>, i: nat, carry: int, sum: int)
    requires i < |a0| == |b0| == |a| == |a'|
    requires Le(a, i) + Sh8(carry, i) == Le(a0, i) + Le(b0, i)
    requires sum == a0[i] + b0[i] + carry && sum >= 0
    requires a'[i] == sum % 256 && forall j :: 0 <= j < i ==> a'[j] == a[j]
    ensures Le(a', i + 1) + Sh8(sum / 256, i + 1) == Le(a0, i + 1) + Le(b0, i + 1)
  {
    hide Sh8;
    LeSame(a', a, i);
    var q: int, r: int := sum / 256, sum % 256;
    assert Sh8(q, i + 1) == Sh8(256 * q, i) by { Sh8Up(q, i); }
    Sh8Sum(r, 256 * q, i);
    Sh8Sum(a0[i] as int + b0[i], carry, i);
    Sh8Sum(a0[i] as int, b0[i] as int, i);
    LeTop(a', i);
    LeTop(a0, i);
    LeTop(b0, i);
  }

  /** One byte of a subtraction. */
  lemma SubByte(a0: seq<Byte>, b0: seq<Byte>, a: seq<Byte>, a': seq<Byte>, i: nat, borrow: int, borrow': int)
    requires i < |a0| == |b0| == |a| == |a'|
    requires Le(a, i) - Sh8(borrow, i) == Le(a0, i) - Le(b0, i)
    requires a'[i] - 256 * borrow' == a0[i] - b0[i] - borrow && forall j :: 0 <= j < i ==> a'[j] == a[j]
    ensures Le(a', i + 1) - Sh8(borrow', i + 1) == Le(a0, i + 1) - Le(b0, i + 1)
  {
    hide Sh8;
    LeSame(a', a, i);
    assert Sh8(borrow', i + 1) == Sh8(256 * borrow', i) by { Sh8Up(borrow', i); }
    var x: int := a'[i];
    Sh8Sum(x + b0[i], borrow, i);
    Sh8Sum(x, b0[i] as int, i);
    Sh8Sum(a0[i] as int, 256 * borrow', i);
    LeTop(a', i);
    LeTop(a0, i);
    LeTop(b0, i);
  }

  lemma Sh8Up(c: int, i: nat)
    ensures Sh8(c, i + 1) == Sh8(256 * c, i)
  {
  }

  lemma LeTop(s: seq<Byte>, i: nat)
    requires i < |s|
    ensures Le(s, i + 1) == Le(s, i) + Sh8(s[i] as int, i)
  {
  }

  lemma SumMod(x: int, r: int, q: int)
    requires x == r + W128 * q && 0 <= r < W128
    ensures x % W128 == r
  {
  }

  lemma CarryOut(c: int)
    requires 0 <= c <= 1
    ensures Sh8(c, 16) == W128 * c
  {
    hide Sh8;
    Sh8Sixteen();
    Sh8Zero(16);
  }

  lemma LeIs(s: Block)
    ensures LeValue(s) == Le(s, 16)
  {
  }

  /** The sum modulo 2^128 and the carry out. */
  lemma AddResult(a0: Block, b0: Block, a: Block, carry: int)
    requires 0 <= carry <= 1
    requires Le(a, 16) + Sh8(carry, 16) == Le(a0, 16) + Le(b0, 16)
    ensures LeValue(a) == (LeValue(a0) + LeValue(b0)) % W128
  {
    hide Sh8, Le, LeValue;
    LeIs(a0);
    LeIs(b0);
    LeIs(a);
    CarryOut(carry);
    SumMod(LeValue(a0) + LeValue(b0), LeValue(a), carry);
  }

  lemma SubResult(a0: Block, b0: Block, a: Block, borrow: int)
    requires 0 <= borrow <= 1
    requires Le(a, 16) - Sh8(borrow, 16) == Le(a0, 16) - Le(b0, 16)
    ensures LeValue(a) == (LeValue(a0) - LeValue(b0)) % W128
  {
    hide Sh8, Le, LeValue;
    LeIs(a0);
    LeIs(b0);
    LeIs(a);
    CarryOut(borrow);
    SumMod(LeValue(a0) - LeValue(b0), LeValue(a), -borrow);
  }

  /** Adds b to a; the two may be the same number. */
  method Add(a: array<Byte>, b: array<Byte>)
    requires a.Length == 16 && b.Length == 16
    modifies a
    ensures LeValue(a[..]) == (old(LeValue(a[..])) + old(LeValue(b[..]))) % W128
  {
    hide Sh8, Le;
    ghost var a0, b0 := a[..], b[..];
    var carry: Byte := 0;
    assert Le(a[..], 0) + Sh8(carry, 0) == Le(a0, 0) + Le(b0, 0) by { Start(a0, b0); }
    for i := 0 to 16
      invariant carry <= 1
      invariant forall j :: i <= j < 16 ==> a[j] == a0[j] && b[j] == b0[j]
      invariant Le(a[..], i) + Sh8(carry as int, i) == Le(a0, i) + Le(b0, i)
    {
      ghost var before := a[..];
      var sum := a[i] + b[i] + carry;
      a[i] := sum % 256;
      AddByte(a0, b0, before, a[..], i, carry, sum);
      carry := sum / 256;
    }
    AddResult(a0, b0, a[..], carry);
  }

  lemma Start(s: seq<Byte>, t: seq<Byte>)
    ensures Le(s, 0) == 0 && Le(t, 0) == 0 && Sh8(0, 0) == 0
  {
  }

  lemma WideDifference(d: int)
    requires -256 <= d < 256
    ensures d % 0x1_0000 % 256 == (if d < 0 then d + 256 else d)
    ensures d % 0x1_0000 / 256 == (if d < 0 then 255 else 0)
  {
    var x := if d < 0 then d + 0x1_0000 else d;
    assert d % 0x1_0000 == x;
  }

  /** Takes b from a; the difference is 16 bits wide, so a borrow shows as 0xFF in its high byte. */
  method Sub(a: array<Byte>, b: array<Byte>)
    requires a.Length == 16 && b.Length == 16
    modifies a
    ensures LeValue(a[..]) == (old(LeValue(a[..])) - old(LeValue(b[..]))) % W128
  {
    hide Sh8, Le;
    ghost var a0, b0 := a[..], b[..];
    var carry: Byte := 0;
    assert Le(a[..], 0) - Sh8(carry % 2, 0) == Le(a0, 0) - Le(b0, 0) by { Start(a0, b0); }
    for i := 0 to 16
      invariant carry == 0 || carry == 255
      invariant forall j :: i <= j < 16 ==> a[j] == a0[j] && b[j] == b0[j]
      invariant Le(a[..], i) - Sh8(carry % 2, i) == Le(a0, i) - Le(b0, i)
    {
      ghost var before := a[..];
      var sub := (a[i] - b[i] - carry % 2) % 0x1_0000;
      ghost var borrow := if a[i] - b[i] - carry % 2 < 0 then 1 else 0;
      WideDifference(a[i] - b[i] - carry % 2);
      a[i] := sub % 256;
      SubByte(a0, b0, before, a[..], i, carry % 2, borrow);
      carry := sub / 256;
    }
    SubResult(a0, b0, a[..], carry % 2);
  }

  /** v shifted down by i bytes. */
  function Down8(v: nat, i: nat): nat
    decreases i
  {
    if i == 0 then v else Down8(v / 256, i - 1)
  }

  lemma {:induction false} DigitAt(v: nat, n: nat, i: nat)
    requires i < n
    ensures Digits(v, n)[i] == Down8(v, i) % 256
    decreases n
  {
    if i > 0 {
      DigitAt(v / 256, n - 1, i - 1);
    }
  }

  lemma {:induction false} ZeroDigits(n: nat)
    ensures forall i :: 0 <= i < n ==> Digits(0, n)[i] == 0
  {
    if n > 0 {
      ZeroDigits(n - 1);
    }
  }

  /** A number below 2^32 fills four bytes; the rest are zero. */
  lemma WordDigits(v: nat, s: Block)
    requires v < 0x1_0000_0000
    requires forall i :: 0 <= i < 4 ==> s[i] == Down8(v, i) % 256
    requires forall i :: 4 <= i < 16 ==> s[i] == 0
    ensures LeValue(s) == v
  {
    forall i | 0 <= i < 16
      ensures s[i] == Digits(v, 16)[i]
    {
      DigitAt(v, 16, i);
      if 4 <= i {
        assert Down8(v, i) == 0 by { DownZero(v, i); }
      }
    }
    assert s == ToLe(v);
    ToLeValue(v);
  }

  lemma DownZero(v: nat, i: nat)
    requires v < 0x1_0000_0000 && 4 <= i
    ensures Down8(v, i) == 0
  {
    var x := v / 256 / 256 / 256 / 256;
    assert Down8(v, i) == Down8(v / 256, i - 1) == Down8(v / 256 / 256, i - 2);
    assert Down8(v / 256 / 256, i - 2) == Down8(v / 256 / 256 / 256, i - 3) == Down8(x, i - 4);
    assert x == 0;
    DownOfZero(i - 4);
  }

  lemma {:induction false} DownOfZero(i: nat)
    ensures Down8(0, i) == 0
  {
    if i > 0 {
      DownOfZero(i - 1);
    }
  }

  /** Adds a 32-bit number. */
  method Add32(a: array<Byte>, v: nat)
    requires a.Length == 16 && v < 0x1_0000_0000
    modifies a
    ensures LeValue(a[..]) == (old(LeValue(a[..])) + v) % W128
  {
    hide Down8, LeValue;
    var b := new Byte[16](_ => 0);
    for i := 0 to 4
      invariant forall j :: 0 <= j < i ==> b[j] == Down8(v, j) % 256
      invariant forall j :: i <= j < 16 ==> b[j] == 0
      invariant a[..] == old(a[..])
    {
      b[i] := Down8(v, i) % 256;
    }
    WordDigits(v, b[..]);
    Add(a, b);
  }

  /** Exclusive or in place. */
  method XorWith(a: array<Byte>, b: array<Byte>)
    requires a.Length == 16 && b.Length == 16 && a != b
    modifies a
    ensures a[..] == XorBlock(old(a[..]), b[..])
  {
    hide Xor;
    for i := 0 to 16
      invariant forall j :: 0 <= j < i ==> a[j] == Xor(old(a[j]), b[j])
      invariant forall j :: i <= j < 16 ==> a[j] == old(a[j])
    {
      a[i] := Xor(a[i], b[i]);
    }
  }

  /** Reverses the bytes into another number. */
  method Swap(out: array<Byte>, inp: array<Byte>)
    requires out.Length == 16 && inp.Length == 16 && out != inp
    modifies out
    ensures out[..] == Rev(inp[..])
  {
    for i := 0 to 16
      invariant forall j :: 0 <= j < i ==> out[15 - j] == inp[j]
    {
      out[15 - i] := inp[i];
    }
    forall k | 0 <= k < 16
      ensures out[k] == inp[15 - k]
    {
      assert out[15 - (15 - k)] == inp[15 - k];
    }
  }

  // ---------- rotation ----------

  /** Byte position i + c around the block. */
  function Turn(i: nat, c: nat): (r: nat)
    ensures r < 16
  {
    (i + c) % 16
  }

  /** a << b, cut to a byte. */
  function Up(a: Byte, b: nat): Byte
    requires b <= 8
  {
    Limbs.MulMono(0, a, Bits.Two(b));
    a * Bits.Two(b) % 256
  }

  /** a >> b. */
  function Down(a: Byte, b: nat): (r: Byte)
    requires b <= 8
  {
    Bits.DivBounds(a, Bits.Two(b));
    DivLess(a, Bits.Two(b));
    a / Bits.Two(b)
  }

  lemma DivLess(x: nat, d: nat)
    requires d > 0
    ensures 0 <= x / d <= x
  {
    Bits.DivBounds(x, d);
    if x / d >= 0 {
      Limbs.MulMono(1, d, x / d);
    }
  }

  /** The byte of a left shift by b that takes its low bits from the byte below. */
  function LeftByte(a: Byte, below: Byte, b: nat): Byte
    requires b < 8
  {
    Joined(a, below, b);
    Bits.Or(Up(a, b), Down(below, 8 - b))
  }

  /** The byte of a right shift by b that takes its high bits from the byte above. */
  function RightByte(a: Byte, above: Byte, b: nat): Byte
    requires b < 8
  {
    Joined(above, a, 8 - b);
    OrComm(Down(a, b), Up(above, 8 - b));
    Bits.Or(Down(a, b), Up(above, 8 - b))
  }

  lemma {:induction false} OrComm(a: nat, b: nat)
    ensures Bits.Or(a, b) == Bits.Or(b, a)
    decreases a + b
  {
    if a != 0 || b != 0 {
      OrComm(a / 2, b / 2);
    }
  }

  lemma Split256(b: nat)
    requires b <= 8
    ensures Bits.Two(b) * Bits.Two(8 - b) == 256 && Bits.Two(b) > 0 && Bits.Two(8 - b) > 0
  {
    Bits.TwoAdd(b, 8 - b);
    Bits.Two32();
  }

  /** x is a high part, b digits up, and a low part of b digits. */
  ghost predicate Packs(x: int, hi: int, lo: int, b: nat) {
    x == hi * Bits.Two(b) + lo && 0 <= lo < Bits.Two(b) && 0 <= hi
  }

  lemma UnpackHigh(x: int, hi: int, lo: int, b: nat)
    requires Packs(x, hi, lo, b)
    ensures x / Bits.Two(b) == hi && x % Bits.Two(b) == lo && x >= 0
  {
    var d := Bits.Two(b);
    Limbs.MulMono(0, hi, d);
    Limbs.MulSwap(1, d, hi);
    Bits.DivUnique(x, d, hi, lo);
  }

  /** Every number packs into its quotient and its remainder. */
  lemma PackSelf(x: nat, b: nat)
    ensures x % Bits.Two(b) >= 0 && Packs(x, x / Bits.Two(b), x % Bits.Two(b), b)
  {
    Bits.DivBounds(x, Bits.Two(b));
    Limbs.MulSwap(1, Bits.Two(b), x / Bits.Two(b));
    DivLess(x, Bits.Two(b));
  }

  /** A packing with a short enough high part is a byte. */
  lemma PackedByte(x: int, hi: int, lo: int, b: nat)
    requires b <= 8 && Packs(x, hi, lo, b) && hi < Bits.Two(8 - b)
    ensures 0 <= x < 256
  {
    Split256(b);
    var d, e := Bits.Two(b), Bits.Two(8 - b);
    Limbs.MulMono(0, hi, d);
    Limbs.MulMono(hi + 1, e, d);
    Limbs.DistSum(hi, 1, d);
    Limbs.MulSwap(1, d, e);
  }

  /** Shifting up keeps the low part of the byte. */
  lemma UpKeepsLow(a: Byte, b: nat)
    requires b <= 8
    ensures a % Bits.Two(8 - b) >= 0
    ensures Packs(Up(a, b), a % Bits.Two(8 - b), 0, b)
  {
    hide Bits.Two, Packs;
    Split256(b);
    var d, e := Bits.Two(b), Bits.Two(8 - b);
    PackSelf(a, 8 - b);
    LowPart(a, a / e, a % e, b);
  }

  lemma LowPart(a: Byte, q: int, r: int, b: nat)
    requires b <= 8 && Packs(a, q, r, 8 - b)
    ensures Packs(Up(a, b), r, 0, b)
  {
    hide Bits.Two;
    Split256(b);
    var d, e := Bits.Two(b), Bits.Two(8 - b);
    ScaledParts(a, q, r, d, e);
    Limbs.MulMono(0, r, d);
    PackedByte(r * d, r, 0, b);
    Bits.DivUnique(a * d, 256, q, r * d);
  }

  lemma ScaledParts(a: int, q: int, r: int, d: int, e: int)
    requires a == q * e + r && d * e == 256
    ensures a * d == 256 * q + r * d
  {
    Limbs.DistSum(q * e, r, d);
    Limbs.MulSwap(q, e, d);
    assert (q * e) * d == q * (d * e);
  }

  lemma DownShort(a: Byte, b: nat)
    requires b <= 8
    ensures Down(a, b) == a / Bits.Two(b) && Down(a, b) < Bits.Two(8 - b)
  {
    hide Bits.Two;
    Split256(b);
    var d, e := Bits.Two(b), Bits.Two(8 - b);
    Bits.DivBounds(a, d);
    Limbs.MulSwap(1, d, e);
    Limbs.MulSwap(1, d, a / d);
    if a / d >= e {
      Limbs.MulMono(e, a / d, d);
    }
  }

  /** The or of the two shifts joins the low part of the one byte and the high part of the other. */
  lemma Joined(a: Byte, other: Byte, b: nat)
    requires b <= 8
    ensures a % Bits.Two(8 - b) >= 0
    ensures var x := Bits.Or(Up(a, b), Down(other, 8 - b));
      Packs(x, a % Bits.Two(8 - b), other / Bits.Two(8 - b), b) && 0 <= x < 256
  {
    hide Bits.Two, Up, Down, Packs;
    UpKeepsLow(a, b);
    DownShort(other, 8 - b);
    var hi, lo := a % Bits.Two(8 - b), Down(other, 8 - b);
    OrPacks(Up(a, b), hi, lo, b);
    LowBelow(a, 8 - b);
    PackedByte(Bits.Or(Up(a, b), lo), hi, lo, b);
  }

  lemma LowBelow(a: nat, b: nat)
    ensures 0 <= a % Bits.Two(b) < Bits.Two(b)
  {
  }

  lemma OrPacks(x: nat, hi: nat, lo: nat, b: nat)
    requires Packs(x, hi, 0, b) && lo < Bits.Two(b)
    ensures Packs(Bits.Or(x, lo), hi, lo, b)
  {
    hide Bits.Two, Bits.Or;
    Bits.OrDisjoint(hi, lo, b);
  }

  /** Rotation towards more significant bytes. */
  function Lrot(s: Block, n: nat): Block {
    var c, b := (n / 8) % 16, n % 8;
    seq(16, k requires 0 <= k < 16 => LeftByte(s[Turn(k, 16 - c)], s[Turn(k, 31 - c)], b))
  }

  /** Rotation towards less significant bytes. */
  function Rrot(s: Block, n: nat): Block {
    var c, b := n / 8, n % 8;
    seq(16, k requires 0 <= k < 16 => RightByte(s[Turn(k, c)], s[Turn(k, c + 1)], b))
  }

  lemma TurnTurn(i: nat, c: nat, d: nat)
    ensures Turn(Turn(i, c), d) == Turn(i, c + d)
  {
  }

  lemma TurnWhole(i: nat, c: nat, d: nat)
    requires i < 16 && (c + d) % 16 == 0
    ensures Turn(Turn(i, c), d) == i
  {
  }

  method LrotInPlace(num: array<Byte>, shift: nat)
    requires num.Length == 16
    modifies num
    ensures num[..] == Lrot(old(num[..]), shift)
  {
    hide LeftByte, Turn;
    var tmp := new Byte[16](_ => 0);
    ghost var s: Block := num[..];
    var c, b := shift / 8, shift % 8;
    ghost var back := 16 - c % 16;
    for i := 0 to 16
      invariant num[..] == s
      invariant forall k :: 0 <= k < 16 && Turn(k, back) < i ==> tmp[k] == LeftByte(s[Turn(k, back)], s[Turn(Turn(k, back), 15)], b)
    {
      tmp[Turn(i, c)] := LeftByte(num[i], num[Turn(i, 15)], b);
      assert Turn(Turn(i, c), back) == i by { BackAgain(i, c); }
      forall k | 0 <= k < 16 && Turn(k, back) == i
        ensures k == Turn(i, c)
      {
        BackAgain(k, c);
      }
    }
    forall k | 0 <= k < 16
      ensures tmp[k] == Lrot(s, shift)[k]
    {
      TurnTurn(k, back, 15);
    }
    CopyBlock(num, tmp);
  }

  /** Going round by c and by the rest of a multiple of 16 ends where it began. */
  lemma BackAgain(i: nat, c: nat)
    requires i < 16
    ensures Turn(Turn(i, c), 16 - c % 16) == i && Turn(Turn(i, 16 - c % 16), c) == i
  {
    TurnWhole(i, c, 16 - c % 16);
    TurnWhole(i, 16 - c % 16, c);
  }

  method CopyBlock(dst: array<Byte>, src: array<Byte>)
    requires dst.Length == 16 && src.Length == 16
    modifies dst
    ensures dst[..] == old(src[..])
  {
    for i := 0 to 16
      invariant forall j :: 0 <= j < i ==> dst[j] == old(src[j])
      invariant forall j :: i <= j < 16 ==> src[j] == old(src[j])
    {
      dst[i] := src[i];
    }
  }

  method RrotInPlace(num: array<Byte>, shift: nat)
    requires num.Length == 16
    modifies num
    ensures num[..] == Rrot(old(num[..]), shift)
  {
    hide RightByte, Turn;
    var tmp := new Byte[16](_ => 0);
    ghost var s: Block := num[..];
    var c, b := shift / 8, shift % 8;
    for i := 0 to 16
      invariant num[..] == s
      invariant forall j :: 0 <= j < i ==> tmp[j] == RightByte(s[Turn(j, c)], s[Turn(j, c + 1)], b)
    {
      assert num[Turn(i, c)] == s[Turn(i, c)] && num[Turn(i, c + 1)] == s[Turn(i, c + 1)];
      tmp[i] := RightByte(num[Turn(i, c)], num[Turn(i, c + 1)], b);
    }
    forall k | 0 <= k < 16
      ensures tmp[k] == Rrot(s, shift)[k]
    {
    }
    CopyBlock(num, tmp);
  }

  // ---------- what rotation means ----------

  /** A byte is put together again from its two parts. */
  lemma ByteBack(a: Byte, below: Byte, above: Byte, b: nat)
    requires b < 8
    ensures RightByte(LeftByte(a, below, b), LeftByte(above, a, b), b) == a
  {
    hide Bits.Two, Bits.Or, Up, Down, Packs;
    var x, y := LeftByte(a, below, b), LeftByte(above, a, b);
    Joined(a, below, b);
    Joined(above, a, b);
    Joined(y, x, 8 - b);
    OrComm(Down(x, b), Up(y, 8 - b));
    UnpackHigh(x, a % Bits.Two(8 - b), below / Bits.Two(8 - b), b);
    UnpackHigh(y, above % Bits.Two(8 - b), a / Bits.Two(8 - b), b);
    PackSelf(a, 8 - b);
    PacksSame(a, RightByte(x, y, b), a / Bits.Two(8 - b), a % Bits.Two(8 - b), 8 - b);
  }

  lemma PacksSame(x: int, y: int, hi: int, lo: int, b: nat)
    requires Packs(x, hi, lo, b) && Packs(y, hi, lo, b)
    ensures x == y
  {
  }

  /** The right rotation undoes the left one, for every amount. */
  lemma RotationUndone(s: Block, n: nat)
    ensures Rrot(Lrot(s, n), n) == s
  {
    hide LeftByte, RightByte, Turn;
    var c, b := n / 8, n % 8;
    var t := Lrot(s, n);
    var back := 16 - c % 16;
    forall k | 0 <= k < 16
      ensures Rrot(t, n)[k] == s[k]
    {
      BackAgain(k, c);
      TurnTurn(Turn(k, c), back, 15);
      TurnTurn(k, c, 1);
      NextByte(k, c);
      ByteBack(s[k], s[Turn(k, 15)], s[Turn(k, 1)], b);
    }
  }

  /** Two turns in a row are one turn by the sum, whole rounds aside. */
  lemma TwoTurns(i: nat, c: nat, d: nat, e: nat, rounds: int)
    requires c + d == 16 * rounds + e
    ensures Turn(Turn(i, c), d) == Turn(i, e)
  {
  }

  lemma TurnNone(i: nat)
    requires i < 16
    ensures Turn(i, 0) == i
  {
  }

  lemma NextByte(k: nat, c: nat)
    requires k < 16
    ensures Turn(Turn(k, c + 1), 16 - c % 16) == Turn(k, 1)
    ensures Turn(Turn(k, c + 1), 31 - c % 16) == k
    ensures Turn(Turn(k, c), 31 - c % 16) == Turn(k, 15)
  {
    hide Turn;
    var q := c / 16;
    TwoTurns(k, c + 1, 16 - c % 16, 1, q + 1);
    TwoTurns(k, c + 1, 31 - c % 16, 0, q + 2);
    TwoTurns(k, c, 31 - c % 16, 15, q + 1);
    TurnNone(k);
  }

  /** Binary digit j of a block, least significant first. */
  ghost function BitOf(s: Block, j: nat): int
    requires j < 128
  {
    Bits.BitAt(s[j / 8], j % 8)
  }

  /** Digits below t do not see the part from digit t on. */
  lemma BitLow(y: nat, q: nat, x: nat, t: nat, k: nat)
    requires k < t && Packs(y, q, x, t)
    ensures Bits.BitAt(y, k) == Bits.BitAt(x, k)
  {
    Bits.LowBit(y, q, x, t, k);
  }

  /** The digits of a shifted byte. */
  lemma LeftByteBits(a: Byte, below: Byte, b: nat, k: nat)
    requires b < 8 && k < 8
    ensures Bits.BitAt(LeftByte(a, below, b), k) == if k >= b then Bits.BitAt(a, k - b) else Bits.BitAt(below, k + 8 - b)
  {
    hide Bits.Two, Bits.Or, Up, Down, Bits.BitAt, Packs;
    var x := LeftByte(a, below, b);
    Joined(a, below, b);
    LowBelow(a, 8 - b);
    DownShort(below, 8 - b);
    var hi, lo := a % Bits.Two(8 - b), below / Bits.Two(8 - b);
    if k >= b {
      UnpackHigh(x, hi, lo, b);
      Bits.BitShift(x, b, k - b);
      PackSelf(a, 8 - b);
      BitLow(a, a / Bits.Two(8 - b), hi, 8 - b, k - b);
    } else {
      BitLow(x, hi, lo, b, k);
      Bits.BitShift(below, 8 - b, k);
    }
  }

  /** Rotation by n moves digit j to position j + n around the 128 digits. */
  lemma RotationMovesBits(s: Block, n: nat, j: nat)
    requires j < 128
    ensures BitOf(Lrot(s, n), (j + n) % 128) == BitOf(s, j)
  {
    hide LeftByte, Bits.BitAt;
    var c, b := n / 8, n % 8;
    var i, k := j / 8, j % 8;
    var t := (j + n) % 128;
    WhereTo(j, n);
    var to, bit := t / 8, t % 8;
    LeftByteBits(s[Turn(to, 16 - c % 16)], s[Turn(to, 31 - c % 16)], b, bit);
  }

  lemma WhereTo(j: nat, n: nat)
    requires j < 128
    ensures var c, b, t := n / 8, n % 8, (j + n) % 128;
      && (t % 8 >= b ==> Turn(t / 8, 16 - c % 16) == j / 8 && t % 8 - b == j % 8)
      && (t % 8 < b ==> Turn(t / 8, 31 - c % 16) == j / 8 && t % 8 + 8 - b == j % 8)
  {
    hide Turn;
    var i, c, q := j / 8, n / 8, n / 8 / 16;
    ModMod(j + n);
    DigitSum(j, n);
    TurnNone(i);
    if j % 8 + n % 8 < 8 {
      assert (j + n) % 128 / 8 == Turn(i, c) by { TurnIs(i, c); }
      TwoTurns(i, c, 16 - c % 16, 0, q + 1);
    } else {
      assert (j + n) % 128 / 8 == Turn(i, c + 1) by { TurnIs(i, c + 1); }
      TwoTurns(i, c + 1, 31 - c % 16, 0, q + 2);
    }
  }

  lemma TurnIs(i: nat, c: nat)
    ensures Turn(i, c) == (i + c) % 16
  {
  }

  lemma DigitSum(j: nat, n: nat)
    ensures var carry := if j % 8 + n % 8 < 8 then 0 else 1;
      (j + n) / 8 == j / 8 + n / 8 + carry && (j + n) % 8 == j % 8 + n % 8 - 8 * carry
  {
  }

  lemma ModMod(x: nat)
    ensures x % 128 / 8 == x / 8 % 16 && x % 128 % 8 == x % 8
  {
  }
}
