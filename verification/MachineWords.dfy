/** 32-bit words and their exclusive or. */
module MachineWords {
  import opened Bytes
  import Bits
  import Limbs

  type Word = Limbs.Limb

  // ---------- exclusive or of joined numbers ----------

  /** x doubled k times. */
  function Double(x: int, k: nat): int
    decreases k
  {
    if k == 0 then x else 2 * Double(x, k - 1)
  }

  lemma {:induction false} DoubleNonneg(x: nat, k: nat)
    ensures Double(x, k) >= x
  {
    if k > 0 {
      DoubleNonneg(x, k - 1);
    }
  }

  lemma HalfJoined(a: nat, x: nat, k: nat)
    requires k > 0 && a < Double(1, k)
    ensures var u := a + Double(x, k); u / 2 == a / 2 + Double(x, k - 1) && u % 2 == a % 2 && a / 2 < Double(1, k - 1)
  {
  }

  lemma JoinDigits(t: nat, h: nat, d: int)
    requires t / 2 == h / 2 + d && t % 2 == h % 2
    ensures t == h + 2 * d
  {
  }

  lemma Doubled(x: int, k: nat)
    requires k > 0
    ensures Double(x, k) == 2 * Double(x, k - 1)
  {
  }

  lemma XorHalves(u: nat, v: nat, a: nat, b: nat, d: int)
    requires u % 2 == a % 2 && v % 2 == b % 2 && XorNat(u / 2, v / 2) == XorNat(a / 2, b / 2) + d
    ensures XorNat(u, v) == XorNat(a, b) + 2 * d
  {
    hide XorNat;
    XorDigits(u, v);
    XorDigits(a, b);
    JoinDigits(XorNat(u, v), XorNat(a, b), d);
  }

  /** Exclusive or works on high and low parts on their own. */
  lemma {:induction false} XorJoined(a: nat, b: nat, x: nat, y: nat, k: nat)
    requires a < Double(1, k) && b < Double(1, k)
    ensures Double(x, k) >= 0 && Double(y, k) >= 0
    ensures XorNat(a + Double(x, k), b + Double(y, k)) == XorNat(a, b) + Double(XorNat(x, y), k)
    decreases k
  {
    DoubleNonneg(x, k);
    DoubleNonneg(y, k);
    if k == 0 {
      assert XorNat(0, 0) == 0;
    } else {
      hide XorNat, Double;
      HalfJoined(a, x, k);
      HalfJoined(b, y, k);
      XorJoined(a / 2, b / 2, x, y, k - 1);
      Doubled(XorNat(x, y), k);
      XorHalves(a + Double(x, k), b + Double(y, k), a, b, Double(XorNat(x, y), k - 1));
    }
  }

  lemma Double8(x: int)
    ensures Double(x, 7) == 128 * x && Double(x, 8) == 256 * x
  {
    assert Double(x, 4) == 2 * Double(x, 3) == 4 * Double(x, 2) == 8 * Double(x, 1) == 16 * x;
    assert Double(x, 7) == 2 * Double(x, 6) == 4 * Double(x, 5) == 8 * Double(x, 4);
  }

  lemma XorJoined8(a: Byte, b: Byte, x: nat, y: nat)
    ensures XorNat(a + 256 * x, b + 256 * y) == XorNat(a, b) + 256 * XorNat(x, y)
  {
    Double8(1);
    Double8(x);
    Double8(y);
    Double8(XorNat(x, y));
    XorJoined(a, b, x, y, 8);
  }

  lemma XorJoined7(a: nat, b: nat, x: nat, y: nat)
    requires a < 128 && b < 128
    ensures XorNat(a + 128 * x, b + 128 * y) == XorNat(a, b) + 128 * XorNat(x, y)
  {
    Double8(1);
    Double8(x);
    Double8(y);
    Double8(XorNat(x, y));
    XorJoined(a, b, x, y, 7);
  }

  // ---------- and, or of joined numbers ----------

  lemma AndHalves(u: nat, v: nat, a: nat, b: nat, d: int)
    requires u % 2 == a % 2 && v % 2 == b % 2 && Bits.And(u / 2, v / 2) == Bits.And(a / 2, b / 2) + d
    ensures Bits.And(u, v) == Bits.And(a, b) + 2 * d
  {
    hide Bits.And;
    Bits.AndDigits(u, v);
    Bits.AndDigits(a, b);
    JoinDigits(Bits.And(u, v), Bits.And(a, b), d);
  }

  lemma {:induction false} AndJoined(a: nat, b: nat, x: nat, y: nat, k: nat)
    requires a < Double(1, k) && b < Double(1, k)
    ensures Double(x, k) >= 0 && Double(y, k) >= 0
    ensures Bits.And(a + Double(x, k), b + Double(y, k)) == Bits.And(a, b) + Double(Bits.And(x, y), k)
    decreases k
  {
    DoubleNonneg(x, k);
    DoubleNonneg(y, k);
    if k == 0 {
      assert Bits.And(0, 0) == 0;
    } else {
      hide Bits.And, Double;
      HalfJoined(a, x, k);
      HalfJoined(b, y, k);
      AndJoined(a / 2, b / 2, x, y, k - 1);
      Doubled(Bits.And(x, y), k);
      AndHalves(a + Double(x, k), b + Double(y, k), a, b, Double(Bits.And(x, y), k - 1));
    }
  }

  lemma OrHalves(u: nat, v: nat, a: nat, b: nat, d: int)
    requires u % 2 == a % 2 && v % 2 == b % 2 && Bits.Or(u / 2, v / 2) == Bits.Or(a / 2, b / 2) + d
    ensures Bits.Or(u, v) == Bits.Or(a, b) + 2 * d
  {
    hide Bits.Or;
    Bits.OrDigits(u, v);
    Bits.OrDigits(a, b);
    JoinDigits(Bits.Or(u, v), Bits.Or(a, b), d);
  }

  lemma {:induction false} OrJoined(a: nat, b: nat, x: nat, y: nat, k: nat)
    requires a < Double(1, k) && b < Double(1, k)
    ensures Double(x, k) >= 0 && Double(y, k) >= 0
    ensures Bits.Or(a + Double(x, k), b + Double(y, k)) == Bits.Or(a, b) + Double(Bits.Or(x, y), k)
    decreases k
  {
    DoubleNonneg(x, k);
    DoubleNonneg(y, k);
    if k == 0 {
      assert Bits.Or(0, 0) == 0;
    } else {
      hide Bits.Or, Double;
      HalfJoined(a, x, k);
      HalfJoined(b, y, k);
      OrJoined(a / 2, b / 2, x, y, k - 1);
      Doubled(Bits.Or(x, y), k);
      OrHalves(a + Double(x, k), b + Double(y, k), a, b, Double(Bits.Or(x, y), k - 1));
    }
  }

  lemma AndJoined8(a: Byte, b: Byte, x: nat, y: nat)
    ensures Bits.And(a + 256 * x, b + 256 * y) == Bits.And(a, b) + 256 * Bits.And(x, y)
  {
    Double8(1);
    Double8(x);
    Double8(y);
    Double8(Bits.And(x, y));
    AndJoined(a, b, x, y, 8);
  }

  lemma OrJoined8(a: Byte, b: Byte, x: nat, y: nat)
    ensures Bits.Or(a + 256 * x, b + 256 * y) == Bits.Or(a, b) + 256 * Bits.Or(x, y)
  {
    Double8(1);
    Double8(x);
    Double8(y);
    Double8(Bits.Or(x, y));
    OrJoined(a, b, x, y, 8);
  }

  // ---------- words ----------

  function AndWord(v: Word, w: Word): Word {
    Bits.AndBelow(v, w);
    Bits.And(v, w)
  }

  function OrWord(v: Word, w: Word): Word {
    Bits.Two32();
    Bits.OrBelow(v, w, 32);
    Bits.Or(v, w)
  }

  function NotWord(w: Word): Word {
    0xFFFF_FFFF - w
  }

  lemma {:induction false} XorBit(a: nat, b: nat, k: nat)
    ensures Bits.BitAt(XorNat(a, b), k) == if Bits.BitAt(a, k) == Bits.BitAt(b, k) then 0 else 1
    decreases k
  {
    hide XorNat, Bits.BitAt;
    XorDigits(a, b);
    Bits.BitHalf(a, if k > 0 then k - 1 else 0);
    Bits.BitHalf(b, if k > 0 then k - 1 else 0);
    Bits.BitHalf(XorNat(a, b), if k > 0 then k - 1 else 0);
    if k > 0 {
      XorBit(a / 2, b / 2, k - 1);
    }
  }

  lemma LowByte(v: nat)
    ensures v == v % 256 + 256 * (v / 256)
  {
  }

  lemma XorFirst(v: nat, w: nat)
    ensures XorNat(v, w) == XorNat(v % 256, w % 256) + 256 * XorNat(v / 256, w / 256)
    ensures XorNat(v % 256, w % 256) < 256
  {
    LowByte(v);
    LowByte(w);
    XorJoined8(v % 256, w % 256, v / 256, w / 256);
    XorBound(v % 256, w % 256, 256);
  }

  lemma XorWordBound(v: Word, w: Word)
    ensures XorNat(v, w) < 0x1_0000_0000
  {
    hide XorNat;
    var v1: nat, w1: nat := v / 256, w / 256;
    var v2, w2 := v1 / 256, w1 / 256;
    XorFirst(v, w);
    XorFirst(v1, w1);
    XorFirst(v2, w2);
    assert v2 / 256 < 256 && w2 / 256 < 256;
    XorBound(v2 / 256, w2 / 256, 256);
  }

  function XorWord(v: Word, w: Word): Word {
    XorWordBound(v, w);
    XorNat(v, w)
  }

  lemma XorWordUndo(v: Word, w: Word)
    ensures XorWord(XorWord(v, w), w) == v && XorWord(w, XorWord(v, w)) == v && XorWord(w, XorWord(w, v)) == v
  {
    XorNatUndo(v, w);
    XorNatComm(w, XorNat(v, w));
    XorNatComm(v, w);
  }

  lemma XorWordComm(v: Word, w: Word)
    ensures XorWord(v, w) == XorWord(w, v)
  {
    XorNatComm(v, w);
  }

  lemma XorWordAssoc(u: Word, v: Word, w: Word)
    ensures XorWord(XorWord(u, v), w) == XorWord(u, XorWord(v, w))
  {
    XorNatAssoc(u, v, w);
  }

  /** Four bytes as a word, least significant first. */
  function Pack(b0: Byte, b1: Byte, b2: Byte, b3: Byte): Word {
    var x0: int, x1: int, x2: int, x3: int := b0, b1, b2, b3;
    x0 + 0x100 * x1 + 0x1_0000 * x2 + 0x100_0000 * x3
  }

  /** Byte k of a word. */
  function ByteOf(w: Word, k: nat): Byte
    requires k < 4
  {
    (if k == 0 then w else if k == 1 then w / 0x100 else if k == 2 then w / 0x1_0000 else w / 0x100_0000) % 256
  }

  lemma Quot(w: int, d: int, q: int, r: int)
    requires d == 0x100 || d == 0x1_0000 || d == 0x100_0000
    requires w == q * d + r && 0 <= r < d
    ensures w / d == q && w % d == r
  {
  }

  lemma RestOf(r: int, q: int)
    requires 0 <= r < 256
    ensures (r + 0x100 * q) % 256 == r
  {
  }

  lemma PackBytes(b0: Byte, b1: Byte, b2: Byte, b3: Byte)
    ensures var w := Pack(b0, b1, b2, b3);
      ByteOf(w, 0) == b0 && ByteOf(w, 1) == b1 && ByteOf(w, 2) == b2 && ByteOf(w, 3) == b3
  {
    var x0: int, x1: int, x2: int, x3: int := b0, b1, b2, b3;
    var w: int := Pack(b0, b1, b2, b3);
    Quot(w, 0x100, x1 + 0x100 * x2 + 0x1_0000 * x3, x0);
    Quot(w, 0x1_0000, x2 + 0x100 * x3, x0 + 0x100 * x1);
    Quot(w, 0x100_0000, x3, x0 + 0x100 * x1 + 0x1_0000 * x2);
    RestOf(x1, x2 + 0x100 * x3);
    RestOf(x2, x3);
    RestOf(x3, 0);
  }

  lemma NestedDiv(w: int)
    requires w >= 0
    ensures w / 0x1_0000 == w / 0x100 / 0x100 && w / 0x100_0000 == w / 0x100 / 0x100 / 0x100
  {
  }

  lemma PackOfBytes(w: Word)
    ensures Pack(ByteOf(w, 0), ByteOf(w, 1), ByteOf(w, 2), ByteOf(w, 3)) == w
  {
    var a := w / 0x100;
    var b := a / 0x100;
    NestedDiv(w);
    DivRest(w);
    DivRest(a);
    DivRest(b);
    TopByte(w);
  }

  lemma DivRest(x: int)
    ensures x == x % 0x100 + 0x100 * (x / 0x100)
  {
  }

  lemma TopByte(w: Word)
    ensures 0 <= w / 0x100_0000 < 0x100 && w / 0x100_0000 % 0x100 == w / 0x100_0000
  {
  }

  // ---------- masks of whole bytes ----------

  /** A byte under a mask byte that is all ones or all zeros. */
  function Select(w: Byte, f: Byte, m: bool): Byte {
    if m then f else w
  }

  function MaskByte(m: bool): Byte {
    if m then 0xFF else 0
  }

  /** (w & ~mask) | (f & mask) on one byte. */
  lemma SelectByte(w: Byte, f: Byte, m: bool)
    ensures Bits.Or(Bits.And(w, 0xFF - MaskByte(m)), Bits.And(f, MaskByte(m))) == Select(w, f, m)
    ensures Bits.And(w, 0xFF - MaskByte(m)) < 256 && Bits.And(f, MaskByte(m)) < 256
  {
    Bits.Two32();
    Bits.AndOnes(w, 8);
    Bits.AndOnes(f, 8);
    Bits.OrZero(w);
    Bits.ZeroOr(f);
  }

  lemma PackNested(b0: Byte, b1: Byte, b2: Byte, b3: Byte)
    ensures Pack(b0, b1, b2, b3) == b0 + 256 * (b1 + 256 * (b2 + 256 * b3))
  {
  }

  lemma AndPack(a0: Byte, a1: Byte, a2: Byte, a3: Byte, b0: Byte, b1: Byte, b2: Byte, b3: Byte)
    ensures Bits.And(a0, b0) < 256 && Bits.And(a1, b1) < 256 && Bits.And(a2, b2) < 256 && Bits.And(a3, b3) < 256
    ensures Bits.And(Pack(a0, a1, a2, a3), Pack(b0, b1, b2, b3))
      == Pack(Bits.And(a0, b0), Bits.And(a1, b1), Bits.And(a2, b2), Bits.And(a3, b3))
  {
    hide Bits.And, Bits.Two, Pack;
    Bits.AndBelow(a0, b0);
    Bits.AndBelow(a1, b1);
    Bits.AndBelow(a2, b2);
    Bits.AndBelow(a3, b3);
    var u2: nat, v2: nat := a2 + 256 * a3, b2 + 256 * b3;
    var u1: nat, v1: nat := a1 + 256 * u2, b1 + 256 * v2;
    PackNested(a0, a1, a2, a3);
    PackNested(b0, b1, b2, b3);
    PackNested(Bits.And(a0, b0), Bits.And(a1, b1), Bits.And(a2, b2), Bits.And(a3, b3));
    AndJoined8(a2, b2, a3, b3);
    AndJoined8(a1, b1, u2, v2);
    AndJoined8(a0, b0, u1, v1);
  }

  lemma OrPack(a0: Byte, a1: Byte, a2: Byte, a3: Byte, b0: Byte, b1: Byte, b2: Byte, b3: Byte)
    ensures Bits.Or(a0, b0) < 256 && Bits.Or(a1, b1) < 256 && Bits.Or(a2, b2) < 256 && Bits.Or(a3, b3) < 256
    ensures Bits.Or(Pack(a0, a1, a2, a3), Pack(b0, b1, b2, b3))
      == Pack(Bits.Or(a0, b0), Bits.Or(a1, b1), Bits.Or(a2, b2), Bits.Or(a3, b3))
  {
    hide Bits.Or, Bits.Two, Pack;
    Bits.Two32();
    Bits.OrBelow(a0, b0, 8);
    Bits.OrBelow(a1, b1, 8);
    Bits.OrBelow(a2, b2, 8);
    Bits.OrBelow(a3, b3, 8);
    var u2: nat, v2: nat := a2 + 256 * a3, b2 + 256 * b3;
    var u1: nat, v1: nat := a1 + 256 * u2, b1 + 256 * v2;
    PackNested(a0, a1, a2, a3);
    PackNested(b0, b1, b2, b3);
    PackNested(Bits.Or(a0, b0), Bits.Or(a1, b1), Bits.Or(a2, b2), Bits.Or(a3, b3));
    OrJoined8(a2, b2, a3, b3);
    OrJoined8(a1, b1, u2, v2);
    OrJoined8(a0, b0, u1, v1);
  }

  function MaskOf(m0: bool, m1: bool, m2: bool, m3: bool): Word {
    Pack(MaskByte(m0), MaskByte(m1), MaskByte(m2), MaskByte(m3))
  }

  /** Under a mask of whole bytes, (w & ~mask) | (f & mask) takes the bytes under it from f and the others from w. */
  lemma MaskedWord(w: Word, f: Word, m0: bool, m1: bool, m2: bool, m3: bool)
    ensures var mask := MaskOf(m0, m1, m2, m3);
      OrWord(AndWord(w, NotWord(mask)), AndWord(f, mask))
      == Pack(Select(ByteOf(w, 0), ByteOf(f, 0), m0), Select(ByteOf(w, 1), ByteOf(f, 1), m1),
              Select(ByteOf(w, 2), ByteOf(f, 2), m2), Select(ByteOf(w, 3), ByteOf(f, 3), m3))
  {
    hide Bits.And, Bits.Or, ByteOf, MaskByte, Pack, Select, NotWord;
    var w0, w1, w2, w3 := ByteOf(w, 0), ByteOf(w, 1), ByteOf(w, 2), ByteOf(w, 3);
    var f0, f1, f2, f3 := ByteOf(f, 0), ByteOf(f, 1), ByteOf(f, 2), ByteOf(f, 3);
    PackOfBytes(w);
    PackOfBytes(f);
    SelectByte(w0, f0, m0);
    SelectByte(w1, f1, m1);
    SelectByte(w2, f2, m2);
    SelectByte(w3, f3, m3);
    NotMask(m0, m1, m2, m3);
    AndPack(w0, w1, w2, w3, MaskByte(!m0), MaskByte(!m1), MaskByte(!m2), MaskByte(!m3));
    AndPack(f0, f1, f2, f3, MaskByte(m0), MaskByte(m1), MaskByte(m2), MaskByte(m3));
    OrPack(Bits.And(w0, MaskByte(!m0)), Bits.And(w1, MaskByte(!m1)), Bits.And(w2, MaskByte(!m2)), Bits.And(w3, MaskByte(!m3)),
           Bits.And(f0, MaskByte(m0)), Bits.And(f1, MaskByte(m1)), Bits.And(f2, MaskByte(m2)), Bits.And(f3, MaskByte(m3)));
  }

  lemma NotMask(m0: bool, m1: bool, m2: bool, m3: bool)
    ensures NotWord(MaskOf(m0, m1, m2, m3)) == MaskOf(!m0, !m1, !m2, !m3)
    ensures 0xFF - MaskByte(m0) == MaskByte(!m0) && 0xFF - MaskByte(m1) == MaskByte(!m1)
    ensures 0xFF - MaskByte(m2) == MaskByte(!m2) && 0xFF - MaskByte(m3) == MaskByte(!m3)
  {
  }
}
