/** The steps of AES and its key schedule byte by byte, and a form of them on bit vectors that literals can be put through. */
module AesLaws {
  import Bits
  import opened Bytes
  import opened MachineWords
  import opened Galois
  import opened AesBoxes
  import opened Aes
  import opened AesTables

  // ---------- exclusive or on bit vectors ----------

  ghost predicate Agree(a: bv8, b: bv8) {
    XorNat(a as int, b as int) == (a ^ b) as int
  }

  lemma {:induction false} XorBits(a: bv8, b: bv8, n: nat)
    requires a as int < Bits.Two(n) && b as int < Bits.Two(n)
    ensures Agree(a, b)
  {
    if n == 0 {
      NoBits(a, b);
    } else {
      HalfOf(a);
      HalfOf(b);
      hide Agree;
      XorBits(a >> 1, b >> 1, n - 1);
      OneMoreBit(a, b);
    }
  }

  lemma NoBits(a: bv8, b: bv8)
    requires a as int < 1 && b as int < 1
    ensures Agree(a, b)
  {
    assert a == 0 && b == 0;
    assert XorNat(0, 0) == 0;
  }

  lemma OneMoreBit(a: bv8, b: bv8)
    requires Agree(a >> 1, b >> 1)
    ensures Agree(a, b)
  {
    hide XorNat;
    HalvesAgree(a, b);
    LowAgree(a, b);
    SameDigits(XorNat(a as int, b as int), (a ^ b) as int);
  }

  lemma HalvesAgree(a: bv8, b: bv8)
    requires Agree(a >> 1, b >> 1)
    ensures XorNat(a as int, b as int) / 2 == (a ^ b) as int / 2
  {
    hide XorNat;
    HalfOf(a);
    HalfOf(b);
    HalfOf(a ^ b);
    Shifted(a, b);
    XorDigits(a as int, b as int);
  }

  lemma LowAgree(a: bv8, b: bv8)
    ensures XorNat(a as int, b as int) % 2 == (a ^ b) as int % 2
  {
    hide XorNat;
    LowBits(a, b);
    XorDigits(a as int, b as int);
  }

  lemma SameDigits(u: nat, v: nat)
    requires u / 2 == v / 2 && u % 2 == v % 2
    ensures u == v
  {
  }

  lemma Shifted(a: bv8, b: bv8)
    ensures (a ^ b) >> 1 == (a >> 1) ^ (b >> 1)
  {
  }

  lemma HalfOf(x: bv8)
    ensures (x >> 1) as int == x as int / 2
  {
  }

  lemma LowBit(x: bv8)
    ensures (x & 1) as int == x as int % 2
  {
  }

  lemma LowBits(a: bv8, b: bv8)
    ensures (a ^ b) as int % 2 == if a as int % 2 == b as int % 2 then 0 else 1
  {
    LowBit(a);
    LowBit(b);
    LowBit(a ^ b);
    assert (a ^ b) & 1 == (a & 1) ^ (b & 1);
    OneBit(a & 1, b & 1);
  }

  lemma OneBit(a: bv8, b: bv8)
    requires a <= 1 && b <= 1
    ensures (a ^ b) as int == if a as int == b as int then 0 else 1
  {
  }

  /** Exclusive or of bytes is that of bit vectors. */
  lemma XorIsBits(a: bv8, b: bv8)
    ensures Xor(a as int, b as int) == (a ^ b) as int
  {
    hide Agree;
    Bits.Two32();
    XorBits(a, b, 8);
    AgreeMeans(a, b);
  }

  lemma AgreeMeans(a: bv8, b: bv8)
    requires Agree(a, b)
    ensures XorNat(a as int, b as int) == (a ^ b) as int
  {
  }

  // ---------- the steps, byte by byte ----------

  /** The byte in row r of a column. */
  function RowOf(c: Col, r: nat): Byte
    requires r < 4
  {
    if r == 0 then c.b0 else if r == 1 then c.b1 else if r == 2 then c.b2 else c.b3
  }

  function ColumnOf(s: State, c: nat): Col
    requires c < 4
  {
    if c == 0 then s.c0 else if c == 1 then s.c1 else if c == 2 then s.c2 else s.c3
  }

  /** The byte in row r and column c takes the substituted one r columns on, section 5.1.2 of FIPS-197. */
  lemma ShiftedByte(s: State, r: nat, c: nat)
    requires r < 4 && c < 4
    ensures RowOf(ColumnOf(ShiftRows(SubBytes(s)), c), r) == FSb(RowOf(ColumnOf(s, (c + r) % 4), r))
  {
    hide FSb;
  }

  /** Row r of a mixed column is 2 b[r] + 3 b[r + 1] + b[r + 2] + b[r + 3] in the field, section 5.1.3. */
  lemma MixedByte(c: Col, r: nat)
    requires r < 4
    ensures var a, b, d, e := RowOf(c, r), RowOf(c, (r + 1) % 4), RowOf(c, (r + 2) % 4), RowOf(c, (r + 3) % 4);
      RowOf(MixCol(c), r) == Xor(Xor(Xtime(a), Xor(b, Xtime(b))), Xor(d, e))
  {
    hide Xor, Xtime, Times;
    TimesTwo(RowOf(c, r));
    TimesThree(RowOf(c, (r + 1) % 4));
    TimesOne(RowOf(c, (r + 2) % 4));
    TimesOne(RowOf(c, (r + 3) % 4));
    if r == 0 {
    } else if r == 1 {
      Turned(c.b0, Xtime(c.b1), Xor(c.b2, Xtime(c.b2)), c.b3);
    } else if r == 2 {
      XorComm(Xor(c.b0, c.b1), Xor(Xtime(c.b2), Xor(c.b3, Xtime(c.b3))));
    } else {
      Turned(Xor(c.b0, Xtime(c.b0)), c.b1, c.b2, Xtime(c.b3));
      XorComm(Xtime(c.b3), Xor(c.b0, Xtime(c.b0)));
      XorComm(Xor(c.b1, c.b2), Xor(Xtime(c.b3), Xor(c.b0, Xtime(c.b0))));
    }
  }

  lemma Turned(a: Byte, b: Byte, c: Byte, d: Byte)
    ensures Xor(Xor(a, b), Xor(c, d)) == Xor(Xor(b, c), Xor(d, a)) == Xor(Xor(b, c), Xor(a, d))
    ensures Xor(Xor(a, b), Xor(c, d)) == Xor(Xor(a, d), Xor(b, c))
  {
    hide Xor;
    Swap4(a, b, d, c);
    XorComm(c, d);
    XorComm(a, d);
    XorComm(Xor(a, d), Xor(b, c));
  }

  // ---------- the key schedule, byte by byte ----------

  /** The power x^k in the field. */
  function FieldPower(k: nat): Byte {
    if k == 0 then 1 else Xtime(FieldPower(k - 1))
  }

  /**
   * Byte j of word i: byte j of the word nk before it, exclusive-ored with a byte of the word before it. At the start
   * of a group that is the substituted next byte, round the word, and the first byte takes a power of x besides; in the
   * middle of a group of eight words it is the substituted byte itself, and else the plain byte.
   */
  ghost predicate ScheduledByte(nk: nat, w: seq<Word>, i: nat, j: nat)
    requires 0 < nk <= i < |w| && j < 4
  {
    var back, byte, next := ByteOf(w[i - nk], j), ByteOf(w[i - 1], j), ByteOf(w[i - 1], (j + 1) % 4);
    ByteOf(w[i], j) ==
      if i % nk == 0 then Xor(back, Xor(FSb(next), if j == 0 then FieldPower(i / nk - 1) else 0))
      else if nk == 8 && i % 8 == 4 then Xor(back, FSb(byte))
      else Xor(back, byte)
  }

  /** The key schedule of section 5.2 of FIPS-197, on bytes. */
  ghost predicate Scheduled(key: seq<Byte>, nk: nat, w: seq<Word>, n: nat) {
    && 0 < nk <= n <= |w| && |key| == 4 * nk
    && (forall i, j :: 0 <= i < nk && 0 <= j < 4 ==> ByteOf(w[i], j) == key[4 * i + j])
    && (forall i, j :: nk <= i < n && 0 <= j < 4 ==> ScheduledByte(nk, w, i, j))
  }

  lemma {:induction false} RconIsPower(i: nat)
    requires i >= 1
    ensures Rcon(i) == FieldPower(i - 1)
  {
    if i > 1 {
      RconIsPower(i - 1);
    }
  }

  lemma ConstantBytes(r: Byte)
    ensures Unpack(r) == Col(r, 0, 0, 0)
  {
  }

  /** The columns of the three kinds of words. */
  lemma ExpandedColumn(nk: nat, i: nat, before: Word, back: Word)
    requires 0 < nk <= i
    ensures var c := Unpack(before);
      Unpack(Expand(nk, i, before, back)) == XorCol(Unpack(back),
        if i % nk == 0 then XorCol(Col(FSb(c.b1), FSb(c.b2), FSb(c.b3), FSb(c.b0)), Col(Rcon(i / nk), 0, 0, 0))
        else if nk > 6 && i % nk == 4 then SubCol(c)
        else c)
  {
    hide Unpack, Pack, FSb, Rcon, XorWord, XorCol;
    var c := Unpack(before);
    UnpackPack(c.b1, c.b2, c.b3, c.b0);
    UnpackPack(FSb(c.b1), FSb(c.b2), FSb(c.b3), FSb(c.b0));
    UnpackPack(FSb(c.b0), FSb(c.b1), FSb(c.b2), FSb(c.b3));
    ConstantBytes(Rcon(i / nk));
    UnpackXor(SubWord(RotWord(before)), Rcon(i / nk));
    UnpackXor(back, XorWord(SubWord(RotWord(before)), Rcon(i / nk)));
    UnpackXor(back, SubWord(before));
    UnpackXor(back, before);
  }

  lemma ExpandedByte(nk: nat, w: seq<Word>, i: nat, j: nat)
    requires 0 < nk <= i < |w| && j < 4 && (nk <= 6 || nk == 8) && w[i] == Expand(nk, i, w[i - 1], w[i - nk])
    ensures ScheduledByte(nk, w, i, j)
  {
    hide ByteOf, FSb, Xor, Rcon, FieldPower, Expand;
    ExpandedColumn(nk, i, w[i - 1], w[i - nk]);
    if i % nk == 0 {
      DivFloor(i, nk);
      RconIsPower(i / nk);
      XorZero(0);
    }
    if j == 0 {
    } else if j == 1 {
    } else if j == 2 {
    }
  }

  lemma DivFloor(i: nat, nk: nat)
    requires 0 < nk <= i
    ensures i / nk >= 1
  {
    Bits.DivBounds(i, nk);
  }

  /** What the expansion by words means for the bytes. */
  lemma ExpandedBytes(key: seq<Byte>, nk: nat, w: seq<Word>, n: nat)
    requires Expanded(key, nk, w, n) && (nk <= 6 || nk == 8)
    ensures Scheduled(key, nk, w, n)
  {
    hide Expand, ScheduledByte, GetWord;
    forall i, j | 0 <= i < nk && 0 <= j < 4
      ensures ByteOf(w[i], j) == key[4 * i + j]
    {
      KeyByte(key, 4 * i, j);
    }
    forall i, j | nk <= i < n && 0 <= j < 4
      ensures ScheduledByte(nk, w, i, j)
    {
      ExpandedByte(nk, w, i, j);
    }
  }

  lemma KeyByte(key: seq<Byte>, i: nat, j: nat)
    requires i + 4 <= |key| && j < 4
    ensures ByteOf(GetWord(key, i), j) == key[i + j]
  {
    hide ByteOf, Pack;
    PackBytes(key[i], key[i + 1], key[i + 2], key[i + 3]);
  }
}
