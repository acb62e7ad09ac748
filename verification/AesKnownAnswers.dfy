/** The worked examples of FIPS-197: the key expansions of appendix A and the round-by-round ciphers of appendix C. */
module AesKnownAnswers {
  import Bits
  import opened Bytes
  import opened MachineWords
  import opened Galois
  import opened AesBoxes
  import opened Aes
  import opened AesTables
  import opened AesLaws
  import AesCipher

  // ---------- columns as 32 bits, the way the standard prints them ----------

  function Row0(w: bv32): bv8 { ((w >> 24) & 0xFF) as bv8 }

  function Row1(w: bv32): bv8 { ((w >> 16) & 0xFF) as bv8 }

  function Row2(w: bv32): bv8 { ((w >> 8) & 0xFF) as bv8 }

  function Row3(w: bv32): bv8 { (w & 0xFF) as bv8 }

  /** A bit vector as a number, under a name that can be hidden. */
  function Num(b: bv8): Byte { b as int }

  function Column(w: bv32): Col {
    Col(Num(Row0(w)), Num(Row1(w)), Num(Row2(w)), Num(Row3(w)))
  }

  /** The state with these four columns. */
  function Shown(a: bv32, b: bv32, c: bv32, d: bv32): State {
    State(Column(a), Column(b), Column(c), Column(d))
  }

  /** Word i of a schedule has the bytes of v, the first row lowest. */
  predicate Is(w: seq<Word>, i: nat, v: bv32) {
    i < |w| && w[i] == Pack(Num(Row0(v)), Num(Row1(v)), Num(Row2(v)), Num(Row3(v)))
  }

  predicate Four(w: seq<Word>, i: nat, a: bv32, b: bv32, c: bv32, d: bv32) {
    Is(w, i, a) && Is(w, i + 1, b) && Is(w, i + 2, c) && Is(w, i + 3, d)
  }

  // ---------- the steps on 32 bits ----------

  /** s is the column of the substituted bytes of a, b, c and d, a row from each. */
  predicate Subbed(s: bv32, a: bv32, b: bv32, c: bv32, d: bv32) {
    && FSb(((a >> 24) & 0xFF) as bv8 as int) == ((s >> 24) & 0xFF) as bv8 as int
    && FSb(((b >> 16) & 0xFF) as bv8 as int) == ((s >> 16) & 0xFF) as bv8 as int
    && FSb(((c >> 8) & 0xFF) as bv8 as int) == ((s >> 8) & 0xFF) as bv8 as int
    && FSb((d & 0xFF) as bv8 as int) == (s & 0xFF) as bv8 as int
  }

  /** The same with the bytes of one word, turned by one row. */
  predicate SubbedTurned(s: bv32, p: bv32) {
    && FSb(((p >> 16) & 0xFF) as bv8 as int) == ((s >> 24) & 0xFF) as bv8 as int
    && FSb(((p >> 8) & 0xFF) as bv8 as int) == ((s >> 16) & 0xFF) as bv8 as int
    && FSb((p & 0xFF) as bv8 as int) == ((s >> 8) & 0xFF) as bv8 as int
    && FSb(((p >> 24) & 0xFF) as bv8 as int) == (s & 0xFF) as bv8 as int
  }

  /** Doubling of four bytes at once. */
  function Twice(w: bv32): bv32 {
    var m := (w >> 7) & 0x0101_0101;
    ((w & 0x7F7F_7F7F) << 1) ^ m ^ (m << 1) ^ (m << 3) ^ (m << 4)
  }

  /** 2 and 3 times the rows in turn and the two other rows, t being twice s. */
  function Blend(s: bv32, t: bv32): bv32 {
    t ^ (((s ^ t) << 8) | ((s ^ t) >> 24)) ^ ((s << 16) | (s >> 16)) ^ ((s << 24) | (s >> 8))
  }

  function Mix(s: bv32): bv32 {
    Blend(s, Twice(s))
  }

  // ---------- what the steps mean ----------

  /** Exclusive or under names that can be hidden. */
  function Both(a: bv8, b: bv8): bv8 { a ^ b }

  function Plus(v: bv32, w: bv32): bv32 { v ^ w }

  lemma NumIs(a: bv8, b: bv8)
    ensures Xor(Num(a), Num(b)) == Num(Both(a, b))
  {
    hide Xor;
    XorIsBits(a, b);
  }

  lemma PlusRow0(v: bv32, w: bv32)
    ensures Row0(Plus(v, w)) == Both(Row0(v), Row0(w))
  {
  }

  lemma PlusRow1(v: bv32, w: bv32)
    ensures Row1(Plus(v, w)) == Both(Row1(v), Row1(w))
  {
  }

  lemma PlusRow2(v: bv32, w: bv32)
    ensures Row2(Plus(v, w)) == Both(Row2(v), Row2(w))
  {
  }

  lemma PlusRow3(v: bv32, w: bv32)
    ensures Row3(Plus(v, w)) == Both(Row3(v), Row3(w))
  {
  }

  lemma PlusMeans(v: bv32, w: bv32)
    ensures XorCol(Column(v), Column(w)) == Column(Plus(v, w))
  {
    hide Xor, Num, Row0, Row1, Row2, Row3, Plus, Both;
    PlusRow0(v, w);
    PlusRow1(v, w);
    PlusRow2(v, w);
    PlusRow3(v, w);
    NumIs(Row0(v), Row0(w));
    NumIs(Row1(v), Row1(w));
    NumIs(Row2(v), Row2(w));
    NumIs(Row3(v), Row3(w));
  }

  function Doubled(b: bv8): bv8 {
    if b < 0x80 then b << 1 else (b << 1) ^ 0x1B
  }

  lemma DoubledIs(b: bv8)
    ensures Num(Doubled(b)) == Xtime(Num(b))
  {
    hide Xor;
    if b < 0x80 {
      LowShift(b);
    } else {
      HighShift(b);
      XorIsBits(b << 1, 0x1B);
    }
  }

  lemma LowShift(b: bv8)
    requires b < 0x80
    ensures (b << 1) as int == 2 * (b as int)
  {
  }

  lemma HighShift(b: bv8)
    requires b >= 0x80
    ensures (b << 1) as int == 2 * (b as int - 128)
  {
  }

  function MixByte(a: bv8, a2: bv8, b: bv8, b2: bv8, c: bv8, d: bv8): bv8 {
    Both(Both(a2, Both(b, b2)), Both(c, d))
  }

  lemma TwiceRow0(w: bv32)
    ensures Row0(Twice(w)) == Doubled(Row0(w))
  {
  }

  lemma TwiceRow1(w: bv32)
    ensures Row1(Twice(w)) == Doubled(Row1(w))
  {
  }

  lemma TwiceRow2(w: bv32)
    ensures Row2(Twice(w)) == Doubled(Row2(w))
  {
  }

  lemma TwiceRow3(w: bv32)
    ensures Row3(Twice(w)) == Doubled(Row3(w))
  {
  }

  lemma BlendRow0(s: bv32, t: bv32)
    ensures Row0(Blend(s, t)) == MixByte(Row0(s), Row0(t), Row1(s), Row1(t), Row2(s), Row3(s))
  {
  }

  lemma BlendRow1(s: bv32, t: bv32)
    ensures Row1(Blend(s, t)) == MixByte(Row1(s), Row1(t), Row2(s), Row2(t), Row3(s), Row0(s))
  {
  }

  lemma BlendRow2(s: bv32, t: bv32)
    ensures Row2(Blend(s, t)) == MixByte(Row2(s), Row2(t), Row3(s), Row3(t), Row0(s), Row1(s))
  {
  }

  lemma BlendRow3(s: bv32, t: bv32)
    ensures Row3(Blend(s, t)) == MixByte(Row3(s), Row3(t), Row0(s), Row0(t), Row1(s), Row2(s))
  {
  }

  lemma MixedNumber(a: bv8, b: bv8, c: bv8, d: bv8)
    ensures Xor(Xor(Xtime(Num(a)), Xor(Num(b), Xtime(Num(b)))), Xor(Num(c), Num(d)))
      == Num(MixByte(a, Doubled(a), b, Doubled(b), c, d))
  {
    hide Xor, Xtime, Doubled, Num, Both;
    DoubledIs(a);
    DoubledIs(b);
    NumIs(b, Doubled(b));
    NumIs(Doubled(a), Both(b, Doubled(b)));
    NumIs(c, d);
    NumIs(Both(Doubled(a), Both(b, Doubled(b))), Both(c, d));
  }

  lemma MixMeans(w: bv32)
    ensures MixCol(Column(w)) == Column(Mix(w))
  {
    hide Xor, Xtime, Doubled, MixByte, MixCol, Blend, Twice, Num, Row0, Row1, Row2, Row3;
    TwiceRow0(w);
    BlendRow0(w, Twice(w));
    TwiceRow1(w);
    BlendRow1(w, Twice(w));
    TwiceRow2(w);
    BlendRow2(w, Twice(w));
    TwiceRow3(w);
    BlendRow3(w, Twice(w));
    MixedByte(Column(w), 0);
    MixedByte(Column(w), 1);
    MixedByte(Column(w), 2);
    MixedByte(Column(w), 3);
    MixedNumber(Row0(w), Row1(w), Row2(w), Row3(w));
    MixedNumber(Row1(w), Row2(w), Row3(w), Row0(w));
    MixedNumber(Row2(w), Row3(w), Row0(w), Row1(w));
    MixedNumber(Row3(w), Row0(w), Row1(w), Row2(w));
  }

  lemma SubbedMeans(s: bv32, a: bv32, b: bv32, c: bv32, d: bv32)
    requires Subbed(s, a, b, c, d)
    ensures Diagonal(SubCol(Column(a)), SubCol(Column(b)), SubCol(Column(c)), SubCol(Column(d))) == Column(s)
  {
    hide FSb;
  }

  lemma SubbedTurnedMeans(s: bv32, p: bv32)
    requires SubbedTurned(s, p)
    ensures var c := Column(p); Col(FSb(c.b1), FSb(c.b2), FSb(c.b3), FSb(c.b0)) == Column(s)
  {
    hide FSb;
  }

  // ---------- the key schedule on 32 bits ----------

  lemma IsColumn(w: seq<Word>, i: nat, v: bv32)
    requires i < |w|
    ensures Is(w, i, v) <==> Unpack(w[i]) == Column(v)
  {
    hide Pack, Unpack, Num, Row0, Row1, Row2, Row3;
    UnpackPack(Num(Row0(v)), Num(Row1(v)), Num(Row2(v)), Num(Row3(v)));
    if Unpack(w[i]) == Column(v) {
      UnpackInjective(w[i], Pack(Num(Row0(v)), Num(Row1(v)), Num(Row2(v)), Num(Row3(v))));
    }
  }

  /** The round constants x^(k-1), in the first row. */
  function Constant(k: nat): bv32 {
    if k == 1 then 0x0100_0000 else if k == 2 then 0x0200_0000 else if k == 3 then 0x0400_0000
    else if k == 4 then 0x0800_0000 else if k == 5 then 0x1000_0000 else if k == 6 then 0x2000_0000
    else if k == 7 then 0x4000_0000 else if k == 8 then 0x8000_0000 else if k == 9 then 0x1B00_0000
    else 0x3600_0000
  }

  lemma ConstantIs(k: nat)
    requires 1 <= k <= 10
    ensures Column(Constant(k)) == Col(Rcon(k), 0, 0, 0)
  {
    hide Rcon;
    Constants();
  }

  lemma Constants()
    ensures Rcon(1) == 1 && Rcon(2) == 2 && Rcon(3) == 4 && Rcon(4) == 8 && Rcon(5) == 0x10
    ensures Rcon(6) == 0x20 && Rcon(7) == 0x40 && Rcon(8) == 0x80 && Rcon(9) == 0x1B && Rcon(10) == 0x36
  {
    hide Xor;
    XorZero(0x1B);
    assert Rcon(3) == 4;
    assert Rcon(5) == 0x10;
    assert Rcon(7) == 0x40;
    assert Rcon(9) == 0x1B;
  }

  lemma Expansion(key: seq<Byte>, nk: nat, w: seq<Word>, n: nat, i: nat)
    requires Expanded(key, nk, w, n) && nk <= i < n
    ensures 0 < i < |w| && w[i] == Expand(nk, i, w[i - 1], w[i - nk])
  {
    hide Expand, GetWord;
  }

  /** The bytes of a key from place i on. */
  predicate Bytes4(key: seq<Byte>, i: nat, b0: Byte, b1: Byte, b2: Byte, b3: Byte) {
    i + 4 <= |key| && key[i] == b0 && key[i + 1] == b1 && key[i + 2] == b2 && key[i + 3] == b3
  }

  lemma FirstWord(key: seq<Byte>, nk: nat, w: seq<Word>, n: nat, i: nat, v: bv32, b0: Byte, b1: Byte, b2: Byte, b3: Byte)
    requires Expanded(key, nk, w, n) && i < nk && Bytes4(key, 4 * i, b0, b1, b2, b3) && Col(b0, b1, b2, b3) == Column(v)
    ensures Is(w, i, v)
  {
    hide Expand, Column, Unpack, Pack, Is;
    UnpackPack(b0, b1, b2, b3);
    IsColumn(w, i, v);
  }

  /** The bytes 0, 1, 2 and so on. */
  ghost predicate Counting(key: seq<Byte>, n: nat) {
    |key| == n && forall i :: 0 <= i < n ==> key[i] == i
  }

  lemma Places(w: seq<Word>, i: nat, nk: nat, p: bv32, q: bv32, v: bv32)
    requires 0 < nk <= i < |w| && Is(w, i - 1, p) && Is(w, i - nk, q)
    ensures Unpack(w[i - 1]) == Column(p) && Unpack(w[i - nk]) == Column(q)
    ensures Is(w, i, v) <==> Unpack(w[i]) == Column(v)
  {
    hide Is, Unpack, Column;
    IsColumn(w, i - 1, p);
    IsColumn(w, i - nk, q);
    IsColumn(w, i, v);
  }

  lemma Begin(key: seq<Byte>, nk: nat, w: seq<Word>, n: nat, i: nat, k: bv32, p: bv32, q: bv32, v: bv32)
    requires Expanded(key, nk, w, n) && nk in {4, 6, 8} && nk <= i < n && i % nk == 0 && i / nk <= 10
    requires Is(w, i - 1, p) && Is(w, i - nk, q) && k == Constant(i / nk) && SubbedTurned(v ^ q ^ k, p)
    ensures Is(w, i, v)
  {
    hide Expanded, Expand, Is, Column, Unpack, FSb, Rcon, XorCol, Constant, SubbedTurned;
    Expansion(key, nk, w, n, i);
    Places(w, i, nk, p, q, v);
    ExpandedColumn(nk, i, w[i - 1], w[i - nk]);
    DivFloor(i, nk);
    ConstantIs(i / nk);
    SubbedTurnedMeans(v ^ q ^ k, p);
    PlusMeans(v ^ q ^ k, k);
    PlusMeans(q, Plus(v ^ q ^ k, k));
    Back(q, v, k);
  }

  lemma Back(q: bv32, v: bv32, k: bv32)
    ensures Plus(q, Plus(v ^ q ^ k, k)) == v && Plus(q, v ^ q) == v
  {
  }

  lemma Middle(key: seq<Byte>, w: seq<Word>, n: nat, i: nat, p: bv32, q: bv32, v: bv32)
    requires Expanded(key, 8, w, n) && 8 <= i < n && i % 8 == 4
    requires Is(w, i - 1, p) && Is(w, i - 8, q) && Subbed(v ^ q, p, p, p, p)
    ensures Is(w, i, v)
  {
    hide Expanded, Expand, Is, Column, Unpack, FSb, Rcon, XorCol, Subbed;
    Expansion(key, 8, w, n, i);
    Places(w, i, 8, p, q, v);
    ExpandedColumn(8, i, w[i - 1], w[i - 8]);
    SubbedMeans(v ^ q, p, p, p, p);
    PlusMeans(q, v ^ q);
    Back(q, v, 0);
  }

  lemma Plain(key: seq<Byte>, nk: nat, w: seq<Word>, n: nat, i: nat, p: bv32, q: bv32, v: bv32)
    requires Expanded(key, nk, w, n) && nk in {4, 6, 8} && nk <= i < n && i % nk != 0 && (nk == 8 ==> i % 8 != 4)
    requires Is(w, i - 1, p) && Is(w, i - nk, q) && v == q ^ p
    ensures Is(w, i, v)
  {
    hide Expanded, Expand, Is, Column, Unpack, FSb, Rcon, XorCol;
    Expansion(key, nk, w, n, i);
    Places(w, i, nk, p, q, v);
    ExpandedColumn(nk, i, w[i - 1], w[i - nk]);
    PlusMeans(q, p);
  }

  predicate Chained(p1: bv32, p2: bv32, p3: bv32, v0: bv32, v1: bv32, v2: bv32, v3: bv32) {
    v1 == p1 ^ v0 && v2 == p2 ^ v1 && v3 == p3 ^ v2
  }

  /** The first four words of a group, given the word before them and the four of the group before. */
  lemma Start(key: seq<Byte>, nk: nat, w: seq<Word>, n: nat, i: nat, k: bv32, p: bv32,
              p0: bv32, p1: bv32, p2: bv32, p3: bv32, v0: bv32, v1: bv32, v2: bv32, v3: bv32)
    requires Expanded(key, nk, w, n) && nk in {4, 6, 8} && nk <= i && i + 4 <= n && i % nk == 0 && i / nk <= 10
    requires Is(w, i - 1, p) && Four(w, i - nk, p0, p1, p2, p3) && k == Constant(i / nk)
    requires SubbedTurned(v0 ^ p0 ^ k, p) && Chained(p1, p2, p3, v0, v1, v2, v3)
    ensures Four(w, i, v0, v1, v2, v3)
  {
    hide Expanded, Is, Constant, SubbedTurned;
    Begin(key, nk, w, n, i, k, p, p0, v0);
    Later(i, nk, 1);
    Later(i, nk, 2);
    Later(i, nk, 3);
    Plain(key, nk, w, n, i + 1, v0, p1, v1);
    Plain(key, nk, w, n, i + 2, v1, p2, v2);
    Plain(key, nk, w, n, i + 3, v2, p3, v3);
  }

  lemma Later(i: nat, nk: nat, k: nat)
    requires nk > 0 && i % nk == 0 && k < nk
    ensures (i + k) % nk == k
  {
    Bits.DivBounds(i, nk);
    Bits.DivUnique(i + k, nk, i / nk, k);
  }

  /** The last two words of a group of six. */
  lemma Two(key: seq<Byte>, w: seq<Word>, n: nat, i: nat, p4: bv32, p5: bv32, v3: bv32, v4: bv32, v5: bv32)
    requires Expanded(key, 6, w, n) && 6 <= i && i + 6 <= n && i % 6 == 0
    requires Is(w, i + 3, v3) && Is(w, i - 2, p4) && Is(w, i - 1, p5) && v4 == p4 ^ v3 && v5 == p5 ^ v4
    ensures Is(w, i + 4, v4) && Is(w, i + 5, v5)
  {
    hide Expanded, Is;
    Later(i, 6, 4);
    Later(i, 6, 5);
    Plain(key, 6, w, n, i + 4, v3, p4, v4);
    Plain(key, 6, w, n, i + 5, v4, p5, v5);
  }

  /** The last four words of a group of eight. */
  lemma Half(key: seq<Byte>, w: seq<Word>, n: nat, i: nat, p: bv32,
             p0: bv32, p1: bv32, p2: bv32, p3: bv32, v0: bv32, v1: bv32, v2: bv32, v3: bv32)
    requires Expanded(key, 8, w, n) && 8 <= i && i + 4 <= n && i % 8 == 4
    requires Is(w, i - 1, p) && Four(w, i - 8, p0, p1, p2, p3)
    requires Subbed(v0 ^ p0, p, p, p, p) && Chained(p1, p2, p3, v0, v1, v2, v3)
    ensures Four(w, i, v0, v1, v2, v3)
  {
    hide Expanded, Is, Subbed;
    Middle(key, w, n, i, p, p0, v0);
    Plain(key, 8, w, n, i + 1, v0, p1, v1);
    Plain(key, 8, w, n, i + 2, v1, p2, v2);
    Plain(key, 8, w, n, i + 3, v2, p3, v3);
  }

  // ---------- the rounds on 32 bits ----------

  predicate Shifted(g0: bv32, g1: bv32, g2: bv32, g3: bv32, s0: bv32, s1: bv32, s2: bv32, s3: bv32) {
    Subbed(s0, g0, g1, g2, g3) && Subbed(s1, g1, g2, g3, g0) && Subbed(s2, g2, g3, g0, g1) && Subbed(s3, g3, g0, g1, g2)
  }

  lemma ShiftedMeans(g0: bv32, g1: bv32, g2: bv32, g3: bv32, s0: bv32, s1: bv32, s2: bv32, s3: bv32)
    requires Shifted(g0, g1, g2, g3, s0, s1, s2, s3)
    ensures ShiftRows(SubBytes(Shown(g0, g1, g2, g3))) == Shown(s0, s1, s2, s3)
  {
    hide Subbed, Column, SubCol, Diagonal;
    SubbedMeans(s0, g0, g1, g2, g3);
    SubbedMeans(s1, g1, g2, g3, g0);
    SubbedMeans(s2, g2, g3, g0, g1);
    SubbedMeans(s3, g3, g0, g1, g2);
  }

  lemma KeyIs(w: seq<Word>, r: nat, k0: bv32, k1: bv32, k2: bv32, k3: bv32)
    requires Four(w, 4 * r, k0, k1, k2, k3)
    ensures 4 * r + 4 <= |w| && Key(w, r) == Shown(k0, k1, k2, k3)
  {
    hide Is, Unpack, Column;
    InSchedule(w, 4 * r, k0, k1, k2, k3);
    IsColumn(w, 4 * r, k0);
    IsColumn(w, 4 * r + 1, k1);
    IsColumn(w, 4 * r + 2, k2);
    IsColumn(w, 4 * r + 3, k3);
  }

  lemma InSchedule(w: seq<Word>, i: nat, a: bv32, b: bv32, c: bv32, d: bv32)
    requires Four(w, i, a, b, c, d)
    ensures i + 4 <= |w|
  {
  }

  /** The block 00 11 22 and so on up to ff. */
  ghost predicate Example(b: Block) {
    forall i :: 0 <= i < 16 ==> b[i] == 17 * i
  }

  lemma ExampleState(b: Block)
    requires Example(b)
    ensures BlockState(b) == Shown(0x0011_2233, 0x4455_6677, 0x8899_AABB, 0xCCDD_EEFF)
  {
  }

  /** The state of that block after round r. */
  ghost predicate After(w: seq<Word>, r: nat, a: bv32, b: bv32, c: bv32, d: bv32) {
    && 4 * r + 4 <= |w|
    && forall block: Block :: Example(block) ==> EncState(w, BlockState(block), r) == Shown(a, b, c, d)
  }

  ghost predicate Ends(w: seq<Word>, nr: nat, a: bv32, b: bv32, c: bv32, d: bv32) {
    && 1 <= nr && 4 * nr + 4 <= |w|
    && forall block: Block :: Example(block) ==> Cipher(w, nr, BlockState(block)) == Shown(a, b, c, d)
  }

  /** The first round key added. */
  lemma Whitened(w: seq<Word>, k0: bv32, k1: bv32, k2: bv32, k3: bv32, n0: bv32, n1: bv32, n2: bv32, n3: bv32)
    requires Four(w, 0, k0, k1, k2, k3)
    requires n0 == 0x0011_2233 ^ k0 && n1 == 0x4455_6677 ^ k1 && n2 == 0x8899_AABB ^ k2 && n3 == 0xCCDD_EEFF ^ k3
    ensures After(w, 0, n0, n1, n2, n3)
  {
    hide Four, Key, Shown, AddKey, Example, BlockState;
    KeyIs(w, 0, k0, k1, k2, k3);
    Added(0x0011_2233, 0x4455_6677, 0x8899_AABB, 0xCCDD_EEFF, k0, k1, k2, k3);
    forall block: Block | Example(block)
      ensures EncState(w, BlockState(block), 0) == Shown(n0, n1, n2, n3)
    {
      ExampleState(block);
    }
  }

  lemma Added(a: bv32, b: bv32, c: bv32, d: bv32, k0: bv32, k1: bv32, k2: bv32, k3: bv32)
    ensures AddKey(Shown(a, b, c, d), Shown(k0, k1, k2, k3)) == Shown(a ^ k0, b ^ k1, c ^ k2, d ^ k3)
  {
    hide Column, XorCol;
    PlusMeans(a, k0);
    PlusMeans(b, k1);
    PlusMeans(c, k2);
    PlusMeans(d, k3);
  }

  lemma Mixed(a: bv32, b: bv32, c: bv32, d: bv32)
    ensures MixColumns(Shown(a, b, c, d)) == Shown(Mix(a), Mix(b), Mix(c), Mix(d))
  {
    hide Column, MixCol, Mix;
    MixMeans(a);
    MixMeans(b);
    MixMeans(c);
    MixMeans(d);
  }

  /** The columns s mixed, with the key added, are n. */
  predicate MixedTo(s0: bv32, s1: bv32, s2: bv32, s3: bv32, k0: bv32, k1: bv32, k2: bv32, k3: bv32,
                    n0: bv32, n1: bv32, n2: bv32, n3: bv32) {
    n0 == Mix(s0) ^ k0 && n1 == Mix(s1) ^ k1 && n2 == Mix(s2) ^ k2 && n3 == Mix(s3) ^ k3
  }

  lemma MixedToMeans(s0: bv32, s1: bv32, s2: bv32, s3: bv32, k0: bv32, k1: bv32, k2: bv32, k3: bv32,
                     n0: bv32, n1: bv32, n2: bv32, n3: bv32)
    requires MixedTo(s0, s1, s2, s3, k0, k1, k2, k3, n0, n1, n2, n3)
    ensures AddKey(MixColumns(Shown(s0, s1, s2, s3)), Shown(k0, k1, k2, k3)) == Shown(n0, n1, n2, n3)
  {
    hide Shown, AddKey, MixColumns, Mix;
    Mixed(s0, s1, s2, s3);
    Added(Mix(s0), Mix(s1), Mix(s2), Mix(s3), k0, k1, k2, k3);
  }

  /** One round, from state g over the shifted rows s to state n. */
  lemma Round(w: seq<Word>, r: nat, g0: bv32, g1: bv32, g2: bv32, g3: bv32, s0: bv32, s1: bv32, s2: bv32, s3: bv32,
              k0: bv32, k1: bv32, k2: bv32, k3: bv32, n0: bv32, n1: bv32, n2: bv32, n3: bv32)
    requires 0 < r && After(w, r - 1, g0, g1, g2, g3)
    requires Four(w, 4 * r, k0, k1, k2, k3) && Shifted(g0, g1, g2, g3, s0, s1, s2, s3)
    requires MixedTo(s0, s1, s2, s3, k0, k1, k2, k3, n0, n1, n2, n3)
    ensures After(w, r, n0, n1, n2, n3)
  {
    hide Four, Key, Shown, Shifted, MixedTo, AddKey, MixColumns, ShiftRows, SubBytes, EncState, Example, BlockState;
    KeyIs(w, r, k0, k1, k2, k3);
    ShiftedMeans(g0, g1, g2, g3, s0, s1, s2, s3);
    MixedToMeans(s0, s1, s2, s3, k0, k1, k2, k3, n0, n1, n2, n3);
    forall block: Block | Example(block)
      ensures EncState(w, BlockState(block), r) == Shown(n0, n1, n2, n3)
    {
      OneMore(w, BlockState(block), r);
    }
  }

  lemma OneMore(w: seq<Word>, x: State, r: nat)
    requires 0 < r && 4 * r + 4 <= |w|
    ensures EncState(w, x, r) == AddKey(MixColumns(ShiftRows(SubBytes(EncState(w, x, r - 1)))), Key(w, r))
  {
    hide AddKey, MixColumns, ShiftRows, SubBytes, Key;
  }

  /** The last round, which does not mix. */
  lemma Last(w: seq<Word>, nr: nat, g0: bv32, g1: bv32, g2: bv32, g3: bv32, s0: bv32, s1: bv32, s2: bv32, s3: bv32,
             k0: bv32, k1: bv32, k2: bv32, k3: bv32, n0: bv32, n1: bv32, n2: bv32, n3: bv32)
    requires 0 < nr && After(w, nr - 1, g0, g1, g2, g3)
    requires Four(w, 4 * nr, k0, k1, k2, k3) && Shifted(g0, g1, g2, g3, s0, s1, s2, s3)
    requires n0 == s0 ^ k0 && n1 == s1 ^ k1 && n2 == s2 ^ k2 && n3 == s3 ^ k3
    ensures Ends(w, nr, n0, n1, n2, n3)
  {
    hide Four, Key, Shown, Shifted, AddKey, ShiftRows, SubBytes, EncState, Example, BlockState;
    KeyIs(w, nr, k0, k1, k2, k3);
    ShiftedMeans(g0, g1, g2, g3, s0, s1, s2, s3);
    Added(s0, s1, s2, s3, k0, k1, k2, k3);
  }

  // ---------- appendix A, and the round keys of appendix C ----------

  /** The key of appendix A.1. */
  ghost predicate KeyOfA1(key: seq<Byte>) {
    && |key| == 16
    && Bytes4(key, 0, 0x2B, 0x7E, 0x15, 0x16) && Bytes4(key, 4, 0x28, 0xAE, 0xD2, 0xA6)
    && Bytes4(key, 8, 0xAB, 0xF7, 0x15, 0x88) && Bytes4(key, 12, 0x09, 0xCF, 0x4F, 0x3C)
  }

  /** The round keys of appendix A.1. */
  ghost predicate RoundKeysA1(w: seq<Word>) {
    EarlyA1(w) && LateA1(w)
  }

  ghost predicate EarlyA1(w: seq<Word>) {
    && Four(w, 0, 0x2B7E_1516, 0x28AE_D2A6, 0xABF7_1588, 0x09CF_4F3C)
    && Four(w, 4, 0xA0FA_FE17, 0x8854_2CB1, 0x23A3_3939, 0x2A6C_7605)
    && Four(w, 8, 0xF2C2_95F2, 0x7A96_B943, 0x5935_807A, 0x7359_F67F)
    && Four(w, 12, 0x3D80_477D, 0x4716_FE3E, 0x1E23_7E44, 0x6D7A_883B)
    && Four(w, 16, 0xEF44_A541, 0xA852_5B7F, 0xB671_253B, 0xDB0B_AD00)
    && Four(w, 20, 0xD4D1_C6F8, 0x7C83_9D87, 0xCAF2_B8BC, 0x11F9_15BC)
  }

  ghost predicate LateA1(w: seq<Word>) {
    && Four(w, 24, 0x6D88_A37A, 0x110B_3EFD, 0xDBF9_8641, 0xCA00_93FD)
    && Four(w, 28, 0x4E54_F70E, 0x5F5F_C9F3, 0x84A6_4FB2, 0x4EA6_DC4F)
    && Four(w, 32, 0xEAD2_7321, 0xB58D_BAD2, 0x312B_F560, 0x7F8D_292F)
    && Four(w, 36, 0xAC77_66F3, 0x19FA_DC21, 0x28D1_2941, 0x575C_006E)
    && Four(w, 40, 0xD014_F9A8, 0xC9EE_2589, 0xE13F_0CC8, 0xB663_0CA6)
  }

  lemma FirstWordsA1(key: seq<Byte>, w: seq<Word>)
    requires KeyOfA1(key) && Expanded(key, 4, w, 44)
    ensures Four(w, 0, 0x2B7E_1516, 0x28AE_D2A6, 0xABF7_1588, 0x09CF_4F3C)
  {
    hide Expanded, Is;
    FirstWord(key, 4, w, 44, 0, 0x2B7E_1516, 0x2B, 0x7E, 0x15, 0x16);
    FirstWord(key, 4, w, 44, 1, 0x28AE_D2A6, 0x28, 0xAE, 0xD2, 0xA6);
    FirstWord(key, 4, w, 44, 2, 0xABF7_1588, 0xAB, 0xF7, 0x15, 0x88);
    FirstWord(key, 4, w, 44, 3, 0x09CF_4F3C, 0x09, 0xCF, 0x4F, 0x3C);
  }

  /** The expansion of the key of appendix A.1 is the printed one. */
  lemma ScheduleA1(key: seq<Byte>, w: seq<Word>)
    requires KeyOfA1(key) && Expanded(key, 4, w, 44)
    ensures RoundKeysA1(w)
  {
    hide Expanded, Is;
    FirstWordsA1(key, w);
    Start(key, 4, w, 44, 4, 0x0100_0000, 0x09CF_4F3C,
          0x2B7E_1516, 0x28AE_D2A6, 0xABF7_1588, 0x09CF_4F3C,
          0xA0FA_FE17, 0x8854_2CB1, 0x23A3_3939, 0x2A6C_7605);
    Start(key, 4, w, 44, 8, 0x0200_0000, 0x2A6C_7605,
          0xA0FA_FE17, 0x8854_2CB1, 0x23A3_3939, 0x2A6C_7605,
          0xF2C2_95F2, 0x7A96_B943, 0x5935_807A, 0x7359_F67F);
    Start(key, 4, w, 44, 12, 0x0400_0000, 0x7359_F67F,
          0xF2C2_95F2, 0x7A96_B943, 0x5935_807A, 0x7359_F67F,
          0x3D80_477D, 0x4716_FE3E, 0x1E23_7E44, 0x6D7A_883B);
    Start(key, 4, w, 44, 16, 0x0800_0000, 0x6D7A_883B,
          0x3D80_477D, 0x4716_FE3E, 0x1E23_7E44, 0x6D7A_883B,
          0xEF44_A541, 0xA852_5B7F, 0xB671_253B, 0xDB0B_AD00);
    Start(key, 4, w, 44, 20, 0x1000_0000, 0xDB0B_AD00,
          0xEF44_A541, 0xA852_5B7F, 0xB671_253B, 0xDB0B_AD00,
          0xD4D1_C6F8, 0x7C83_9D87, 0xCAF2_B8BC, 0x11F9_15BC);
    Start(key, 4, w, 44, 24, 0x2000_0000, 0x11F9_15BC,
          0xD4D1_C6F8, 0x7C83_9D87, 0xCAF2_B8BC, 0x11F9_15BC,
          0x6D88_A37A, 0x110B_3EFD, 0xDBF9_8641, 0xCA00_93FD);
    Start(key, 4, w, 44, 28, 0x4000_0000, 0xCA00_93FD,
          0x6D88_A37A, 0x110B_3EFD, 0xDBF9_8641, 0xCA00_93FD,
          0x4E54_F70E, 0x5F5F_C9F3, 0x84A6_4FB2, 0x4EA6_DC4F);
    Start(key, 4, w, 44, 32, 0x8000_0000, 0x4EA6_DC4F,
          0x4E54_F70E, 0x5F5F_C9F3, 0x84A6_4FB2, 0x4EA6_DC4F,
          0xEAD2_7321, 0xB58D_BAD2, 0x312B_F560, 0x7F8D_292F);
    Start(key, 4, w, 44, 36, 0x1B00_0000, 0x7F8D_292F,
          0xEAD2_7321, 0xB58D_BAD2, 0x312B_F560, 0x7F8D_292F,
          0xAC77_66F3, 0x19FA_DC21, 0x28D1_2941, 0x575C_006E);
    Start(key, 4, w, 44, 40, 0x3600_0000, 0x575C_006E,
          0xAC77_66F3, 0x19FA_DC21, 0x28D1_2941, 0x575C_006E,
          0xD014_F9A8, 0xC9EE_2589, 0xE13F_0CC8, 0xB663_0CA6);
  }

  /** The key of appendix A.2. */
  ghost predicate KeyOfA2(key: seq<Byte>) {
    && |key| == 24
    && Bytes4(key, 0, 0x8E, 0x73, 0xB0, 0xF7) && Bytes4(key, 4, 0xDA, 0x0E, 0x64, 0x52)
    && Bytes4(key, 8, 0xC8, 0x10, 0xF3, 0x2B) && Bytes4(key, 12, 0x80, 0x90, 0x79, 0xE5)
    && Bytes4(key, 16, 0x62, 0xF8, 0xEA, 0xD2) && Bytes4(key, 20, 0x52, 0x2C, 0x6B, 0x7B)
  }

  /** The round keys of appendix A.2. */
  ghost predicate RoundKeysA2(w: seq<Word>) {
    EarlyA2(w) && LateA2(w)
  }

  ghost predicate EarlyA2(w: seq<Word>) {
    && Four(w, 0, 0x8E73_B0F7, 0xDA0E_6452, 0xC810_F32B, 0x8090_79E5)
    && Four(w, 4, 0x62F8_EAD2, 0x522C_6B7B, 0xFE0C_91F7, 0x2402_F5A5)
    && Four(w, 8, 0xEC12_068E, 0x6C82_7F6B, 0x0E7A_95B9, 0x5C56_FEC2)
    && Four(w, 12, 0x4DB7_B4BD, 0x69B5_4118, 0x85A7_4796, 0xE925_38FD)
    && Four(w, 16, 0xE75F_AD44, 0xBB09_5386, 0x485A_F057, 0x21EF_B14F)
    && Four(w, 20, 0xA448_F6D9, 0x4D6D_CE24, 0xAA32_6360, 0x113B_30E6)
    && Four(w, 24, 0xA25E_7ED5, 0x83B1_CF9A, 0x27F9_3943, 0x6A94_F767)
  }

  ghost predicate LateA2(w: seq<Word>) {
    && Four(w, 28, 0xC0A6_9407, 0xD19D_A4E1, 0xEC17_86EB, 0x6FA6_4971)
    && Four(w, 32, 0x485F_7032, 0x22CB_8755, 0xE26D_1352, 0x33F0_B7B3)
    && Four(w, 36, 0x40BE_EB28, 0x2F18_A259, 0x6747_D26B, 0x458C_553E)
    && Four(w, 40, 0xA7E1_466C, 0x9411_F1DF, 0x821F_750A, 0xAD07_D753)
    && Four(w, 44, 0xCA40_0538, 0x8FCC_5006, 0x282D_166A, 0xBC3C_E7B5)
    && Four(w, 48, 0xE98B_A06F, 0x448C_773C, 0x8ECC_7204, 0x0100_2202)
  }

  lemma FirstWordsA2(key: seq<Byte>, w: seq<Word>)
    requires KeyOfA2(key) && Expanded(key, 6, w, 52)
    ensures Four(w, 0, 0x8E73_B0F7, 0xDA0E_6452, 0xC810_F32B, 0x8090_79E5)
    ensures Is(w, 4, 0x62F8_EAD2) && Is(w, 5, 0x522C_6B7B)
  {
    hide Expanded, Is;
    FirstWord(key, 6, w, 52, 0, 0x8E73_B0F7, 0x8E, 0x73, 0xB0, 0xF7);
    FirstWord(key, 6, w, 52, 1, 0xDA0E_6452, 0xDA, 0x0E, 0x64, 0x52);
    FirstWord(key, 6, w, 52, 2, 0xC810_F32B, 0xC8, 0x10, 0xF3, 0x2B);
    FirstWord(key, 6, w, 52, 3, 0x8090_79E5, 0x80, 0x90, 0x79, 0xE5);
    FirstWord(key, 6, w, 52, 4, 0x62F8_EAD2, 0x62, 0xF8, 0xEA, 0xD2);
    FirstWord(key, 6, w, 52, 5, 0x522C_6B7B, 0x52, 0x2C, 0x6B, 0x7B);
  }

  /** The expansion of the key of appendix A.2 is the printed one. */
  lemma ScheduleA2(key: seq<Byte>, w: seq<Word>)
    requires KeyOfA2(key) && Expanded(key, 6, w, 52)
    ensures RoundKeysA2(w)
  {
    hide Expanded, Is;
    FirstWordsA2(key, w);
    Start(key, 6, w, 52, 6, 0x0100_0000, 0x522C_6B7B,
          0x8E73_B0F7, 0xDA0E_6452, 0xC810_F32B, 0x8090_79E5,
          0xFE0C_91F7, 0x2402_F5A5, 0xEC12_068E, 0x6C82_7F6B);
    Two(key, w, 52, 6, 0x62F8_EAD2, 0x522C_6B7B, 0x6C82_7F6B, 0x0E7A_95B9, 0x5C56_FEC2);
    Start(key, 6, w, 52, 12, 0x0200_0000, 0x5C56_FEC2,
          0xFE0C_91F7, 0x2402_F5A5, 0xEC12_068E, 0x6C82_7F6B,
          0x4DB7_B4BD, 0x69B5_4118, 0x85A7_4796, 0xE925_38FD);
    Two(key, w, 52, 12, 0x0E7A_95B9, 0x5C56_FEC2, 0xE925_38FD, 0xE75F_AD44, 0xBB09_5386);
    Start(key, 6, w, 52, 18, 0x0400_0000, 0xBB09_5386,
          0x4DB7_B4BD, 0x69B5_4118, 0x85A7_4796, 0xE925_38FD,
          0x485A_F057, 0x21EF_B14F, 0xA448_F6D9, 0x4D6D_CE24);
    Two(key, w, 52, 18, 0xE75F_AD44, 0xBB09_5386, 0x4D6D_CE24, 0xAA32_6360, 0x113B_30E6);
    Start(key, 6, w, 52, 24, 0x0800_0000, 0x113B_30E6,
          0x485A_F057, 0x21EF_B14F, 0xA448_F6D9, 0x4D6D_CE24,
          0xA25E_7ED5, 0x83B1_CF9A, 0x27F9_3943, 0x6A94_F767);
    Two(key, w, 52, 24, 0xAA32_6360, 0x113B_30E6, 0x6A94_F767, 0xC0A6_9407, 0xD19D_A4E1);
    Start(key, 6, w, 52, 30, 0x1000_0000, 0xD19D_A4E1,
          0xA25E_7ED5, 0x83B1_CF9A, 0x27F9_3943, 0x6A94_F767,
          0xEC17_86EB, 0x6FA6_4971, 0x485F_7032, 0x22CB_8755);
    Two(key, w, 52, 30, 0xC0A6_9407, 0xD19D_A4E1, 0x22CB_8755, 0xE26D_1352, 0x33F0_B7B3);
    Start(key, 6, w, 52, 36, 0x2000_0000, 0x33F0_B7B3,
          0xEC17_86EB, 0x6FA6_4971, 0x485F_7032, 0x22CB_8755,
          0x40BE_EB28, 0x2F18_A259, 0x6747_D26B, 0x458C_553E);
    Two(key, w, 52, 36, 0xE26D_1352, 0x33F0_B7B3, 0x458C_553E, 0xA7E1_466C, 0x9411_F1DF);
    Start(key, 6, w, 52, 42, 0x4000_0000, 0x9411_F1DF,
          0x40BE_EB28, 0x2F18_A259, 0x6747_D26B, 0x458C_553E,
          0x821F_750A, 0xAD07_D753, 0xCA40_0538, 0x8FCC_5006);
    Two(key, w, 52, 42, 0xA7E1_466C, 0x9411_F1DF, 0x8FCC_5006, 0x282D_166A, 0xBC3C_E7B5);
    Start(key, 6, w, 52, 48, 0x8000_0000, 0xBC3C_E7B5,
          0x821F_750A, 0xAD07_D753, 0xCA40_0538, 0x8FCC_5006,
          0xE98B_A06F, 0x448C_773C, 0x8ECC_7204, 0x0100_2202);
  }

  /** The key of appendix A.3. */
  ghost predicate KeyOfA3(key: seq<Byte>) {
    && |key| == 32
    && Bytes4(key, 0, 0x60, 0x3D, 0xEB, 0x10) && Bytes4(key, 4, 0x15, 0xCA, 0x71, 0xBE)
    && Bytes4(key, 8, 0x2B, 0x73, 0xAE, 0xF0) && Bytes4(key, 12, 0x85, 0x7D, 0x77, 0x81)
    && Bytes4(key, 16, 0x1F, 0x35, 0x2C, 0x07) && Bytes4(key, 20, 0x3B, 0x61, 0x08, 0xD7)
    && Bytes4(key, 24, 0x2D, 0x98, 0x10, 0xA3) && Bytes4(key, 28, 0x09, 0x14, 0xDF, 0xF4)
  }

  /** The round keys of appendix A.3. */
  ghost predicate RoundKeysA3(w: seq<Word>) {
    EarlyA3(w) && LateA3(w)
  }

  ghost predicate EarlyA3(w: seq<Word>) {
    && Four(w, 0, 0x603D_EB10, 0x15CA_71BE, 0x2B73_AEF0, 0x857D_7781)
    && Four(w, 4, 0x1F35_2C07, 0x3B61_08D7, 0x2D98_10A3, 0x0914_DFF4)
    && Four(w, 8, 0x9BA3_5411, 0x8E69_25AF, 0xA51A_8B5F, 0x2067_FCDE)
    && Four(w, 12, 0xA8B0_9C1A, 0x93D1_94CD, 0xBE49_846E, 0xB75D_5B9A)
    && Four(w, 16, 0xD59A_ECB8, 0x5BF3_C917, 0xFEE9_4248, 0xDE8E_BE96)
    && Four(w, 20, 0xB5A9_328A, 0x2678_A647, 0x9831_2229, 0x2F6C_79B3)
    && Four(w, 24, 0x812C_81AD, 0xDADF_48BA, 0x2436_0AF2, 0xFAB8_B464)
    && Four(w, 28, 0x98C5_BFC9, 0xBEBD_198E, 0x268C_3BA7, 0x09E0_4214)
  }

  ghost predicate LateA3(w: seq<Word>) {
    && Four(w, 32, 0x6800_7BAC, 0xB2DF_3316, 0x96E9_39E4, 0x6C51_8D80)
    && Four(w, 36, 0xC814_E204, 0x76A9_FB8A, 0x5025_C02D, 0x59C5_8239)
    && Four(w, 40, 0xDE13_6967, 0x6CCC_5A71, 0xFA25_6395, 0x9674_EE15)
    && Four(w, 44, 0x5886_CA5D, 0x2E2F_31D7, 0x7E0A_F1FA, 0x27CF_73C3)
    && Four(w, 48, 0x749C_47AB, 0x1850_1DDA, 0xE275_7E4F, 0x7401_905A)
    && Four(w, 52, 0xCAFA_AAE3, 0xE4D5_9B34, 0x9ADF_6ACE, 0xBD10_190D)
    && Four(w, 56, 0xFE48_90D1, 0xE618_8D0B, 0x046D_F344, 0x706C_631E)
  }

  lemma FirstWordsA3(key: seq<Byte>, w: seq<Word>)
    requires KeyOfA3(key) && Expanded(key, 8, w, 60)
    ensures Four(w, 0, 0x603D_EB10, 0x15CA_71BE, 0x2B73_AEF0, 0x857D_7781)
    ensures Four(w, 4, 0x1F35_2C07, 0x3B61_08D7, 0x2D98_10A3, 0x0914_DFF4)
  {
    hide Expanded, Is;
    FirstWord(key, 8, w, 60, 0, 0x603D_EB10, 0x60, 0x3D, 0xEB, 0x10);
    FirstWord(key, 8, w, 60, 1, 0x15CA_71BE, 0x15, 0xCA, 0x71, 0xBE);
    FirstWord(key, 8, w, 60, 2, 0x2B73_AEF0, 0x2B, 0x73, 0xAE, 0xF0);
    FirstWord(key, 8, w, 60, 3, 0x857D_7781, 0x85, 0x7D, 0x77, 0x81);
    FirstWord(key, 8, w, 60, 4, 0x1F35_2C07, 0x1F, 0x35, 0x2C, 0x07);
    FirstWord(key, 8, w, 60, 5, 0x3B61_08D7, 0x3B, 0x61, 0x08, 0xD7);
    FirstWord(key, 8, w, 60, 6, 0x2D98_10A3, 0x2D, 0x98, 0x10, 0xA3);
    FirstWord(key, 8, w, 60, 7, 0x0914_DFF4, 0x09, 0x14, 0xDF, 0xF4);
  }

  /** The expansion of the key of appendix A.3 is the printed one. */
  lemma ScheduleA3(key: seq<Byte>, w: seq<Word>)
    requires KeyOfA3(key) && Expanded(key, 8, w, 60)
    ensures RoundKeysA3(w)
  {
    hide Expanded, Is;
    FirstWordsA3(key, w);
    Start(key, 8, w, 60, 8, 0x0100_0000, 0x0914_DFF4,
          0x603D_EB10, 0x15CA_71BE, 0x2B73_AEF0, 0x857D_7781,
          0x9BA3_5411, 0x8E69_25AF, 0xA51A_8B5F, 0x2067_FCDE);
    Half(key, w, 60, 12, 0x2067_FCDE,
         0x1F35_2C07, 0x3B61_08D7, 0x2D98_10A3, 0x0914_DFF4,
         0xA8B0_9C1A, 0x93D1_94CD, 0xBE49_846E, 0xB75D_5B9A);
    Start(key, 8, w, 60, 16, 0x0200_0000, 0xB75D_5B9A,
          0x9BA3_5411, 0x8E69_25AF, 0xA51A_8B5F, 0x2067_FCDE,
          0xD59A_ECB8, 0x5BF3_C917, 0xFEE9_4248, 0xDE8E_BE96);
    Half(key, w, 60, 20, 0xDE8E_BE96,
         0xA8B0_9C1A, 0x93D1_94CD, 0xBE49_846E, 0xB75D_5B9A,
         0xB5A9_328A, 0x2678_A647, 0x9831_2229, 0x2F6C_79B3);
    Start(key, 8, w, 60, 24, 0x0400_0000, 0x2F6C_79B3,
          0xD59A_ECB8, 0x5BF3_C917, 0xFEE9_4248, 0xDE8E_BE96,
          0x812C_81AD, 0xDADF_48BA, 0x2436_0AF2, 0xFAB8_B464);
    Half(key, w, 60, 28, 0xFAB8_B464,
         0xB5A9_328A, 0x2678_A647, 0x9831_2229, 0x2F6C_79B3,
         0x98C5_BFC9, 0xBEBD_198E, 0x268C_3BA7, 0x09E0_4214);
    Start(key, 8, w, 60, 32, 0x0800_0000, 0x09E0_4214,
          0x812C_81AD, 0xDADF_48BA, 0x2436_0AF2, 0xFAB8_B464,
          0x6800_7BAC, 0xB2DF_3316, 0x96E9_39E4, 0x6C51_8D80);
    Half(key, w, 60, 36, 0x6C51_8D80,
         0x98C5_BFC9, 0xBEBD_198E, 0x268C_3BA7, 0x09E0_4214,
         0xC814_E204, 0x76A9_FB8A, 0x5025_C02D, 0x59C5_8239);
    Start(key, 8, w, 60, 40, 0x1000_0000, 0x59C5_8239,
          0x6800_7BAC, 0xB2DF_3316, 0x96E9_39E4, 0x6C51_8D80,
          0xDE13_6967, 0x6CCC_5A71, 0xFA25_6395, 0x9674_EE15);
    Half(key, w, 60, 44, 0x9674_EE15,
         0xC814_E204, 0x76A9_FB8A, 0x5025_C02D, 0x59C5_8239,
         0x5886_CA5D, 0x2E2F_31D7, 0x7E0A_F1FA, 0x27CF_73C3);
    Start(key, 8, w, 60, 48, 0x2000_0000, 0x27CF_73C3,
          0xDE13_6967, 0x6CCC_5A71, 0xFA25_6395, 0x9674_EE15,
          0x749C_47AB, 0x1850_1DDA, 0xE275_7E4F, 0x7401_905A);
    Half(key, w, 60, 52, 0x7401_905A,
         0x5886_CA5D, 0x2E2F_31D7, 0x7E0A_F1FA, 0x27CF_73C3,
         0xCAFA_AAE3, 0xE4D5_9B34, 0x9ADF_6ACE, 0xBD10_190D);
    Start(key, 8, w, 60, 56, 0x4000_0000, 0xBD10_190D,
          0x749C_47AB, 0x1850_1DDA, 0xE275_7E4F, 0x7401_905A,
          0xFE48_90D1, 0xE618_8D0B, 0x046D_F344, 0x706C_631E);
  }

  /** The round keys of appendix C.1. */
  ghost predicate RoundKeysC1(w: seq<Word>) {
    EarlyC1(w) && LateC1(w)
  }

  ghost predicate EarlyC1(w: seq<Word>) {
    && Four(w, 0, 0x0001_0203, 0x0405_0607, 0x0809_0A0B, 0x0C0D_0E0F)
    && Four(w, 4, 0xD6AA_74FD, 0xD2AF_72FA, 0xDAA6_78F1, 0xD6AB_76FE)
    && Four(w, 8, 0xB692_CF0B, 0x643D_BDF1, 0xBE9B_C500, 0x6830_B3FE)
    && Four(w, 12, 0xB6FF_744E, 0xD2C2_C9BF, 0x6C59_0CBF, 0x0469_BF41)
    && Four(w, 16, 0x47F7_F7BC, 0x9535_3E03, 0xF96C_32BC, 0xFD05_8DFD)
    && Four(w, 20, 0x3CAA_A3E8, 0xA99F_9DEB, 0x50F3_AF57, 0xADF6_22AA)
  }

  ghost predicate LateC1(w: seq<Word>) {
    && Four(w, 24, 0x5E39_0F7D, 0xF7A6_9296, 0xA755_3DC1, 0x0AA3_1F6B)
    && Four(w, 28, 0x14F9_701A, 0xE35F_E28C, 0x440A_DF4D, 0x4EA9_C026)
    && Four(w, 32, 0x4743_8735, 0xA41C_65B9, 0xE016_BAF4, 0xAEBF_7AD2)
    && Four(w, 36, 0x5499_32D1, 0xF085_5768, 0x1093_ED9C, 0xBE2C_974E)
    && Four(w, 40, 0x1311_1D7F, 0xE394_4A17, 0xF307_A78B, 0x4D2B_30C5)
  }

  lemma FirstWordsC1(key: seq<Byte>, w: seq<Word>)
    requires Counting(key, 16) && Expanded(key, 4, w, 44)
    ensures Four(w, 0, 0x0001_0203, 0x0405_0607, 0x0809_0A0B, 0x0C0D_0E0F)
  {
    hide Expanded, Is;
    FirstWord(key, 4, w, 44, 0, 0x0001_0203, 0x00, 0x01, 0x02, 0x03);
    FirstWord(key, 4, w, 44, 1, 0x0405_0607, 0x04, 0x05, 0x06, 0x07);
    FirstWord(key, 4, w, 44, 2, 0x0809_0A0B, 0x08, 0x09, 0x0A, 0x0B);
    FirstWord(key, 4, w, 44, 3, 0x0C0D_0E0F, 0x0C, 0x0D, 0x0E, 0x0F);
  }

  /** The expansion of the key of appendix C.1 is the printed one. */
  lemma ScheduleC1(key: seq<Byte>, w: seq<Word>)
    requires Counting(key, 16) && Expanded(key, 4, w, 44)
    ensures RoundKeysC1(w)
  {
    hide Expanded, Is;
    FirstWordsC1(key, w);
    Start(key, 4, w, 44, 4, 0x0100_0000, 0x0C0D_0E0F,
          0x0001_0203, 0x0405_0607, 0x0809_0A0B, 0x0C0D_0E0F,
          0xD6AA_74FD, 0xD2AF_72FA, 0xDAA6_78F1, 0xD6AB_76FE);
    Start(key, 4, w, 44, 8, 0x0200_0000, 0xD6AB_76FE,
          0xD6AA_74FD, 0xD2AF_72FA, 0xDAA6_78F1, 0xD6AB_76FE,
          0xB692_CF0B, 0x643D_BDF1, 0xBE9B_C500, 0x6830_B3FE);
    Start(key, 4, w, 44, 12, 0x0400_0000, 0x6830_B3FE,
          0xB692_CF0B, 0x643D_BDF1, 0xBE9B_C500, 0x6830_B3FE,
          0xB6FF_744E, 0xD2C2_C9BF, 0x6C59_0CBF, 0x0469_BF41);
    Start(key, 4, w, 44, 16, 0x0800_0000, 0x0469_BF41,
          0xB6FF_744E, 0xD2C2_C9BF, 0x6C59_0CBF, 0x0469_BF41,
          0x47F7_F7BC, 0x9535_3E03, 0xF96C_32BC, 0xFD05_8DFD);
    Start(key, 4, w, 44, 20, 0x1000_0000, 0xFD05_8DFD,
          0x47F7_F7BC, 0x9535_3E03, 0xF96C_32BC, 0xFD05_8DFD,
          0x3CAA_A3E8, 0xA99F_9DEB, 0x50F3_AF57, 0xADF6_22AA);
    Start(key, 4, w, 44, 24, 0x2000_0000, 0xADF6_22AA,
          0x3CAA_A3E8, 0xA99F_9DEB, 0x50F3_AF57, 0xADF6_22AA,
          0x5E39_0F7D, 0xF7A6_9296, 0xA755_3DC1, 0x0AA3_1F6B);
    Start(key, 4, w, 44, 28, 0x4000_0000, 0x0AA3_1F6B,
          0x5E39_0F7D, 0xF7A6_9296, 0xA755_3DC1, 0x0AA3_1F6B,
          0x14F9_701A, 0xE35F_E28C, 0x440A_DF4D, 0x4EA9_C026);
    Start(key, 4, w, 44, 32, 0x8000_0000, 0x4EA9_C026,
          0x14F9_701A, 0xE35F_E28C, 0x440A_DF4D, 0x4EA9_C026,
          0x4743_8735, 0xA41C_65B9, 0xE016_BAF4, 0xAEBF_7AD2);
    Start(key, 4, w, 44, 36, 0x1B00_0000, 0xAEBF_7AD2,
          0x4743_8735, 0xA41C_65B9, 0xE016_BAF4, 0xAEBF_7AD2,
          0x5499_32D1, 0xF085_5768, 0x1093_ED9C, 0xBE2C_974E);
    Start(key, 4, w, 44, 40, 0x3600_0000, 0xBE2C_974E,
          0x5499_32D1, 0xF085_5768, 0x1093_ED9C, 0xBE2C_974E,
          0x1311_1D7F, 0xE394_4A17, 0xF307_A78B, 0x4D2B_30C5);
  }

  /** The round keys of appendix C.2. */
  ghost predicate RoundKeysC2(w: seq<Word>) {
    EarlyC2(w) && LateC2(w)
  }

  ghost predicate EarlyC2(w: seq<Word>) {
    && Four(w, 0, 0x0001_0203, 0x0405_0607, 0x0809_0A0B, 0x0C0D_0E0F)
    && Four(w, 4, 0x1011_1213, 0x1415_1617, 0x5846_F2F9, 0x5C43_F4FE)
    && Four(w, 8, 0x544A_FEF5, 0x5847_F0FA, 0x4856_E2E9, 0x5C43_F4FE)
    && Four(w, 12, 0x40F9_49B3, 0x1CBA_BD4D, 0x48F0_43B8, 0x10B7_B342)
    && Four(w, 16, 0x58E1_51AB, 0x04A2_A555, 0x7EFF_B541, 0x6245_080C)
    && Four(w, 20, 0x2AB5_4BB4, 0x3A02_F8F6, 0x62E3_A95D, 0x6641_0C08)
    && Four(w, 24, 0xF501_8572, 0x9744_8D7E, 0xBDF1_C6CA, 0x87F3_3E3C)
  }

  ghost predicate LateC2(w: seq<Word>) {
    && Four(w, 28, 0xE510_9761, 0x8351_9B69, 0x3415_7C9E, 0xA351_F1E0)
    && Four(w, 32, 0x1EA0_372A, 0x9953_0916, 0x7C43_9E77, 0xFF12_051E)
    && Four(w, 36, 0xDD7E_0E88, 0x7E2F_FF68, 0x608F_C842, 0xF9DC_C154)
    && Four(w, 40, 0x859F_5F23, 0x7A8D_5A3D, 0xC0C0_2952, 0xBEEF_D63A)
    && Four(w, 44, 0xDE60_1E78, 0x27BC_DF2C, 0xA223_800F, 0xD8AE_DA32)
    && Four(w, 48, 0xA497_0A33, 0x1A78_DC09, 0xC418_C271, 0xE3A4_1D5D)
  }

  lemma FirstWordsC2(key: seq<Byte>, w: seq<Word>)
    requires Counting(key, 24) && Expanded(key, 6, w, 52)
    ensures Four(w, 0, 0x0001_0203, 0x0405_0607, 0x0809_0A0B, 0x0C0D_0E0F)
    ensures Is(w, 4, 0x1011_1213) && Is(w, 5, 0x1415_1617)
  {
    hide Expanded, Is;
    FirstWord(key, 6, w, 52, 0, 0x0001_0203, 0x00, 0x01, 0x02, 0x03);
    FirstWord(key, 6, w, 52, 1, 0x0405_0607, 0x04, 0x05, 0x06, 0x07);
    FirstWord(key, 6, w, 52, 2, 0x0809_0A0B, 0x08, 0x09, 0x0A, 0x0B);
    FirstWord(key, 6, w, 52, 3, 0x0C0D_0E0F, 0x0C, 0x0D, 0x0E, 0x0F);
    FirstWord(key, 6, w, 52, 4, 0x1011_1213, 0x10, 0x11, 0x12, 0x13);
    FirstWord(key, 6, w, 52, 5, 0x1415_1617, 0x14, 0x15, 0x16, 0x17);
  }

  /** The expansion of the key of appendix C.2 is the printed one. */
  lemma ScheduleC2(key: seq<Byte>, w: seq<Word>)
    requires Counting(key, 24) && Expanded(key, 6, w, 52)
    ensures RoundKeysC2(w)
  {
    hide Expanded, Is;
    FirstWordsC2(key, w);
    Start(key, 6, w, 52, 6, 0x0100_0000, 0x1415_1617,
          0x0001_0203, 0x0405_0607, 0x0809_0A0B, 0x0C0D_0E0F,
          0x5846_F2F9, 0x5C43_F4FE, 0x544A_FEF5, 0x5847_F0FA);
    Two(key, w, 52, 6, 0x1011_1213, 0x1415_1617, 0x5847_F0FA, 0x4856_E2E9, 0x5C43_F4FE);
    Start(key, 6, w, 52, 12, 0x0200_0000, 0x5C43_F4FE,
          0x5846_F2F9, 0x5C43_F4FE, 0x544A_FEF5, 0x5847_F0FA,
          0x40F9_49B3, 0x1CBA_BD4D, 0x48F0_43B8, 0x10B7_B342);
    Two(key, w, 52, 12, 0x4856_E2E9, 0x5C43_F4FE, 0x10B7_B342, 0x58E1_51AB, 0x04A2_A555);
    Start(key, 6, w, 52, 18, 0x0400_0000, 0x04A2_A555,
          0x40F9_49B3, 0x1CBA_BD4D, 0x48F0_43B8, 0x10B7_B342,
          0x7EFF_B541, 0x6245_080C, 0x2AB5_4BB4, 0x3A02_F8F6);
    Two(key, w, 52, 18, 0x58E1_51AB, 0x04A2_A555, 0x3A02_F8F6, 0x62E3_A95D, 0x6641_0C08);
    Start(key, 6, w, 52, 24, 0x0800_0000, 0x6641_0C08,
          0x7EFF_B541, 0x6245_080C, 0x2AB5_4BB4, 0x3A02_F8F6,
          0xF501_8572, 0x9744_8D7E, 0xBDF1_C6CA, 0x87F3_3E3C);
    Two(key, w, 52, 24, 0x62E3_A95D, 0x6641_0C08, 0x87F3_3E3C, 0xE510_9761, 0x8351_9B69);
    Start(key, 6, w, 52, 30, 0x1000_0000, 0x8351_9B69,
          0xF501_8572, 0x9744_8D7E, 0xBDF1_C6CA, 0x87F3_3E3C,
          0x3415_7C9E, 0xA351_F1E0, 0x1EA0_372A, 0x9953_0916);
    Two(key, w, 52, 30, 0xE510_9761, 0x8351_9B69, 0x9953_0916, 0x7C43_9E77, 0xFF12_051E);
    Start(key, 6, w, 52, 36, 0x2000_0000, 0xFF12_051E,
          0x3415_7C9E, 0xA351_F1E0, 0x1EA0_372A, 0x9953_0916,
          0xDD7E_0E88, 0x7E2F_FF68, 0x608F_C842, 0xF9DC_C154);
    Two(key, w, 52, 36, 0x7C43_9E77, 0xFF12_051E, 0xF9DC_C154, 0x859F_5F23, 0x7A8D_5A3D);
    Start(key, 6, w, 52, 42, 0x4000_0000, 0x7A8D_5A3D,
          0xDD7E_0E88, 0x7E2F_FF68, 0x608F_C842, 0xF9DC_C154,
          0xC0C0_2952, 0xBEEF_D63A, 0xDE60_1E78, 0x27BC_DF2C);
    Two(key, w, 52, 42, 0x859F_5F23, 0x7A8D_5A3D, 0x27BC_DF2C, 0xA223_800F, 0xD8AE_DA32);
    Start(key, 6, w, 52, 48, 0x8000_0000, 0xD8AE_DA32,
          0xC0C0_2952, 0xBEEF_D63A, 0xDE60_1E78, 0x27BC_DF2C,
          0xA497_0A33, 0x1A78_DC09, 0xC418_C271, 0xE3A4_1D5D);
  }

  /** The round keys of appendix C.3. */
  ghost predicate RoundKeysC3(w: seq<Word>) {
    EarlyC3(w) && LateC3(w)
  }

  ghost predicate EarlyC3(w: seq<Word>) {
    && Four(w, 0, 0x0001_0203, 0x0405_0607, 0x0809_0A0B, 0x0C0D_0E0F)
    && Four(w, 4, 0x1011_1213, 0x1415_1617, 0x1819_1A1B, 0x1C1D_1E1F)
    && Four(w, 8, 0xA573_C29F, 0xA176_C498, 0xA97F_CE93, 0xA572_C09C)
    && Four(w, 12, 0x1651_A8CD, 0x0244_BEDA, 0x1A5D_A4C1, 0x0640_BADE)
    && Four(w, 16, 0xAE87_DFF0, 0x0FF1_1B68, 0xA68E_D5FB, 0x03FC_1567)
    && Four(w, 20, 0x6DE1_F148, 0x6FA5_4F92, 0x75F8_EB53, 0x73B8_518D)
    && Four(w, 24, 0xC656_827F, 0xC9A7_9917, 0x6F29_4CEC, 0x6CD5_598B)
    && Four(w, 28, 0x3DE2_3A75, 0x5247_75E7, 0x27BF_9EB4, 0x5407_CF39)
  }

  ghost predicate LateC3(w: seq<Word>) {
    && Four(w, 32, 0x0BDC_905F, 0xC27B_0948, 0xAD52_45A4, 0xC187_1C2F)
    && Four(w, 36, 0x45F5_A660, 0x17B2_D387, 0x300D_4D33, 0x640A_820A)
    && Four(w, 40, 0x7CCF_F71C, 0xBEB4_FE54, 0x13E6_BBF0, 0xD261_A7DF)
    && Four(w, 44, 0xF01A_FAFE, 0xE7A8_2979, 0xD7A5_644A, 0xB3AF_E640)
    && Four(w, 48, 0x2541_FE71, 0x9BF5_0025, 0x8813_BBD5, 0x5A72_1C0A)
    && Four(w, 52, 0x4E5A_6699, 0xA9F2_4FE0, 0x7E57_2BAA, 0xCDF8_CDEA)
    && Four(w, 56, 0x24FC_79CC, 0xBF09_79E9, 0x371A_C23C, 0x6D68_DE36)
  }

  lemma FirstWordsC3(key: seq<Byte>, w: seq<Word>)
    requires Counting(key, 32) && Expanded(key, 8, w, 60)
    ensures Four(w, 0, 0x0001_0203, 0x0405_0607, 0x0809_0A0B, 0x0C0D_0E0F)
    ensures Four(w, 4, 0x1011_1213, 0x1415_1617, 0x1819_1A1B, 0x1C1D_1E1F)
  {
    hide Expanded, Is;
    FirstWord(key, 8, w, 60, 0, 0x0001_0203, 0x00, 0x01, 0x02, 0x03);
    FirstWord(key, 8, w, 60, 1, 0x0405_0607, 0x04, 0x05, 0x06, 0x07);
    FirstWord(key, 8, w, 60, 2, 0x0809_0A0B, 0x08, 0x09, 0x0A, 0x0B);
    FirstWord(key, 8, w, 60, 3, 0x0C0D_0E0F, 0x0C, 0x0D, 0x0E, 0x0F);
    FirstWord(key, 8, w, 60, 4, 0x1011_1213, 0x10, 0x11, 0x12, 0x13);
    FirstWord(key, 8, w, 60, 5, 0x1415_1617, 0x14, 0x15, 0x16, 0x17);
    FirstWord(key, 8, w, 60, 6, 0x1819_1A1B, 0x18, 0x19, 0x1A, 0x1B);
    FirstWord(key, 8, w, 60, 7, 0x1C1D_1E1F, 0x1C, 0x1D, 0x1E, 0x1F);
  }

  /** The expansion of the key of appendix C.3 is the printed one. */
  lemma ScheduleC3(key: seq<Byte>, w: seq<Word>)
    requires Counting(key, 32) && Expanded(key, 8, w, 60)
    ensures RoundKeysC3(w)
  {
    hide Expanded, Is;
    FirstWordsC3(key, w);
    Start(key, 8, w, 60, 8, 0x0100_0000, 0x1C1D_1E1F,
          0x0001_0203, 0x0405_0607, 0x0809_0A0B, 0x0C0D_0E0F,
          0xA573_C29F, 0xA176_C498, 0xA97F_CE93, 0xA572_C09C);
    Half(key, w, 60, 12, 0xA572_C09C,
         0x1011_1213, 0x1415_1617, 0x1819_1A1B, 0x1C1D_1E1F,
         0x1651_A8CD, 0x0244_BEDA, 0x1A5D_A4C1, 0x0640_BADE);
    Start(key, 8, w, 60, 16, 0x0200_0000, 0x0640_BADE,
          0xA573_C29F, 0xA176_C498, 0xA97F_CE93, 0xA572_C09C,
          0xAE87_DFF0, 0x0FF1_1B68, 0xA68E_D5FB, 0x03FC_1567);
    Half(key, w, 60, 20, 0x03FC_1567,
         0x1651_A8CD, 0x0244_BEDA, 0x1A5D_A4C1, 0x0640_BADE,
         0x6DE1_F148, 0x6FA5_4F92, 0x75F8_EB53, 0x73B8_518D);
    Start(key, 8, w, 60, 24, 0x0400_0000, 0x73B8_518D,
          0xAE87_DFF0, 0x0FF1_1B68, 0xA68E_D5FB, 0x03FC_1567,
          0xC656_827F, 0xC9A7_9917, 0x6F29_4CEC, 0x6CD5_598B);
    Half(key, w, 60, 28, 0x6CD5_598B,
         0x6DE1_F148, 0x6FA5_4F92, 0x75F8_EB53, 0x73B8_518D,
         0x3DE2_3A75, 0x5247_75E7, 0x27BF_9EB4, 0x5407_CF39);
    Start(key, 8, w, 60, 32, 0x0800_0000, 0x5407_CF39,
          0xC656_827F, 0xC9A7_9917, 0x6F29_4CEC, 0x6CD5_598B,
          0x0BDC_905F, 0xC27B_0948, 0xAD52_45A4, 0xC187_1C2F);
    Half(key, w, 60, 36, 0xC187_1C2F,
         0x3DE2_3A75, 0x5247_75E7, 0x27BF_9EB4, 0x5407_CF39,
         0x45F5_A660, 0x17B2_D387, 0x300D_4D33, 0x640A_820A);
    Start(key, 8, w, 60, 40, 0x1000_0000, 0x640A_820A,
          0x0BDC_905F, 0xC27B_0948, 0xAD52_45A4, 0xC187_1C2F,
          0x7CCF_F71C, 0xBEB4_FE54, 0x13E6_BBF0, 0xD261_A7DF);
    Half(key, w, 60, 44, 0xD261_A7DF,
         0x45F5_A660, 0x17B2_D387, 0x300D_4D33, 0x640A_820A,
         0xF01A_FAFE, 0xE7A8_2979, 0xD7A5_644A, 0xB3AF_E640);
    Start(key, 8, w, 60, 48, 0x2000_0000, 0xB3AF_E640,
          0x7CCF_F71C, 0xBEB4_FE54, 0x13E6_BBF0, 0xD261_A7DF,
          0x2541_FE71, 0x9BF5_0025, 0x8813_BBD5, 0x5A72_1C0A);
    Half(key, w, 60, 52, 0x5A72_1C0A,
         0xF01A_FAFE, 0xE7A8_2979, 0xD7A5_644A, 0xB3AF_E640,
         0x4E5A_6699, 0xA9F2_4FE0, 0x7E57_2BAA, 0xCDF8_CDEA);
    Start(key, 8, w, 60, 56, 0x4000_0000, 0xCDF8_CDEA,
          0x2541_FE71, 0x9BF5_0025, 0x8813_BBD5, 0x5A72_1C0A,
          0x24FC_79CC, 0xBF09_79E9, 0x371A_C23C, 0x6D68_DE36);
  }

  // ---------- appendix C, round by round ----------

  ghost predicate EarlyStatesC1(w: seq<Word>) {
    && After(w, 0, 0x0010_2030, 0x4050_6070, 0x8090_A0B0, 0xC0D0_E0F0)
    && After(w, 1, 0x89D8_10E8, 0x855A_CE68, 0x2D18_43D8, 0xCB12_8FE4)
    && After(w, 2, 0x4915_598F, 0x55E5_D7A0, 0xDACA_94FA, 0x1F0A_63F7)
    && After(w, 3, 0xFA63_6A28, 0x25B3_39C9, 0x4066_8A31, 0x5724_4D17)
    && After(w, 4, 0x2472_4023, 0x6966_B3FA, 0x6ED2_7532, 0x8842_5B6C)
    && After(w, 5, 0xC816_77BC, 0x9B7A_C93B, 0x2502_7992, 0xB026_1996)
  }

  ghost predicate LateStatesC1(w: seq<Word>) {
    && After(w, 6, 0xC62F_E109, 0xF75E_EDC3, 0xCC79_395D, 0x84F9_CF5D)
    && After(w, 7, 0xD187_6C0F, 0x79C4_300A, 0xB455_94AD, 0xD66F_F41F)
    && After(w, 8, 0xFDE3_BAD2, 0x05E5_D0D7, 0x3547_964E, 0xF1FE_37F1)
    && After(w, 9, 0xBD6E_7C3D, 0xF2B5_779E, 0x0B61_216E, 0x8B10_B689)
    && Ends(w, 10, 0x69C4_E0D8, 0x6A7B_0430, 0xD8CD_B780, 0x70B4_C55A)
  }

  lemma EarlyRoundsC1(w: seq<Word>)
    requires RoundKeysC1(w)
    ensures EarlyStatesC1(w)
  {
    hide Is, After;
    Whitened(w, 0x0001_0203, 0x0405_0607, 0x0809_0A0B, 0x0C0D_0E0F,
             0x0010_2030, 0x4050_6070, 0x8090_A0B0, 0xC0D0_E0F0);
    Round(w, 1,
          0x0010_2030, 0x4050_6070, 0x8090_A0B0, 0xC0D0_E0F0,
          0x6353_E08C, 0x0960_E104, 0xCD70_B751, 0xBACA_D0E7,
          0xD6AA_74FD, 0xD2AF_72FA, 0xDAA6_78F1, 0xD6AB_76FE,
          0x89D8_10E8, 0x855A_CE68, 0x2D18_43D8, 0xCB12_8FE4);
    Round(w, 2,
          0x89D8_10E8, 0x855A_CE68, 0x2D18_43D8, 0xCB12_8FE4,
          0xA7BE_1A69, 0x97AD_739B, 0xD8C9_CA45, 0x1F61_8B61,
          0xB692_CF0B, 0x643D_BDF1, 0xBE9B_C500, 0x6830_B3FE,
          0x4915_598F, 0x55E5_D7A0, 0xDACA_94FA, 0x1F0A_63F7);
    Round(w, 3,
          0x4915_598F, 0x55E5_D7A0, 0xDACA_94FA, 0x1F0A_63F7,
          0x3BD9_2268, 0xFC74_FB73, 0x5767_CBE0, 0xC059_0E2D,
          0xB6FF_744E, 0xD2C2_C9BF, 0x6C59_0CBF, 0x0469_BF41,
          0xFA63_6A28, 0x25B3_39C9, 0x4066_8A31, 0x5724_4D17);
    Round(w, 4,
          0xFA63_6A28, 0x25B3_39C9, 0x4066_8A31, 0x5724_4D17,
          0x2D6D_7EF0, 0x3F33_E334, 0x0936_02DD, 0x5BFB_12C7,
          0x47F7_F7BC, 0x9535_3E03, 0xF96C_32BC, 0xFD05_8DFD,
          0x2472_4023, 0x6966_B3FA, 0x6ED2_7532, 0x8842_5B6C);
    Round(w, 5,
          0x2472_4023, 0x6966_B3FA, 0x6ED2_7532, 0x8842_5B6C,
          0x3633_9D50, 0xF9B5_3926, 0x9F2C_092D, 0xC440_6D23,
          0x3CAA_A3E8, 0xA99F_9DEB, 0x50F3_AF57, 0xADF6_22AA,
          0xC816_77BC, 0x9B7A_C93B, 0x2502_7992, 0xB026_1996);
  }

  lemma LateRoundsC1(w: seq<Word>)
    requires RoundKeysC1(w) && EarlyStatesC1(w)
    ensures LateStatesC1(w)
  {
    hide Is, After, Ends;
    Round(w, 6,
          0xC816_77BC, 0x9B7A_C93B, 0x2502_7992, 0xB026_1996,
          0xE8DA_B690, 0x1477_D465, 0x3FF7_F5E2, 0xE747_DD4F,
          0x5E39_0F7D, 0xF7A6_9296, 0xA755_3DC1, 0x0AA3_1F6B,
          0xC62F_E109, 0xF75E_EDC3, 0xCC79_395D, 0x84F9_CF5D);
    Round(w, 7,
          0xC62F_E109, 0xF75E_EDC3, 0xCC79_395D, 0x84F9_CF5D,
          0xB458_124C, 0x68B6_8A01, 0x4B99_F82E, 0x5F15_554C,
          0x14F9_701A, 0xE35F_E28C, 0x440A_DF4D, 0x4EA9_C026,
          0xD187_6C0F, 0x79C4_300A, 0xB455_94AD, 0xD66F_F41F);
    Round(w, 8,
          0xD187_6C0F, 0x79C4_300A, 0xB455_94AD, 0xD66F_F41F,
          0x3E1C_22C0, 0xB6FC_BF76, 0x8DA8_5067, 0xF617_0495,
          0x4743_8735, 0xA41C_65B9, 0xE016_BAF4, 0xAEBF_7AD2,
          0xFDE3_BAD2, 0x05E5_D0D7, 0x3547_964E, 0xF1FE_37F1);
    Round(w, 9,
          0xFDE3_BAD2, 0x05E5_D0D7, 0x3547_964E, 0xF1FE_37F1,
          0x54D9_90A1, 0x6BA0_9AB5, 0x96BB_F40E, 0xA111_702F,
          0x5499_32D1, 0xF085_5768, 0x1093_ED9C, 0xBE2C_974E,
          0xBD6E_7C3D, 0xF2B5_779E, 0x0B61_216E, 0x8B10_B689);
    Last(w, 10,
          0xBD6E_7C3D, 0xF2B5_779E, 0x0B61_216E, 0x8B10_B689,
          0x7AD5_FDA7, 0x89EF_4E27, 0x2BCA_100B, 0x3D9F_F59F,
          0x1311_1D7F, 0xE394_4A17, 0xF307_A78B, 0x4D2B_30C5,
          0x69C4_E0D8, 0x6A7B_0430, 0xD8CD_B780, 0x70B4_C55A);
  }

  /** Appendix C.1: the states between the rounds and the block at the end are the printed ones. */
  lemma RoundsC1(key: seq<Byte>, w: seq<Word>)
    requires Counting(key, 16) && Expanded(key, 4, w, 44)
    ensures EarlyStatesC1(w) && LateStatesC1(w)
  {
    hide Expanded, RoundKeysC1, EarlyStatesC1, LateStatesC1;
    ScheduleC1(key, w);
    EarlyRoundsC1(w);
    LateRoundsC1(w);
  }

  ghost predicate EarlyStatesC2(w: seq<Word>) {
    && After(w, 0, 0x0010_2030, 0x4050_6070, 0x8090_A0B0, 0xC0D0_E0F0)
    && After(w, 1, 0x4F63_7606, 0x43E0_AA85, 0xAFF8_C9D0, 0x41FA_0DE4)
    && After(w, 2, 0xCB02_818C, 0x17D2_AF9C, 0x62AA_6442, 0x8BB2_5FD7)
    && After(w, 3, 0xF75C_7778, 0xA327_C8ED, 0x8CFE_BFC1, 0xA6C3_7F53)
    && After(w, 4, 0x22FF_C916, 0xA814_7441, 0x6496_F19C, 0x64AE_2532)
    && After(w, 5, 0x8012_1E07, 0x76FD_1D8A, 0x8D8C_31BC, 0x965D_1FEE)
    && After(w, 6, 0x671E_F1FD, 0x4E2A_1E03, 0xDFDC_B1EF, 0x3D78_9B30)
  }

  ghost predicate LateStatesC2(w: seq<Word>) {
    && After(w, 7, 0x0C03_70D0, 0x0C01_E622, 0x166B_8ACC, 0xD6DB_3A2C)
    && After(w, 8, 0x7255_DAD3, 0x0FB8_0310, 0xE00D_6C6B, 0x40D0_527C)
    && After(w, 9, 0xA906_B254, 0x968A_F4E9, 0xB4BD_B2D2, 0xF0C4_4336)
    && After(w, 10, 0x88EC_930E, 0xF5E7_E4B6, 0xCC32_F4C9, 0x06D2_9414)
    && After(w, 11, 0xAFB7_3EEB, 0x1CD1_B851, 0x6228_0F27, 0xFB20_D585)
    && Ends(w, 12, 0xDDA9_7CA4, 0x864C_DFE0, 0x6EAF_70A0, 0xEC0D_7191)
  }

  lemma EarlyRoundsC2(w: seq<Word>)
    requires RoundKeysC2(w)
    ensures EarlyStatesC2(w)
  {
    hide Is, After;
    Whitened(w, 0x0001_0203, 0x0405_0607, 0x0809_0A0B, 0x0C0D_0E0F,
             0x0010_2030, 0x4050_6070, 0x8090_A0B0, 0xC0D0_E0F0);
    Round(w, 1,
          0x0010_2030, 0x4050_6070, 0x8090_A0B0, 0xC0D0_E0F0,
          0x6353_E08C, 0x0960_E104, 0xCD70_B751, 0xBACA_D0E7,
          0x1011_1213, 0x1415_1617, 0x5846_F2F9, 0x5C43_F4FE,
          0x4F63_7606, 0x43E0_AA85, 0xAFF8_C9D0, 0x41FA_0DE4);
    Round(w, 2,
          0x4F63_7606, 0x43E0_AA85, 0xAFF8_C9D0, 0x41FA_0DE4,
          0x84E1_DD69, 0x1A41_D76F, 0x792D_3897, 0x83FB_AC70,
          0x544A_FEF5, 0x5847_F0FA, 0x4856_E2E9, 0x5C43_F4FE,
          0xCB02_818C, 0x17D2_AF9C, 0x62AA_6442, 0x8BB2_5FD7);
    Round(w, 3,
          0xCB02_818C, 0x17D2_AF9C, 0x62AA_6442, 0x8BB2_5FD7,
          0x1FB5_430E, 0xF0AC_CF64, 0xAA37_0CDE, 0x3D77_792C,
          0x40F9_49B3, 0x1CBA_BD4D, 0x48F0_43B8, 0x10B7_B342,
          0xF75C_7778, 0xA327_C8ED, 0x8CFE_BFC1, 0xA6C3_7F53);
    Round(w, 4,
          0xF75C_7778, 0xA327_C8ED, 0x8CFE_BFC1, 0xA6C3_7F53,
          0x68CC_08ED, 0x0ABB_D2BC, 0x642E_F555, 0x244A_E878,
          0x58E1_51AB, 0x04A2_A555, 0x7EFF_B541, 0x6245_080C,
          0x22FF_C916, 0xA814_7441, 0x6496_F19C, 0x64AE_2532);
    Round(w, 5,
          0x22FF_C916, 0xA814_7441, 0x6496_F19C, 0x64AE_2532,
          0x93FA_A123, 0xC290_3F47, 0x43E4_DD83, 0x4316_92DE,
          0x2AB5_4BB4, 0x3A02_F8F6, 0x62E3_A95D, 0x6641_0C08,
          0x8012_1E07, 0x76FD_1D8A, 0x8D8C_31BC, 0x965D_1FEE);
    Round(w, 6,
          0x8012_1E07, 0x76FD_1D8A, 0x8D8C_31BC, 0x965D_1FEE,
          0xCD54_C728, 0x3864_C0C5, 0x5D4C_727E, 0x90C9_A465,
          0xF501_8572, 0x9744_8D7E, 0xBDF1_C6CA, 0x87F3_3E3C,
          0x671E_F1FD, 0x4E2A_1E03, 0xDFDC_B1EF, 0x3D78_9B30);
  }

  lemma LateRoundsC2(w: seq<Word>)
    requires RoundKeysC2(w) && EarlyStatesC2(w)
    ensures LateStatesC2(w)
  {
    hide Is, After, Ends;
    Round(w, 7,
          0x671E_F1FD, 0x4E2A_1E03, 0xDFDC_B1EF, 0x3D78_9B30,
          0x85E5_C804, 0x2F86_1454, 0x9EBC_A17B, 0x2772_72DF,
          0xE510_9761, 0x8351_9B69, 0x3415_7C9E, 0xA351_F1E0,
          0x0C03_70D0, 0x0C01_E622, 0x166B_8ACC, 0xD6DB_3A2C);
    Round(w, 8,
          0x0C03_70D0, 0x0C01_E622, 0x166B_8ACC, 0xD6DB_3A2C,
          0xFE7C_7E71, 0xFE7F_8070, 0x47B9_5193, 0xF67B_8E4B,
          0x1EA0_372A, 0x9953_0916, 0x7C43_9E77, 0xFF12_051E,
          0x7255_DAD3, 0x0FB8_0310, 0xE00D_6C6B, 0x40D0_527C);
    Round(w, 9,
          0x7255_DAD3, 0x0FB8_0310, 0xE00D_6C6B, 0x40D0_527C,
          0x406C_5010, 0x76D7_0066, 0xE170_57CA, 0x09FC_7B7F,
          0xDD7E_0E88, 0x7E2F_FF68, 0x608F_C842, 0xF9DC_C154,
          0xA906_B254, 0x968A_F4E9, 0xB4BD_B2D2, 0xF0C4_4336);
    Round(w, 10,
          0xA906_B254, 0x968A_F4E9, 0xB4BD_B2D2, 0xF0C4_4336,
          0xD37E_3705, 0x907A_1A20, 0x8D1C_371E, 0x8C6F_BFB5,
          0x859F_5F23, 0x7A8D_5A3D, 0xC0C0_2952, 0xBEEF_D63A,
          0x88EC_930E, 0xF5E7_E4B6, 0xCC32_F4C9, 0x06D2_9414);
    Round(w, 11,
          0x88EC_930E, 0xF5E7_E4B6, 0xCC32_F4C9, 0x06D2_9414,
          0xC494_BFFA, 0xE623_22AB, 0x4BB5_DC4E, 0x6FCE_69DD,
          0xDE60_1E78, 0x27BC_DF2C, 0xA223_800F, 0xD8AE_DA32,
          0xAFB7_3EEB, 0x1CD1_B851, 0x6228_0F27, 0xFB20_D585);
    Last(w, 12,
          0xAFB7_3EEB, 0x1CD1_B851, 0x6228_0F27, 0xFB20_D585,
          0x793E_7697, 0x9C34_03E9, 0xAAB7_B2D1, 0x0FA9_6CCC,
          0xA497_0A33, 0x1A78_DC09, 0xC418_C271, 0xE3A4_1D5D,
          0xDDA9_7CA4, 0x864C_DFE0, 0x6EAF_70A0, 0xEC0D_7191);
  }

  /** Appendix C.2: the states between the rounds and the block at the end are the printed ones. */
  lemma RoundsC2(key: seq<Byte>, w: seq<Word>)
    requires Counting(key, 24) && Expanded(key, 6, w, 52)
    ensures EarlyStatesC2(w) && LateStatesC2(w)
  {
    hide Expanded, RoundKeysC2, EarlyStatesC2, LateStatesC2;
    ScheduleC2(key, w);
    EarlyRoundsC2(w);
    LateRoundsC2(w);
  }

  ghost predicate EarlyStatesC3(w: seq<Word>) {
    && After(w, 0, 0x0010_2030, 0x4050_6070, 0x8090_A0B0, 0xC0D0_E0F0)
    && After(w, 1, 0x4F63_7606, 0x43E0_AA85, 0xEFA7_2132, 0x01A4_E705)
    && After(w, 2, 0x1859_FBC2, 0x8A1C_00A0, 0x78ED_8AAD, 0xC42F_6109)
    && After(w, 3, 0x975C_66C1, 0xCB9F_3FA8, 0xA93A_28DF, 0x8EE1_0F63)
    && After(w, 4, 0x1C05_F271, 0xA417_E04F, 0xF921_C5C1, 0x0470_1554)
    && After(w, 5, 0xC357_AAE1, 0x1B45_B7B0, 0xA2C7_BD28, 0xA8DC_99FA)
    && After(w, 6, 0x7F07_4143, 0xCB4E_243E, 0xC10C_815D, 0x8375_D54C)
    && After(w, 7, 0xD653_A469, 0x6CA0_BC0F, 0x5ACA_AB5D, 0xB96C_5E7D)
  }

  ghost predicate LateStatesC3(w: seq<Word>) {
    && After(w, 8, 0x5AA8_5839, 0x5FD2_8D7D, 0x05E1_A388, 0x68F3_B9C5)
    && After(w, 9, 0x4A82_4851, 0xC57E_7E47, 0x643D_E50C, 0x2AF3_E8C9)
    && After(w, 10, 0xC149_07F6, 0xCA3B_3AA0, 0x70E9_AA31, 0x3B52_B5EC)
    && After(w, 11, 0x5F9C_6ABF, 0xBAC6_34AA, 0x5040_9FA7, 0x6667_7653)
    && After(w, 12, 0x5166_0495, 0x4353_9503, 0x14FB_86E4, 0x0192_2521)
    && After(w, 13, 0x627B_CEB9, 0x999D_5AAA, 0xC945_ECF4, 0x23F5_6DA5)
    && Ends(w, 14, 0x8EA2_B7CA, 0x5167_45BF, 0xEAFC_4990, 0x4B49_6089)
  }

  lemma EarlyRoundsC3(w: seq<Word>)
    requires RoundKeysC3(w)
    ensures EarlyStatesC3(w)
  {
    hide Is, After;
    Whitened(w, 0x0001_0203, 0x0405_0607, 0x0809_0A0B, 0x0C0D_0E0F,
             0x0010_2030, 0x4050_6070, 0x8090_A0B0, 0xC0D0_E0F0);
    Round(w, 1,
          0x0010_2030, 0x4050_6070, 0x8090_A0B0, 0xC0D0_E0F0,
          0x6353_E08C, 0x0960_E104, 0xCD70_B751, 0xBACA_D0E7,
          0x1011_1213, 0x1415_1617, 0x1819_1A1B, 0x1C1D_1E1F,
          0x4F63_7606, 0x43E0_AA85, 0xEFA7_2132, 0x01A4_E705);
    Round(w, 2,
          0x4F63_7606, 0x43E0_AA85, 0xEFA7_2132, 0x01A4_E705,
          0x84E1_FD6B, 0x1A5C_946F, 0xDF49_3897, 0x7CFB_AC23,
          0xA573_C29F, 0xA176_C498, 0xA97F_CE93, 0xA572_C09C,
          0x1859_FBC2, 0x8A1C_00A0, 0x78ED_8AAD, 0xC42F_6109);
    Round(w, 3,
          0x1859_FBC2, 0x8A1C_00A0, 0x78ED_8AAD, 0xC42F_6109,
          0xAD9C_7E01, 0x7E55_EF25, 0xBC15_0FE0, 0x1CCB_6395,
          0x1651_A8CD, 0x0244_BEDA, 0x1A5D_A4C1, 0x0640_BADE,
          0x975C_66C1, 0xCB9F_3FA8, 0xA93A_28DF, 0x8EE1_0F63);
    Round(w, 4,
          0x975C_66C1, 0xCB9F_3FA8, 0xA93A_28DF, 0x8EE1_0F63,
          0x88DB_34FB, 0x1F80_7678, 0xD3F8_33C2, 0x194A_759E,
          0xAE87_DFF0, 0x0FF1_1B68, 0xA68E_D5FB, 0x03FC_1567,
          0x1C05_F271, 0xA417_E04F, 0xF921_C5C1, 0x0470_1554);
    Round(w, 5,
          0x1C05_F271, 0xA417_E04F, 0xF921_C5C1, 0x0470_1554,
          0x9CF0_A620, 0x49FD_59A3, 0x9951_8984, 0xF26B_E178,
          0x6DE1_F148, 0x6FA5_4F92, 0x75F8_EB53, 0x73B8_518D,
          0xC357_AAE1, 0x1B45_B7B0, 0xA2C7_BD28, 0xA8DC_99FA);
    Round(w, 6,
          0xC357_AAE1, 0x1B45_B7B0, 0xA2C7_BD28, 0xA8DC_99FA,
          0x2E6E_7A2D, 0xAFC6_EEF8, 0x3A86_ACE7, 0xC25B_A934,
          0xC656_827F, 0xC9A7_9917, 0x6F29_4CEC, 0x6CD5_598B,
          0x7F07_4143, 0xCB4E_243E, 0xC10C_815D, 0x8375_D54C);
    Round(w, 7,
          0x7F07_4143, 0xCB4E_243E, 0xC10C_815D, 0x8375_D54C,
          0xD22F_0C29, 0x1FFE_031A, 0x789D_83B2, 0xECC5_364C,
          0x3DE2_3A75, 0x5247_75E7, 0x27BF_9EB4, 0x5407_CF39,
          0xD653_A469, 0x6CA0_BC0F, 0x5ACA_AB5D, 0xB96C_5E7D);
  }

  lemma LateRoundsC3(w: seq<Word>)
    requires RoundKeysC3(w) && EarlyStatesC3(w)
    ensures LateStatesC3(w)
  {
    hide Is, After, Ends;
    Round(w, 8,
          0xD653_A469, 0x6CA0_BC0F, 0x5ACA_AB5D, 0xB96C_5E7D,
          0xF6E0_62FF, 0x5074_58F9, 0xBE50_4976, 0x56ED_654C,
          0x0BDC_905F, 0xC27B_0948, 0xAD52_45A4, 0xC187_1C2F,
          0x5AA8_5839, 0x5FD2_8D7D, 0x05E1_A388, 0x68F3_B9C5);
    Round(w, 9,
          0x5AA8_5839, 0x5FD2_8D7D, 0x05E1_A388, 0x68F3_B9C5,
          0xBEB5_0AA6, 0xCFF8_5612, 0x6B0D_6AFF, 0x45C2_5DC4,
          0x45F5_A660, 0x17B2_D387, 0x300D_4D33, 0x640A_820A,
          0x4A82_4851, 0xC57E_7E47, 0x643D_E50C, 0x2AF3_E8C9);
    Round(w, 10,
          0x4A82_4851, 0xC57E_7E47, 0x643D_E50C, 0x2AF3_E8C9,
          0xD6F3_D9DD, 0xA627_9BD1, 0x430D_52A0, 0xE513_F3FE,
          0x7CCF_F71C, 0xBEB4_FE54, 0x13E6_BBF0, 0xD261_A7DF,
          0xC149_07F6, 0xCA3B_3AA0, 0x70E9_AA31, 0x3B52_B5EC);
    Round(w, 11,
          0xC149_07F6, 0xCA3B_3AA0, 0x70E9_AA31, 0x3B52_B5EC,
          0x78E2_ACCE, 0x741E_D542, 0x5100_C5E0, 0xE23B_80C7,
          0xF01A_FAFE, 0xE7A8_2979, 0xD7A5_644A, 0xB3AF_E640,
          0x5F9C_6ABF, 0xBAC6_34AA, 0x5040_9FA7, 0x6667_7653);
    Round(w, 12,
          0x5F9C_6ABF, 0xBAC6_34AA, 0x5040_9FA7, 0x6667_7653,
          0xCFB4_DBED, 0xF409_3808, 0x5385_02AC, 0x33DE_185C,
          0x2541_FE71, 0x9BF5_0025, 0x8813_BBD5, 0x5A72_1C0A,
          0x5166_0495, 0x4353_9503, 0x14FB_86E4, 0x0192_2521);
    Round(w, 13,
          0x5166_0495, 0x4353_9503, 0x14FB_86E4, 0x0192_2521,
          0xD1ED_44FD, 0x1A0F_3F2A, 0xFA4F_F27B, 0x7C33_2A69,
          0x4E5A_6699, 0xA9F2_4FE0, 0x7E57_2BAA, 0xCDF8_CDEA,
          0x627B_CEB9, 0x999D_5AAA, 0xC945_ECF4, 0x23F5_6DA5);
    Last(w, 14,
          0x627B_CEB9, 0x999D_5AAA, 0xC945_ECF4, 0x23F5_6DA5,
          0xAA5E_CE06, 0xEE6E_3C56, 0xDDE6_8BAC, 0x2621_BEBF,
          0x24FC_79CC, 0xBF09_79E9, 0x371A_C23C, 0x6D68_DE36,
          0x8EA2_B7CA, 0x5167_45BF, 0xEAFC_4990, 0x4B49_6089);
  }

  /** Appendix C.3: the states between the rounds and the block at the end are the printed ones. */
  lemma RoundsC3(key: seq<Byte>, w: seq<Word>)
    requires Counting(key, 32) && Expanded(key, 8, w, 60)
    ensures EarlyStatesC3(w) && LateStatesC3(w)
  {
    hide Expanded, RoundKeysC3, EarlyStatesC3, LateStatesC3;
    ScheduleC3(key, w);
    EarlyRoundsC3(w);
    LateRoundsC3(w);
  }

  // ---------- end to end ----------

  /** The ciphertexts of appendix C. */
  function Answer(keysize: int): seq<Byte> {
    if keysize == 128 then
      [0x69, 0xC4, 0xE0, 0xD8, 0x6A, 0x7B, 0x04, 0x30, 0xD8, 0xCD, 0xB7, 0x80, 0x70, 0xB4, 0xC5, 0x5A]
    else if keysize == 192 then
      [0xDD, 0xA9, 0x7C, 0xA4, 0x86, 0x4C, 0xDF, 0xE0, 0x6E, 0xAF, 0x70, 0xA0, 0xEC, 0x0D, 0x71, 0x91]
    else
      [0x8E, 0xA2, 0xB7, 0xCA, 0x51, 0x67, 0x45, 0xBF, 0xEA, 0xFC, 0x49, 0x90, 0x4B, 0x49, 0x60, 0x89]
  }

  lemma CipherAnswer(keysize: int, key: seq<Byte>, w: seq<Word>, b: Block)
    requires AesCipher.ValidSize(keysize) && Counting(key, keysize / 8) && Example(b)
    requires Expanded(key, keysize / 32, w, 4 * AesCipher.Rounds(keysize) + 4)
    ensures 4 * AesCipher.Rounds(keysize) + 4 <= |w|
    ensures StateBlock(Cipher(w, AesCipher.Rounds(keysize), BlockState(b))) == Answer(keysize)
  {
    hide Expanded, EarlyStatesC1, EarlyStatesC2, EarlyStatesC3, After, Cipher, Answer, Example;
    hide BlockState, StateBlock, Shown;
    Printed();
    if keysize == 128 {
      RoundsC1(key, w);
    } else if keysize == 192 {
      RoundsC2(key, w);
    } else {
      RoundsC3(key, w);
    }
  }

  lemma Printed()
    ensures StateBlock(Shown(0x69C4_E0D8, 0x6A7B_0430, 0xD8CD_B780, 0x70B4_C55A)) == Answer(128)
    ensures StateBlock(Shown(0xDDA9_7CA4, 0x864C_DFE0, 0x6EAF_70A0, 0xEC0D_7191)) == Answer(192)
    ensures StateBlock(Shown(0x8EA2_B7CA, 0x5167_45BF, 0xEAFC_4990, 0x4B49_6089)) == Answer(256)
  {
  }

  /** The key 00 01 02 ... and the block 00 11 22 ... ff, through the context, end in the ciphertexts of appendix C. */
  method EncryptExample(key: seq<Byte>, keysize: int, block: array<Byte>)
    requires AesCipher.ValidSize(keysize) && |key| == keysize / 8 && forall i :: 0 <= i < |key| ==> key[i] == i
    requires block.Length == 16 && forall i :: 0 <= i < 16 ==> block[i] == 17 * i
    modifies block
    ensures block[..] == Answer(keysize)
  {
    hide Answer, Cipher, Expanded, Scheduled, BlockState, StateBlock;
    ghost var b: Block := block[..];
    var context := new AesCipher.AesContext();
    var ret := context.SetKeyEnc(key, keysize);
    CipherAnswer(keysize, key, context.buf[..], b);
    context.CryptEcb(AesCipher.ENCRYPT, block, block);
  }
}
