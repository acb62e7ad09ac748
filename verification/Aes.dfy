/** AES as section 5 of FIPS-197 describes it: a state of four columns, and the two ciphers on it. */
module Aes {
  import opened Bytes
  import opened MachineWords
  import opened Galois
  import opened AesBoxes

  datatype Col = Col(b0: Byte, b1: Byte, b2: Byte, b3: Byte)

  datatype State = State(c0: Col, c1: Col, c2: Col, c3: Col)

  // ---------- the steps ----------

  function XorCol(a: Col, b: Col): Col {
    Col(Xor(a.b0, b.b0), Xor(a.b1, b.b1), Xor(a.b2, b.b2), Xor(a.b3, b.b3))
  }

  function SubCol(c: Col): Col {
    Col(FSb(c.b0), FSb(c.b1), FSb(c.b2), FSb(c.b3))
  }

  function InvSubCol(c: Col): Col {
    Col(RSb(c.b0), RSb(c.b1), RSb(c.b2), RSb(c.b3))
  }

  function Sum4(a: Byte, b: Byte, c: Byte, d: Byte): Byte {
    Xor(Xor(a, b), Xor(c, d))
  }

  /** One row of a matrix over GF(2^8) times a column. */
  function Row(p0: Poly, p1: Poly, p2: Poly, p3: Poly, c: Col): Byte {
    Sum4(Times(p0, c.b0), Times(p1, c.b1), Times(p2, c.b2), Times(p3, c.b3))
  }

  function MixCol(c: Col): Col {
    Col(Row(P2, P3, P1, P1, c), Row(P1, P2, P3, P1, c), Row(P1, P1, P2, P3, c), Row(P3, P1, P1, P2, c))
  }

  function InvMixCol(c: Col): Col {
    Col(Row(PE, PB, PD, P9, c), Row(P9, PE, PB, PD, c), Row(PD, P9, PE, PB, c), Row(PB, PD, P9, PE, c))
  }

  function SubBytes(s: State): State {
    State(SubCol(s.c0), SubCol(s.c1), SubCol(s.c2), SubCol(s.c3))
  }

  function InvSubBytes(s: State): State {
    State(InvSubCol(s.c0), InvSubCol(s.c1), InvSubCol(s.c2), InvSubCol(s.c3))
  }

  function Diagonal(a: Col, b: Col, c: Col, d: Col): Col {
    Col(a.b0, b.b1, c.b2, d.b3)
  }

  /** Row r moves r places to the left. */
  function ShiftRows(s: State): State {
    State(Diagonal(s.c0, s.c1, s.c2, s.c3), Diagonal(s.c1, s.c2, s.c3, s.c0),
          Diagonal(s.c2, s.c3, s.c0, s.c1), Diagonal(s.c3, s.c0, s.c1, s.c2))
  }

  /** Row r moves r places to the right. */
  function InvShiftRows(s: State): State {
    State(Diagonal(s.c0, s.c3, s.c2, s.c1), Diagonal(s.c1, s.c0, s.c3, s.c2),
          Diagonal(s.c2, s.c1, s.c0, s.c3), Diagonal(s.c3, s.c2, s.c1, s.c0))
  }

  function MixColumns(s: State): State {
    State(MixCol(s.c0), MixCol(s.c1), MixCol(s.c2), MixCol(s.c3))
  }

  function InvMixColumns(s: State): State {
    State(InvMixCol(s.c0), InvMixCol(s.c1), InvMixCol(s.c2), InvMixCol(s.c3))
  }

  function AddKey(s: State, k: State): State {
    State(XorCol(s.c0, k.c0), XorCol(s.c1, k.c1), XorCol(s.c2, k.c2), XorCol(s.c3, k.c3))
  }

  // ---------- the ciphers ----------

  /** The column that a word holds, least significant byte first. */
  function Unpack(w: Word): Col {
    Col(ByteOf(w, 0), ByteOf(w, 1), ByteOf(w, 2), ByteOf(w, 3))
  }

  /** Round key r of a schedule. */
  function Key(w: seq<Word>, r: nat): State
    requires 4 * r + 4 <= |w|
  {
    State(Unpack(w[4 * r]), Unpack(w[4 * r + 1]), Unpack(w[4 * r + 2]), Unpack(w[4 * r + 3]))
  }

  /** The state after round r of encryption. */
  function EncState(w: seq<Word>, x: State, r: nat): State
    requires 4 * r + 4 <= |w|
    decreases r
  {
    if r == 0 then AddKey(x, Key(w, 0))
    else AddKey(MixColumns(ShiftRows(SubBytes(EncState(w, x, r - 1)))), Key(w, r))
  }

  /** The cipher with nr rounds: the last one has no MixColumns. */
  function Cipher(w: seq<Word>, nr: nat, x: State): State
    requires 1 <= nr && 4 * nr + 4 <= |w|
  {
    AddKey(ShiftRows(SubBytes(EncState(w, x, nr - 1))), Key(w, nr))
  }

  /** The state after round r of the equivalent inverse cipher. */
  function DecState(w: seq<Word>, x: State, r: nat): State
    requires 4 * r + 4 <= |w|
    decreases r
  {
    if r == 0 then AddKey(x, Key(w, 0))
    else AddKey(InvMixColumns(InvShiftRows(InvSubBytes(DecState(w, x, r - 1)))), Key(w, r))
  }

  /** The equivalent inverse cipher of section 5.3.5. */
  function InvCipher(w: seq<Word>, nr: nat, x: State): State
    requires 1 <= nr && 4 * nr + 4 <= |w|
  {
    AddKey(InvShiftRows(InvSubBytes(DecState(w, x, nr - 1))), Key(w, nr))
  }

  /** The schedule of the equivalent inverse cipher: the round keys backwards, the inner ones mixed. */
  ghost predicate InverseKeys(d: seq<Word>, w: seq<Word>, nr: nat) {
    && 1 <= nr && 4 * nr + 4 <= |w| && 4 * nr + 4 <= |d|
    && Key(d, 0) == Key(w, nr) && Key(d, nr) == Key(w, 0)
    && forall r :: 0 < r < nr ==> Key(d, r) == InvMixColumns(Key(w, nr - r))
  }

  // ---------- each step undoes its opposite ----------

  lemma SubColUndone(c: Col)
    ensures InvSubCol(SubCol(c)) == c
  {
    hide FSb, RSb;
    BoxesInverse(c.b0);
    BoxesInverse(c.b1);
    BoxesInverse(c.b2);
    BoxesInverse(c.b3);
  }

  lemma SubUndone(s: State)
    ensures InvSubBytes(SubBytes(s)) == s
  {
    hide SubCol, InvSubCol;
    SubColUndone(s.c0);
    SubColUndone(s.c1);
    SubColUndone(s.c2);
    SubColUndone(s.c3);
  }

  /** Substitution and row shifts commute, so their inverses undo them in either order. */
  lemma RowsUndone(s: State)
    ensures InvShiftRows(InvSubBytes(ShiftRows(SubBytes(s)))) == s
  {
    hide FSb, RSb;
    SubUndone(s);
    SubShift(SubBytes(s));
  }

  lemma SubShift(s: State)
    ensures InvShiftRows(InvSubBytes(ShiftRows(s))) == InvSubBytes(s)
  {
    hide FSb, RSb;
  }

  // ---------- the inverse of MixColumns ----------

  lemma Sum4Xor(a: Byte, b: Byte, c: Byte, d: Byte, a': Byte, b': Byte, c': Byte, d': Byte)
    ensures Xor(Sum4(a, b, c, d), Sum4(a', b', c', d')) == Sum4(Xor(a, a'), Xor(b, b'), Xor(c, c'), Xor(d, d'))
  {
    hide Xor;
    Swap4(Xor(a, b), Xor(c, d), Xor(a', b'), Xor(c', d'));
    Swap4(a, b, a', b');
    Swap4(c, d, c', d');
  }

  lemma RowXor(p0: Poly, p1: Poly, p2: Poly, p3: Poly, q0: Poly, q1: Poly, q2: Poly, q3: Poly, c: Col)
    ensures Xor(Row(p0, p1, p2, p3, c), Row(q0, q1, q2, q3, c))
      == Row(Sum(p0, q0), Sum(p1, q1), Sum(p2, q2), Sum(p3, q3), c)
  {
    hide Xor, Times, Sum4, Sum;
    TimesSum(p0, q0, c.b0);
    TimesSum(p1, q1, c.b1);
    TimesSum(p2, q2, c.b2);
    TimesSum(p3, q3, c.b3);
    Sum4Xor(Times(p0, c.b0), Times(p1, c.b1), Times(p2, c.b2), Times(p3, c.b3),
            Times(q0, c.b0), Times(q1, c.b1), Times(q2, c.b2), Times(q3, c.b3));
  }

  lemma TimesSum4(p: Poly, a: Byte, b: Byte, c: Byte, d: Byte)
    ensures Times(p, Sum4(a, b, c, d)) == Sum4(Times(p, a), Times(p, b), Times(p, c), Times(p, d))
  {
    hide Xor, Times;
    TimesLinear(p, Xor(a, b), Xor(c, d));
    TimesLinear(p, a, b);
    TimesLinear(p, c, d);
  }

  lemma RowTimes(p: Poly, q0: Poly, q1: Poly, q2: Poly, q3: Poly, c: Col)
    requires !p.d4 && Linear(q0) && Linear(q1) && Linear(q2) && Linear(q3)
    ensures Times(p, Row(q0, q1, q2, q3, c)) == Row(Product(p, q0), Product(p, q1), Product(p, q2), Product(p, q3), c)
  {
    hide Xor, Times, Sum4, Product;
    TimesSum4(p, Times(q0, c.b0), Times(q1, c.b1), Times(q2, c.b2), Times(q3, c.b3));
    TimesTimes(p, q0, c.b0);
    TimesTimes(p, q1, c.b1);
    TimesTimes(p, q2, c.b2);
    TimesTimes(p, q3, c.b3);
  }

  /** The entry that a row of coefficients makes with a column of coefficients. */
  function Entry(p0: Poly, p1: Poly, p2: Poly, p3: Poly, m0: Poly, m1: Poly, m2: Poly, m3: Poly): Poly {
    Sum(Sum(Product(p0, m0), Product(p1, m1)), Sum(Product(p2, m2), Product(p3, m3)))
  }

  /** A row times the mixed column is the product row times the column. */
  lemma RowOfMixed(p0: Poly, p1: Poly, p2: Poly, p3: Poly, c: Col)
    requires !p0.d4 && !p1.d4 && !p2.d4 && !p3.d4
    ensures Row(p0, p1, p2, p3, MixCol(c)) == Row(Entry(p0, p1, p2, p3, P2, P1, P1, P3), Entry(p0, p1, p2, p3, P3, P2, P1, P1),
                                                  Entry(p0, p1, p2, p3, P1, P3, P2, P1), Entry(p0, p1, p2, p3, P1, P1, P3, P2), c)
  {
    hide Xor, Times, Product, Sum, Row;
    RowIs(p0, p1, p2, p3, MixCol(c));
    RowTimes(p0, P2, P3, P1, P1, c);
    RowTimes(p1, P1, P2, P3, P1, c);
    RowTimes(p2, P1, P1, P2, P3, c);
    RowTimes(p3, P3, P1, P1, P2, c);
    RowXor(Product(p0, P2), Product(p0, P3), Product(p0, P1), Product(p0, P1),
           Product(p1, P1), Product(p1, P2), Product(p1, P3), Product(p1, P1), c);
    RowXor(Product(p2, P1), Product(p2, P1), Product(p2, P2), Product(p2, P3),
           Product(p3, P3), Product(p3, P1), Product(p3, P1), Product(p3, P2), c);
    RowXor(Sum(Product(p0, P2), Product(p1, P1)), Sum(Product(p0, P3), Product(p1, P2)),
           Sum(Product(p0, P1), Product(p1, P3)), Sum(Product(p0, P1), Product(p1, P1)),
           Sum(Product(p2, P1), Product(p3, P3)), Sum(Product(p2, P1), Product(p3, P1)),
           Sum(Product(p2, P2), Product(p3, P1)), Sum(Product(p2, P3), Product(p3, P2)), c);
  }

  lemma RowIs(p0: Poly, p1: Poly, p2: Poly, p3: Poly, c: Col)
    ensures Row(p0, p1, p2, p3, c)
      == Xor(Xor(Times(p0, c.b0), Times(p1, c.b1)), Xor(Times(p2, c.b2), Times(p3, c.b3)))
  {
  }

  lemma UnitRows(c: Col)
    ensures Row(P1, NONE, NONE, NONE, c) == c.b0 && Row(NONE, P1, NONE, NONE, c) == c.b1
    ensures Row(NONE, NONE, P1, NONE, c) == c.b2 && Row(NONE, NONE, NONE, P1, c) == c.b3
  {
    hide Xor, Times;
    TimesOne(c.b0);
    TimesNone(c.b0);
    TimesOne(c.b1);
    TimesNone(c.b1);
    TimesOne(c.b2);
    TimesNone(c.b2);
    TimesOne(c.b3);
    TimesNone(c.b3);
    XorZero(c.b0);
    XorZero(c.b1);
    XorZero(c.b2);
    XorZero(c.b3);
    XorZero(0);
  }

  /** The product of the two matrices over GF(2)[x], without any reduction. */
  lemma MatrixProduct()
    ensures Entry(PE, PB, PD, P9, P2, P1, P1, P3) == P1
    ensures Entry(PE, PB, PD, P9, P3, P2, P1, P1) == NONE
    ensures Entry(PE, PB, PD, P9, P1, P3, P2, P1) == NONE
    ensures Entry(PE, PB, PD, P9, P1, P1, P3, P2) == NONE
    ensures Entry(P9, PE, PB, PD, P2, P1, P1, P3) == NONE
    ensures Entry(P9, PE, PB, PD, P3, P2, P1, P1) == P1
    ensures Entry(P9, PE, PB, PD, P1, P3, P2, P1) == NONE
    ensures Entry(P9, PE, PB, PD, P1, P1, P3, P2) == NONE
    ensures Entry(PD, P9, PE, PB, P2, P1, P1, P3) == NONE
    ensures Entry(PD, P9, PE, PB, P3, P2, P1, P1) == NONE
    ensures Entry(PD, P9, PE, PB, P1, P3, P2, P1) == P1
    ensures Entry(PD, P9, PE, PB, P1, P1, P3, P2) == NONE
    ensures Entry(PB, PD, P9, PE, P2, P1, P1, P3) == NONE
    ensures Entry(PB, PD, P9, PE, P3, P2, P1, P1) == NONE
    ensures Entry(PB, PD, P9, PE, P1, P3, P2, P1) == NONE
    ensures Entry(PB, PD, P9, PE, P1, P1, P3, P2) == P1
  {
  }

  lemma MixColUndone(c: Col)
    ensures InvMixCol(MixCol(c)) == c
  {
    hide MixCol, Row, Entry;
    MatrixProduct();
    UnitRows(c);
    RowOfMixed(PE, PB, PD, P9, c);
    RowOfMixed(P9, PE, PB, PD, c);
    RowOfMixed(PD, P9, PE, PB, c);
    RowOfMixed(PB, PD, P9, PE, c);
  }

  lemma MixUndone(s: State)
    ensures InvMixColumns(MixColumns(s)) == s
  {
    hide MixCol, InvMixCol;
    MixColUndone(s.c0);
    MixColUndone(s.c1);
    MixColUndone(s.c2);
    MixColUndone(s.c3);
  }

  lemma RowLinear(p0: Poly, p1: Poly, p2: Poly, p3: Poly, a: Col, b: Col)
    ensures Row(p0, p1, p2, p3, XorCol(a, b)) == Xor(Row(p0, p1, p2, p3, a), Row(p0, p1, p2, p3, b))
  {
    hide Xor, Times, Sum4;
    TimesLinear(p0, a.b0, b.b0);
    TimesLinear(p1, a.b1, b.b1);
    TimesLinear(p2, a.b2, b.b2);
    TimesLinear(p3, a.b3, b.b3);
    Sum4Xor(Times(p0, a.b0), Times(p1, a.b1), Times(p2, a.b2), Times(p3, a.b3),
            Times(p0, b.b0), Times(p1, b.b1), Times(p2, b.b2), Times(p3, b.b3));
  }

  lemma InvMixColLinear(a: Col, b: Col)
    ensures InvMixCol(XorCol(a, b)) == XorCol(InvMixCol(a), InvMixCol(b))
  {
    hide Row, Xor;
    RowLinear(PE, PB, PD, P9, a, b);
    RowLinear(P9, PE, PB, PD, a, b);
    RowLinear(PD, P9, PE, PB, a, b);
    RowLinear(PB, PD, P9, PE, a, b);
  }

  lemma InvMixLinear(s: State, k: State)
    ensures InvMixColumns(AddKey(s, k)) == AddKey(InvMixColumns(s), InvMixColumns(k))
  {
    hide InvMixCol, XorCol;
    InvMixColLinear(s.c0, k.c0);
    InvMixColLinear(s.c1, k.c1);
    InvMixColLinear(s.c2, k.c2);
    InvMixColLinear(s.c3, k.c3);
  }

  lemma XorColUndo(a: Col, k: Col)
    ensures XorCol(XorCol(a, k), k) == a
  {
    hide Xor;
    XorUndo(a.b0, k.b0);
    XorUndo(a.b1, k.b1);
    XorUndo(a.b2, k.b2);
    XorUndo(a.b3, k.b3);
  }

  lemma AddKeyUndone(s: State, k: State)
    ensures AddKey(AddKey(s, k), k) == s
  {
    hide XorCol;
    XorColUndo(s.c0, k.c0);
    XorColUndo(s.c1, k.c1);
    XorColUndo(s.c2, k.c2);
    XorColUndo(s.c3, k.c3);
  }

  // ---------- decryption undoes encryption ----------

  /** Round by round: decryption stands where encryption stood before its mixing and its key. */
  lemma {:induction false} Meets(d: seq<Word>, w: seq<Word>, nr: nat, x: State, r: nat)
    requires InverseKeys(d, w, nr) && r < nr
    ensures DecState(d, Cipher(w, nr, x), r) == ShiftRows(SubBytes(EncState(w, x, nr - 1 - r)))
    decreases r
  {
    hide AddKey, InvMixColumns, MixColumns, ShiftRows, SubBytes, InvShiftRows, InvSubBytes, Key;
    if r == 0 {
      AddKeyUndone(ShiftRows(SubBytes(EncState(w, x, nr - 1))), Key(w, nr));
    } else {
      Meets(d, w, nr, x, r - 1);
      var s := EncState(w, x, nr - r);
      RowsUndone(s);
      var before := ShiftRows(SubBytes(EncState(w, x, nr - 1 - r)));
      var k := Key(w, nr - r);
      assert s == AddKey(MixColumns(before), k);
      InvMixLinear(MixColumns(before), k);
      MixUndone(before);
      AddKeyUndone(before, InvMixColumns(k));
    }
  }

  lemma FirstKey(w: seq<Word>, x: State)
    requires 4 <= |w|
    ensures EncState(w, x, 0) == AddKey(x, Key(w, 0))
  {
  }

  /** Whatever the schedule: the inverse cipher under the inverse keys undoes the cipher. */
  lemma DecryptionUndoes(d: seq<Word>, w: seq<Word>, nr: nat, x: State)
    requires InverseKeys(d, w, nr)
    ensures InvCipher(d, nr, Cipher(w, nr, x)) == x
  {
    hide AddKey, InvMixColumns, ShiftRows, SubBytes, InvShiftRows, InvSubBytes, Key, Cipher, EncState, DecState;
    Meets(d, w, nr, x, nr - 1);
    RowsUndone(EncState(w, x, 0));
    FirstKey(w, x);
    AddKeyUndone(x, Key(w, 0));
  }
}
