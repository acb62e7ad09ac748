/** The table-driven form of AES: 32-bit words, four tables a direction, the key schedules, the block operation. */
module AesTables {
  import opened Bytes
  import opened MachineWords
  import opened Galois
  import opened AesBoxes
  import opened Aes

  // ---------- words ----------

  lemma UnpackPack(b0: Byte, b1: Byte, b2: Byte, b3: Byte)
    ensures Unpack(Pack(b0, b1, b2, b3)) == Col(b0, b1, b2, b3)
  {
    hide Pack, ByteOf;
    PackBytes(b0, b1, b2, b3);
  }

  lemma PackUnpack(w: Word)
    ensures var c := Unpack(w); Pack(c.b0, c.b1, c.b2, c.b3) == w
  {
    hide Pack, ByteOf;
    PackOfBytes(w);
  }

  lemma UnpackInjective(v: Word, w: Word)
    requires Unpack(v) == Unpack(w)
    ensures v == w
  {
    hide Unpack, Pack;
    PackUnpack(v);
    PackUnpack(w);
  }

  /** Exclusive or of words, byte by byte. */
  lemma XorPacked(v: Word, w: Word)
    ensures var a, b := Unpack(v), Unpack(w);
      XorNat(v, w) == Pack(Xor(a.b0, b.b0), Xor(a.b1, b.b1), Xor(a.b2, b.b2), Xor(a.b3, b.b3))
  {
    hide Unpack, XorNat, Pack, Xor;
    PackUnpack(v);
    PackUnpack(w);
    XorBytes(Unpack(v), Unpack(w));
  }

  lemma XorBytes(a: Col, b: Col)
    ensures XorNat(Pack(a.b0, a.b1, a.b2, a.b3), Pack(b.b0, b.b1, b.b2, b.b3))
      == Pack(Xor(a.b0, b.b0), Xor(a.b1, b.b1), Xor(a.b2, b.b2), Xor(a.b3, b.b3))
  {
    hide XorNat, Pack, Xor;
    var a3: nat, b3: nat := a.b3, b.b3;
    var a2: nat, b2: nat := a.b2 + 256 * a3, b.b2 + 256 * b3;
    var a1: nat, b1: nat := a.b1 + 256 * a2, b.b1 + 256 * b2;
    XorJoined8(a.b0, b.b0, a1, b1);
    XorJoined8(a.b1, b.b1, a2, b2);
    XorJoined8(a.b2, b.b2, a3, b3);
    XorIs(a.b0, b.b0);
    XorIs(a.b1, b.b1);
    XorIs(a.b2, b.b2);
    XorIs(a.b3, b.b3);
    Nest(a.b0, a.b1, a.b2, a.b3);
    Nest(b.b0, b.b1, b.b2, b.b3);
    Nest(Xor(a.b0, b.b0), Xor(a.b1, b.b1), Xor(a.b2, b.b2), Xor(a.b3, b.b3));
  }

  lemma Nest(b0: Byte, b1: Byte, b2: Byte, b3: Byte)
    ensures var x0: int, x1: int, x2: int, x3: int := b0, b1, b2, b3;
      Pack(b0, b1, b2, b3) == x0 + 256 * (x1 + 256 * (x2 + 256 * x3))
  {
  }

  lemma UnpackXor(v: Word, w: Word)
    ensures Unpack(XorWord(v, w)) == XorCol(Unpack(v), Unpack(w))
  {
    hide XorNat, Unpack, Xor;
    XorPacked(v, w);
    var a, b := Unpack(v), Unpack(w);
    assert XorWord(v, w) == XorNat(v, w) by { XorWordIs(v, w); }
    UnpackPack(Xor(a.b0, b.b0), Xor(a.b1, b.b1), Xor(a.b2, b.b2), Xor(a.b3, b.b3));
  }

  lemma XorWordIs(v: Word, w: Word)
    ensures XorWord(v, w) == XorNat(v, w)
  {
  }

  // ---------- the tables ----------

  /** Rotation left by eight. */
  function Rotl8(w: Word): Word {
    w * 0x100 % 0x1_0000_0000 + w / 0x100_0000
  }

  lemma Rotl8Pack(b0: Byte, b1: Byte, b2: Byte, b3: Byte)
    ensures Rotl8(Pack(b0, b1, b2, b3)) == Pack(b3, b0, b1, b2)
  {
    var x0: int, x1: int, x2: int, x3: int := b0, b1, b2, b3;
    var low := x0 + 0x100 * x1 + 0x1_0000 * x2;
    var w: int := Pack(b0, b1, b2, b3);
    Quot(w, 0x100_0000, x3, low);
    Wrap(w, low, x3);
  }

  lemma Wrap(w: int, low: int, x: int)
    requires w == low + 0x100_0000 * x && 0 <= low < 0x100_0000
    ensures w * 0x100 % 0x1_0000_0000 == 0x100 * low
  {
  }

  /** The forward tables: the substituted byte times 2, 1, 1, 3, and its rotations. */
  function FT0(x: Byte): Word {
    var s := FSb(x);
    Pack(Xtime(s), s, s, Xor(Xtime(s), s))
  }

  function FT1(x: Byte): Word { Rotl8(FT0(x)) }

  function FT2(x: Byte): Word { Rotl8(FT1(x)) }

  function FT3(x: Byte): Word { Rotl8(FT2(x)) }

  /** The reverse tables: the reverse-substituted byte times E, 9, D, B, and its rotations. */
  function RT0(x: Byte): Word {
    var s := RSb(x);
    Pack(Times(PE, s), Times(P9, s), Times(PD, s), Times(PB, s))
  }

  function RT1(x: Byte): Word { Rotl8(RT0(x)) }

  function RT2(x: Byte): Word { Rotl8(RT1(x)) }

  function RT3(x: Byte): Word { Rotl8(RT2(x)) }

  lemma ForwardTables(x: Byte)
    ensures var s := FSb(x); var t, u := Times(P2, s), Times(P3, s);
      && Unpack(FT0(x)) == Col(t, s, s, u) && Unpack(FT1(x)) == Col(u, t, s, s)
      && Unpack(FT2(x)) == Col(s, u, t, s) && Unpack(FT3(x)) == Col(s, s, u, t)
  {
    hide FSb, Xor, Xtime, Times, Pack, Unpack, Rotl8;
    var s := FSb(x);
    TimesTwo(s);
    TimesThree(s);
    XorComm(s, Xtime(s));
    var t, u := Times(P2, s), Times(P3, s);
    Turns(t, s, s, u);
  }

  lemma Turns(b0: Byte, b1: Byte, b2: Byte, b3: Byte)
    ensures var w := Pack(b0, b1, b2, b3);
      && Unpack(w) == Col(b0, b1, b2, b3) && Unpack(Rotl8(w)) == Col(b3, b0, b1, b2)
      && Unpack(Rotl8(Rotl8(w))) == Col(b2, b3, b0, b1) && Unpack(Rotl8(Rotl8(Rotl8(w)))) == Col(b1, b2, b3, b0)
  {
    hide Pack, Unpack, Rotl8;
    Rotl8Pack(b0, b1, b2, b3);
    Rotl8Pack(b3, b0, b1, b2);
    Rotl8Pack(b2, b3, b0, b1);
    UnpackPack(b0, b1, b2, b3);
    UnpackPack(b3, b0, b1, b2);
    UnpackPack(b2, b3, b0, b1);
    UnpackPack(b1, b2, b3, b0);
  }

  lemma ReverseTables(x: Byte)
    ensures var s := RSb(x); var e, n, d, b := Times(PE, s), Times(P9, s), Times(PD, s), Times(PB, s);
      && Unpack(RT0(x)) == Col(e, n, d, b) && Unpack(RT1(x)) == Col(b, e, n, d)
      && Unpack(RT2(x)) == Col(d, b, e, n) && Unpack(RT3(x)) == Col(n, d, b, e)
  {
    hide RSb, Xor, Xtime, Times, Pack, Unpack, Rotl8;
    var s := RSb(x);
    Turns(Times(PE, s), Times(P9, s), Times(PD, s), Times(PB, s));
  }

  // ---------- rounds ----------

  /** Four words exclusive-ored one after the other into a fifth. */
  function Chain4(k: Word, a: Word, b: Word, c: Word, d: Word): Word {
    XorWord(XorWord(XorWord(XorWord(k, a), b), c), d)
  }

  lemma ChainBytes(k: Byte, a: Byte, b: Byte, c: Byte, d: Byte)
    ensures Xor(Xor(Xor(Xor(k, a), b), c), d) == Xor(Sum4(a, b, c, d), k)
  {
    hide Xor;
    XorAssoc(k, a, b);
    XorAssoc(Xor(k, Xor(a, b)), c, d);
    XorAssoc(k, Xor(a, b), Xor(c, d));
    XorComm(k, Xor(Xor(a, b), Xor(c, d)));
  }

  lemma ChainCols(k: Word, a: Word, b: Word, c: Word, d: Word)
    ensures var u, v, w, x := Unpack(a), Unpack(b), Unpack(c), Unpack(d);
      Unpack(Chain4(k, a, b, c, d)) == XorCol(
        Col(Sum4(u.b0, v.b0, w.b0, x.b0), Sum4(u.b1, v.b1, w.b1, x.b1),
            Sum4(u.b2, v.b2, w.b2, x.b2), Sum4(u.b3, v.b3, w.b3, x.b3)), Unpack(k))
  {
    hide Unpack, XorWord, Xor, Sum4;
    UnpackXor(k, a);
    UnpackXor(XorWord(k, a), b);
    UnpackXor(XorWord(XorWord(k, a), b), c);
    UnpackXor(XorWord(XorWord(XorWord(k, a), b), c), d);
    var t, u, v, w, x := Unpack(k), Unpack(a), Unpack(b), Unpack(c), Unpack(d);
    ChainBytes(t.b0, u.b0, v.b0, w.b0, x.b0);
    ChainBytes(t.b1, u.b1, v.b1, w.b1, x.b1);
    ChainBytes(t.b2, u.b2, v.b2, w.b2, x.b2);
    ChainBytes(t.b3, u.b3, v.b3, w.b3, x.b3);
  }

  /** One word of a forward round. */
  function ForwardWord(k: Word, y0: Word, y1: Word, y2: Word, y3: Word): Word {
    Chain4(k, FT0(Unpack(y0).b0), FT1(Unpack(y1).b1), FT2(Unpack(y2).b2), FT3(Unpack(y3).b3))
  }

  /** One word of a reverse round. */
  function ReverseWord(k: Word, y0: Word, y1: Word, y2: Word, y3: Word): Word {
    Chain4(k, RT0(Unpack(y0).b0), RT1(Unpack(y1).b1), RT2(Unpack(y2).b2), RT3(Unpack(y3).b3))
  }

  /** One word of the last round: the boxes alone. */
  function LastWord(k: Word, c: Col): Word {
    Chain4(k, Pack(c.b0, 0, 0, 0), Pack(0, c.b1, 0, 0), Pack(0, 0, c.b2, 0), Pack(0, 0, 0, c.b3))
  }

  /** The tables do substitution and mixing of a column at once. */
  lemma ForwardWordMeans(k: Word, y0: Word, y1: Word, y2: Word, y3: Word)
    ensures Unpack(ForwardWord(k, y0, y1, y2, y3))
      == XorCol(MixCol(SubCol(Diagonal(Unpack(y0), Unpack(y1), Unpack(y2), Unpack(y3)))), Unpack(k))
  {
    hide Unpack, FT0, FT1, FT2, FT3, Chain4, FSb, Xor, Times, Sum4;
    var x0, x1, x2, x3 := Unpack(y0).b0, Unpack(y1).b1, Unpack(y2).b2, Unpack(y3).b3;
    ForwardTables(x0);
    ForwardTables(x1);
    ForwardTables(x2);
    ForwardTables(x3);
    ChainCols(k, FT0(x0), FT1(x1), FT2(x2), FT3(x3));
    TimesOne(FSb(x0));
    TimesOne(FSb(x1));
    TimesOne(FSb(x2));
    TimesOne(FSb(x3));
  }

  lemma ReverseWordMeans(k: Word, y0: Word, y1: Word, y2: Word, y3: Word)
    ensures Unpack(ReverseWord(k, y0, y1, y2, y3))
      == XorCol(InvMixCol(InvSubCol(Diagonal(Unpack(y0), Unpack(y1), Unpack(y2), Unpack(y3)))), Unpack(k))
  {
    hide Unpack, RT0, RT1, RT2, RT3, Chain4, RSb, Xor, Times, Sum4;
    var x0, x1, x2, x3 := Unpack(y0).b0, Unpack(y1).b1, Unpack(y2).b2, Unpack(y3).b3;
    ReverseTables(x0);
    ReverseTables(x1);
    ReverseTables(x2);
    ReverseTables(x3);
    ChainCols(k, RT0(x0), RT1(x1), RT2(x2), RT3(x3));
  }

  lemma LastWordMeans(k: Word, c: Col)
    ensures Unpack(LastWord(k, c)) == XorCol(c, Unpack(k))
  {
    hide Unpack, Pack, Chain4, Xor;
    UnpackPack(c.b0, 0, 0, 0);
    UnpackPack(0, c.b1, 0, 0);
    UnpackPack(0, 0, c.b2, 0);
    UnpackPack(0, 0, 0, c.b3);
    ChainCols(k, Pack(c.b0, 0, 0, 0), Pack(0, c.b1, 0, 0), Pack(0, 0, c.b2, 0), Pack(0, 0, 0, c.b3));
    XorZero(0);
    XorZero(c.b0);
    XorZero(c.b1);
    XorZero(c.b2);
    XorZero(c.b3);
  }

  /** The four words that hold the state. */
  datatype Words = Words(x0: Word, x1: Word, x2: Word, x3: Word)

  function StateOf(x: Words): State {
    State(Unpack(x.x0), Unpack(x.x1), Unpack(x.x2), Unpack(x.x3))
  }

  function ForwardRound(rk: seq<Word>, at: nat, y: Words): Words
    requires at + 4 <= |rk|
  {
    Words(ForwardWord(rk[at], y.x0, y.x1, y.x2, y.x3), ForwardWord(rk[at + 1], y.x1, y.x2, y.x3, y.x0),
          ForwardWord(rk[at + 2], y.x2, y.x3, y.x0, y.x1), ForwardWord(rk[at + 3], y.x3, y.x0, y.x1, y.x2))
  }

  function ReverseRound(rk: seq<Word>, at: nat, y: Words): Words
    requires at + 4 <= |rk|
  {
    Words(ReverseWord(rk[at], y.x0, y.x3, y.x2, y.x1), ReverseWord(rk[at + 1], y.x1, y.x0, y.x3, y.x2),
          ReverseWord(rk[at + 2], y.x2, y.x1, y.x0, y.x3), ReverseWord(rk[at + 3], y.x3, y.x2, y.x1, y.x0))
  }

  /** A forward round by tables is SubBytes, ShiftRows, MixColumns and AddRoundKey. */
  lemma ForwardRoundMeans(rk: seq<Word>, r: nat, y: Words)
    requires 4 * r + 4 <= |rk|
    ensures StateOf(ForwardRound(rk, 4 * r, y)) == AddKey(MixColumns(ShiftRows(SubBytes(StateOf(y)))), Key(rk, r))
  {
    hide Unpack, ForwardWord, MixCol, XorCol, FSb;
    ForwardWordMeans(rk[4 * r], y.x0, y.x1, y.x2, y.x3);
    ForwardWordMeans(rk[4 * r + 1], y.x1, y.x2, y.x3, y.x0);
    ForwardWordMeans(rk[4 * r + 2], y.x2, y.x3, y.x0, y.x1);
    ForwardWordMeans(rk[4 * r + 3], y.x3, y.x0, y.x1, y.x2);
  }

  /** A reverse round by tables is InvSubBytes, InvShiftRows, InvMixColumns and AddRoundKey. */
  lemma ReverseRoundMeans(rk: seq<Word>, r: nat, y: Words)
    requires 4 * r + 4 <= |rk|
    ensures StateOf(ReverseRound(rk, 4 * r, y))
      == AddKey(InvMixColumns(InvShiftRows(InvSubBytes(StateOf(y)))), Key(rk, r))
  {
    hide Unpack, ReverseWord, InvMixCol, XorCol, RSb;
    ReverseWordMeans(rk[4 * r], y.x0, y.x3, y.x2, y.x1);
    ReverseWordMeans(rk[4 * r + 1], y.x1, y.x0, y.x3, y.x2);
    ReverseWordMeans(rk[4 * r + 2], y.x2, y.x1, y.x0, y.x3);
    ReverseWordMeans(rk[4 * r + 3], y.x3, y.x2, y.x1, y.x0);
  }

  /** The last forward round: the box on each byte, picked along the diagonals. */
  function LastForward(rk: seq<Word>, at: nat, y: Words): Words
    requires at + 4 <= |rk|
  {
    var y0, y1, y2, y3 := Unpack(y.x0), Unpack(y.x1), Unpack(y.x2), Unpack(y.x3);
    Words(LastWord(rk[at], Col(FSb(y0.b0), FSb(y1.b1), FSb(y2.b2), FSb(y3.b3))),
          LastWord(rk[at + 1], Col(FSb(y1.b0), FSb(y2.b1), FSb(y3.b2), FSb(y0.b3))),
          LastWord(rk[at + 2], Col(FSb(y2.b0), FSb(y3.b1), FSb(y0.b2), FSb(y1.b3))),
          LastWord(rk[at + 3], Col(FSb(y3.b0), FSb(y0.b1), FSb(y1.b2), FSb(y2.b3))))
  }

  function LastReverse(rk: seq<Word>, at: nat, y: Words): Words
    requires at + 4 <= |rk|
  {
    var y0, y1, y2, y3 := Unpack(y.x0), Unpack(y.x1), Unpack(y.x2), Unpack(y.x3);
    Words(LastWord(rk[at], Col(RSb(y0.b0), RSb(y3.b1), RSb(y2.b2), RSb(y1.b3))),
          LastWord(rk[at + 1], Col(RSb(y1.b0), RSb(y0.b1), RSb(y3.b2), RSb(y2.b3))),
          LastWord(rk[at + 2], Col(RSb(y2.b0), RSb(y1.b1), RSb(y0.b2), RSb(y3.b3))),
          LastWord(rk[at + 3], Col(RSb(y3.b0), RSb(y2.b1), RSb(y1.b2), RSb(y0.b3))))
  }

  lemma LastForwardMeans(rk: seq<Word>, r: nat, y: Words)
    requires 4 * r + 4 <= |rk|
    ensures StateOf(LastForward(rk, 4 * r, y)) == AddKey(ShiftRows(SubBytes(StateOf(y))), Key(rk, r))
  {
    hide Unpack, LastWord, XorCol, FSb;
    var s := ShiftRows(SubBytes(StateOf(y)));
    LastWordMeans(rk[4 * r], s.c0);
    LastWordMeans(rk[4 * r + 1], s.c1);
    LastWordMeans(rk[4 * r + 2], s.c2);
    LastWordMeans(rk[4 * r + 3], s.c3);
  }

  lemma LastReverseMeans(rk: seq<Word>, r: nat, y: Words)
    requires 4 * r + 4 <= |rk|
    ensures StateOf(LastReverse(rk, 4 * r, y)) == AddKey(InvShiftRows(InvSubBytes(StateOf(y))), Key(rk, r))
  {
    hide Unpack, LastWord, XorCol, RSb;
    var s := InvShiftRows(InvSubBytes(StateOf(y)));
    LastWordMeans(rk[4 * r], s.c0);
    LastWordMeans(rk[4 * r + 1], s.c1);
    LastWordMeans(rk[4 * r + 2], s.c2);
    LastWordMeans(rk[4 * r + 3], s.c3);
  }

  // ---------- blocks ----------

  /** The state of a block: four columns of four bytes. */
  function BlockState(b: seq<Byte>): State
    requires |b| == 16
  {
    State(Col(b[0], b[1], b[2], b[3]), Col(b[4], b[5], b[6], b[7]),
          Col(b[8], b[9], b[10], b[11]), Col(b[12], b[13], b[14], b[15]))
  }

  function StateBlock(s: State): Block {
    [s.c0.b0, s.c0.b1, s.c0.b2, s.c0.b3, s.c1.b0, s.c1.b1, s.c1.b2, s.c1.b3,
     s.c2.b0, s.c2.b1, s.c2.b2, s.c2.b3, s.c3.b0, s.c3.b1, s.c3.b2, s.c3.b3]
  }

  lemma StateBlockBack(s: State, b: Block)
    ensures BlockState(StateBlock(s)) == s && StateBlock(BlockState(b)) == b
  {
  }

  function GetWord(b: seq<Byte>, i: nat): Word
    requires i + 4 <= |b|
  {
    Pack(b[i], b[i + 1], b[i + 2], b[i + 3])
  }

  lemma LoadState(b: seq<Byte>, rk: seq<Word>)
    requires |b| == 16 && 4 <= |rk|
    ensures StateOf(Words(XorWord(GetWord(b, 0), rk[0]), XorWord(GetWord(b, 4), rk[1]),
                          XorWord(GetWord(b, 8), rk[2]), XorWord(GetWord(b, 12), rk[3])))
      == AddKey(BlockState(b), Key(rk, 0))
  {
    hide Unpack, Pack, XorWord, XorCol;
    UnpackXor(GetWord(b, 0), rk[0]);
    UnpackXor(GetWord(b, 4), rk[1]);
    UnpackXor(GetWord(b, 8), rk[2]);
    UnpackXor(GetWord(b, 12), rk[3]);
    UnpackPack(b[0], b[1], b[2], b[3]);
    UnpackPack(b[4], b[5], b[6], b[7]);
    UnpackPack(b[8], b[9], b[10], b[11]);
    UnpackPack(b[12], b[13], b[14], b[15]);
  }

  method PutWord(w: Word, b: array<Byte>, i: nat)
    requires i + 4 <= b.Length
    modifies b
    ensures Col(b[i], b[i + 1], b[i + 2], b[i + 3]) == Unpack(w)
    ensures forall j :: 0 <= j < b.Length && !(i <= j < i + 4) ==> b[j] == old(b[j])
  {
    b[i] := w % 256;
    b[i + 1] := w / 0x100 % 256;
    b[i + 2] := w / 0x1_0000 % 256;
    b[i + 3] := w / 0x100_0000 % 256;
  }

  // ---------- the key schedule ----------

  /** Round constants: the powers of x, from the first on. */
  function Rcon(i: nat): Byte {
    if i <= 1 then 1 else Xtime(Rcon(i - 1))
  }

  function SubWord(w: Word): Word {
    var c := Unpack(w);
    Pack(FSb(c.b0), FSb(c.b1), FSb(c.b2), FSb(c.b3))
  }

  function RotWord(w: Word): Word {
    var c := Unpack(w);
    Pack(c.b1, c.b2, c.b3, c.b0)
  }

  /** Word i of the expanded key, from the word before it and the word nk before it, section 5.2 of FIPS-197. */
  function Expand(nk: nat, i: nat, before: Word, back: Word): Word
    requires nk > 0
  {
    if i % nk == 0 then XorWord(back, XorWord(SubWord(RotWord(before)), Rcon(i / nk)))
    else if nk > 6 && i % nk == 4 then XorWord(back, SubWord(before))
    else XorWord(back, before)
  }

  /** The first n words are the expansion of the key. */
  ghost predicate Expanded(key: seq<Byte>, nk: nat, w: seq<Word>, n: nat) {
    && 0 < nk <= n <= |w| && |key| == 4 * nk
    && (forall i :: 0 <= i < nk ==> w[i] == GetWord(key, 4 * i))
    && (forall i :: nk <= i < n ==> w[i] == Expand(nk, i, w[i - 1], w[i - nk]))
  }
}
