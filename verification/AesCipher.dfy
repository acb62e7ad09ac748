/** The AES context: expanded keys in a buffer of 68 words, and the operations on it. */
module AesCipher {
  import opened Bytes
  import opened MachineWords
  import opened Galois
  import opened AesBoxes
  import opened Aes
  import opened AesTables
  import AesLaws

  const INVALID_KEY_LENGTH := -0x0800
  const ENCRYPT := 1
  const DECRYPT := 0

  function Rounds(keysize: int): nat {
    if keysize == 128 then 10 else if keysize == 192 then 12 else 14
  }

  predicate ValidSize(keysize: int) {
    keysize == 128 || keysize == 192 || keysize == 256
  }

  // ---------- one word of the schedule ----------

  /** One more word of the expansion. */
  lemma ExpandOne(key: seq<Byte>, nk: nat, w: seq<Word>, n: nat, v: Word)
    requires Expanded(key, nk, w, n) && n < |w| && v == Expand(nk, n, w[n - 1], w[n - nk])
    ensures Expanded(key, nk, w[n := v], n + 1)
  {
    hide Expand, GetWord;
  }

  lemma AddKeyWord(c: Col, d: Col, k: Col)
    ensures XorCol(c, XorCol(k, d)) == XorCol(k, XorCol(c, d))
  {
    hide Xor;
    Exchange(c.b0, d.b0, k.b0);
    Exchange(c.b1, d.b1, k.b1);
    Exchange(c.b2, d.b2, k.b2);
    Exchange(c.b3, d.b3, k.b3);
  }

  lemma Exchange(c: Byte, d: Byte, k: Byte)
    ensures Xor(c, Xor(k, d)) == Xor(k, Xor(c, d))
  {
    hide Xor;
    XorAssoc(c, k, d);
    XorComm(c, k);
    XorAssoc(k, c, d);
  }

  /** The first word of a group: the boxes on the rotated word, with the round constant. */
  function FirstWord(back: Word, before: Word, rcon: Byte): Word {
    var c := Unpack(before);
    LastWord(XorWord(back, rcon), Col(FSb(c.b1), FSb(c.b2), FSb(c.b3), FSb(c.b0)))
  }

  lemma FirstWordMeans(nk: nat, n: nat, back: Word, before: Word)
    requires nk > 0 && n % nk == 0
    ensures FirstWord(back, before, Rcon(n / nk)) == Expand(nk, n, before, back)
  {
    hide Unpack, Pack, LastWord, XorWord, Rcon, FSb, XorCol;
    var c := Unpack(before);
    var s := Col(FSb(c.b1), FSb(c.b2), FSb(c.b3), FSb(c.b0));
    var k: Word := Rcon(n / nk);
    LastWordMeans(XorWord(back, k), s);
    UnpackPack(c.b1, c.b2, c.b3, c.b0);
    UnpackPack(s.b0, s.b1, s.b2, s.b3);
    UnpackXor(back, k);
    UnpackXor(SubWord(RotWord(before)), k);
    UnpackXor(back, XorWord(SubWord(RotWord(before)), k));
    AddKeyWord(s, Unpack(k), Unpack(back));
    UnpackInjective(FirstWord(back, before, Rcon(n / nk)), Expand(nk, n, before, back));
  }

  /** The middle word of a group of eight: the boxes without rotation. */
  function MiddleWord(back: Word, before: Word): Word {
    LastWord(back, SubCol(Unpack(before)))
  }

  lemma MiddleWordMeans(n: nat, back: Word, before: Word)
    requires n % 8 == 4
    ensures MiddleWord(back, before) == Expand(8, n, before, back)
  {
    hide Unpack, Pack, LastWord, XorWord, Rcon, FSb, Xor;
    var s := SubCol(Unpack(before));
    LastWordMeans(back, s);
    UnpackPack(s.b0, s.b1, s.b2, s.b3);
    UnpackXor(back, SubWord(before));
    XorColComm(s, Unpack(back));
    UnpackInjective(MiddleWord(back, before), Expand(8, n, before, back));
  }

  lemma XorColComm(a: Col, b: Col)
    ensures XorCol(a, b) == XorCol(b, a)
  {
    hide Xor;
    XorComm(a.b0, b.b0);
    XorComm(a.b1, b.b1);
    XorComm(a.b2, b.b2);
    XorComm(a.b3, b.b3);
  }

  lemma PlainWord(nk: nat, n: nat, back: Word, before: Word)
    requires nk > 0 && n % nk != 0 && (nk > 6 ==> n % nk != 4)
    ensures XorWord(back, before) == Expand(nk, n, before, back)
  {
  }

  // ---------- the inverse key words ----------

  /** A key word through the box and the reverse tables. */
  function MixedWord(w: Word): Word {
    var c := Unpack(w);
    XorWord(XorWord(XorWord(RT0(FSb(c.b0)), RT1(FSb(c.b1))), RT2(FSb(c.b2))), RT3(FSb(c.b3)))
  }

  /** The box cancels the one inside the tables: what is left is InvMixColumns. */
  lemma MixedWordMeans(w: Word)
    ensures Unpack(MixedWord(w)) == InvMixCol(Unpack(w))
  {
    hide Unpack, RT0, RT1, RT2, RT3, FSb, RSb, XorWord, Times, Sum4, Xor;
    var c := Unpack(w);
    BoxesInverse(c.b0);
    BoxesInverse(c.b1);
    BoxesInverse(c.b2);
    BoxesInverse(c.b3);
    ReverseTables(FSb(c.b0));
    ReverseTables(FSb(c.b1));
    ReverseTables(FSb(c.b2));
    ReverseTables(FSb(c.b3));
    SumCols(RT0(FSb(c.b0)), RT1(FSb(c.b1)), RT2(FSb(c.b2)), RT3(FSb(c.b3)));
  }

  lemma SumCols(a: Word, b: Word, c: Word, d: Word)
    ensures var u, v, w, x := Unpack(a), Unpack(b), Unpack(c), Unpack(d);
      Unpack(XorWord(XorWord(XorWord(a, b), c), d))
      == Col(Sum4(u.b0, v.b0, w.b0, x.b0), Sum4(u.b1, v.b1, w.b1, x.b1),
             Sum4(u.b2, v.b2, w.b2, x.b2), Sum4(u.b3, v.b3, w.b3, x.b3))
  {
    hide Unpack, XorWord, Xor;
    UnpackXor(a, b);
    UnpackXor(XorWord(a, b), c);
    UnpackXor(XorWord(XorWord(a, b), c), d);
    var u, v, w, x := Unpack(a), Unpack(b), Unpack(c), Unpack(d);
    XorAssoc(Xor(u.b0, v.b0), w.b0, x.b0);
    XorAssoc(Xor(u.b1, v.b1), w.b1, x.b1);
    XorAssoc(Xor(u.b2, v.b2), w.b2, x.b2);
    XorAssoc(Xor(u.b3, v.b3), w.b3, x.b3);
  }

  // ---------- the context ----------

  class AesContext {
    var nr: nat
    const buf: array<Word>

    constructor ()
      ensures buf.Length == 68 && fresh(buf)
    {
      nr := 0;
      buf := new Word[68](_ => 0);
    }

    ghost predicate Ready()
      reads this
    {
      buf.Length == 68 && nr % 2 == 0 && 2 <= nr <= 14
    }

    /** The encryption schedule; other key sizes are refused. */
    method SetKeyEnc(key: seq<Byte>, keysize: int) returns (ret: int)
      requires buf.Length == 68 && (ValidSize(keysize) ==> |key| == keysize / 8)
      modifies this`nr, buf
      ensures !ValidSize(keysize) ==> ret == INVALID_KEY_LENGTH && nr == old(nr) && buf[..] == old(buf[..])
      ensures ValidSize(keysize) ==>
        ret == 0 && nr == Rounds(keysize) && Expanded(key, keysize / 32, buf[..], 4 * nr + 4)
      ensures ValidSize(keysize) ==> AesLaws.Scheduled(key, keysize / 32, buf[..], 4 * nr + 4)
    {
      if keysize == 128 {
        nr := 10;
      } else if keysize == 192 {
        nr := 12;
      } else if keysize == 256 {
        nr := 14;
      } else {
        return INVALID_KEY_LENGTH;
      }
      CopyKey(key, keysize / 32);
      if nr == 10 {
        Expand128(key);
      } else if nr == 12 {
        Expand192(key);
      } else {
        Expand256(key);
      }
      Shorter(key, keysize / 32, buf[..], 4 * nr + 4);
      AesLaws.ExpandedBytes(key, keysize / 32, buf[..], 4 * nr + 4);
      return 0;
    }

    method CopyKey(key: seq<Byte>, nk: nat)
      requires buf.Length == 68 && 0 < nk <= 8 && |key| == 4 * nk
      modifies buf
      ensures Expanded(key, nk, buf[..], nk)
    {
      hide GetWord;
      for i := 0 to nk
        invariant forall j :: 0 <= j < i ==> buf[j] == GetWord(key, 4 * j)
      {
        buf[i] := GetWord(key, 4 * i);
      }
    }

    /** buf[n] ^= ... for a word that is neither first nor middle in its group. */
    method Plain(key: seq<Byte>, nk: nat, n: nat)
      requires Expanded(key, nk, buf[..], n) && n < buf.Length && n % nk != 0 && (nk > 6 ==> n % nk != 4)
      modifies buf
      ensures Expanded(key, nk, buf[..], n + 1)
    {
      hide XorWord, Expand, Expanded, GetWord;
      ghost var w := buf[..];
      Lengths(key, nk, w, n);
      var v := XorWord(buf[n - nk], buf[n - 1]);
      PlainWord(nk, n, buf[n - nk], buf[n - 1]);
      ExpandOne(key, nk, w, n, v);
      buf[n] := v;
      assert buf[..] == w[n := v];
    }

    method First(key: seq<Byte>, nk: nat, n: nat, rcon: Byte)
      requires Expanded(key, nk, buf[..], n) && n < buf.Length && n % nk == 0 && rcon == Rcon(n / nk)
      modifies buf
      ensures Expanded(key, nk, buf[..], n + 1)
    {
      hide FirstWord, Expand, Expanded, GetWord, Rcon;
      ghost var w := buf[..];
      Lengths(key, nk, w, n);
      var v := FirstWord(buf[n - nk], buf[n - 1], rcon);
      FirstWordMeans(nk, n, buf[n - nk], buf[n - 1]);
      ExpandOne(key, nk, w, n, v);
      buf[n] := v;
      assert buf[..] == w[n := v];
    }

    method Middle(key: seq<Byte>, n: nat)
      requires Expanded(key, 8, buf[..], n) && n < buf.Length && n % 8 == 4
      modifies buf
      ensures Expanded(key, 8, buf[..], n + 1)
    {
      hide MiddleWord, Expand, Expanded, GetWord;
      ghost var w := buf[..];
      Lengths(key, 8, w, n);
      var v := MiddleWord(buf[n - 8], buf[n - 1]);
      MiddleWordMeans(n, buf[n - 8], buf[n - 1]);
      ExpandOne(key, 8, w, n, v);
      buf[n] := v;
      assert buf[..] == w[n := v];
    }

    method Expand128(key: seq<Byte>)
      requires buf.Length == 68 && Expanded(key, 4, buf[..], 4)
      modifies buf
      ensures Expanded(key, 4, buf[..], 44)
    {
      hide Expanded, Rcon;
      var at := 4;
      for i := 0 to 10
        invariant at == 4 * i + 4 && Expanded(key, 4, buf[..], at)
      {
        assert at / 4 == i + 1;
        First(key, 4, at, Rcon(i + 1));
        Plain(key, 4, at + 1);
        Plain(key, 4, at + 2);
        Plain(key, 4, at + 3);
        at := at + 4;
      }
    }

    method Expand192(key: seq<Byte>)
      requires buf.Length == 68 && Expanded(key, 6, buf[..], 6)
      modifies buf
      ensures Expanded(key, 6, buf[..], 54)
    {
      hide Expanded, Rcon;
      var at := 6;
      for i := 0 to 8
        invariant at == 6 * i + 6 && Expanded(key, 6, buf[..], at)
      {
        assert at / 6 == i + 1;
        First(key, 6, at, Rcon(i + 1));
        Plain(key, 6, at + 1);
        Plain(key, 6, at + 2);
        Plain(key, 6, at + 3);
        Plain(key, 6, at + 4);
        Plain(key, 6, at + 5);
        at := at + 6;
      }
    }

    method Expand256(key: seq<Byte>)
      requires buf.Length == 68 && Expanded(key, 8, buf[..], 8)
      modifies buf
      ensures Expanded(key, 8, buf[..], 64)
    {
      hide Expanded, Rcon;
      var at := 8;
      for i := 0 to 7
        invariant at == 8 * i + 8 && Expanded(key, 8, buf[..], at)
      {
        assert at / 8 == i + 1;
        First(key, 8, at, Rcon(i + 1));
        Plain(key, 8, at + 1);
        Plain(key, 8, at + 2);
        Plain(key, 8, at + 3);
        Middle(key, at + 4);
        Plain(key, 8, at + 5);
        Plain(key, 8, at + 6);
        Plain(key, 8, at + 7);
        at := at + 8;
      }
    }

    /** The decryption schedule: the encryption one backwards, with the inner round keys mixed. */
    method SetKeyDec(key: seq<Byte>, keysize: int) returns (ret: int, ghost w: seq<Word>)
      requires buf.Length == 68 && (ValidSize(keysize) ==> |key| == keysize / 8)
      modifies this`nr, buf
      ensures !ValidSize(keysize) ==> ret == INVALID_KEY_LENGTH && nr == old(nr) && buf[..] == old(buf[..])
      ensures ValidSize(keysize) ==> ret == 0 && nr == Rounds(keysize) && InverseKeys(buf[..], w, nr)
      ensures ValidSize(keysize) ==> Expanded(key, keysize / 32, w, 4 * nr + 4)
    {
      hide Expanded, InverseKeys;
      w := [];
      if keysize == 128 {
        nr := 10;
      } else if keysize == 192 {
        nr := 12;
      } else if keysize == 256 {
        nr := 14;
      } else {
        ret := INVALID_KEY_LENGTH;
        return;
      }
      var cty := new AesContext();
      ret := cty.SetKeyEnc(key, keysize);
      w := cty.buf[..];
      TurnKeys(cty.buf);
    }

    /** The four words at sk copied to rk. */
    method CopyRound(from: array<Word>, sk: nat, rk: nat)
      requires sk + 4 <= from.Length && rk + 4 <= buf.Length && from != buf
      modifies buf
      ensures forall j :: 0 <= j < buf.Length && !(rk <= j < rk + 4) ==> buf[j] == old(buf[j])
      ensures buf[rk..rk + 4] == from[sk..sk + 4]
    {
      buf[rk] := from[sk];
      buf[rk + 1] := from[sk + 1];
      buf[rk + 2] := from[sk + 2];
      buf[rk + 3] := from[sk + 3];
    }

    method TurnKeys(from: array<Word>)
      requires Ready() && from.Length == 68 && from != buf
      modifies buf
      ensures InverseKeys(buf[..], from[..], nr)
    {
      hide Turned, MixedWord, InverseKeys;
      ghost var w := from[..];
      CopyRound(from, 4 * nr, 0);
      TurnedStart(buf[..], w, nr);
      var i, sk, rk := nr - 1, 4 * nr - 4, 4;
      while i > 0
        invariant 0 <= i < nr && sk == 4 * i && rk == 4 * (nr - i)
        invariant Turned(buf[..], w, nr, nr - i)
      {
        ghost var before := buf[..];
        MixRound(from, sk, rk);
        TurnedStep(before, buf[..], w, nr, nr - i);
        i, sk, rk := i - 1, sk - 4, rk + 4;
      }
      ghost var before := buf[..];
      CopyRound(from, sk, rk);
      TurnedEnd(before, buf[..], w, nr);
    }

    /** The four words at sk, mixed, to rk. */
    method MixRound(from: array<Word>, sk: nat, rk: nat)
      requires sk + 4 <= from.Length && rk + 4 <= buf.Length && from != buf
      modifies buf
      ensures forall j :: 0 <= j < buf.Length && !(rk <= j < rk + 4) ==> buf[j] == old(buf[j])
      ensures forall j :: rk <= j < rk + 4 ==> buf[j] == MixedWord(from[sk + (j - rk)])
    {
      hide MixedWord;
      for j := 0 to 4
        invariant forall k :: 0 <= k < buf.Length && !(rk <= k < rk + j) ==> buf[k] == old(buf[k])
        invariant forall k :: rk <= k < rk + j ==> buf[k] == MixedWord(from[sk + (k - rk)])
      {
        buf[rk + j] := MixedWord(from[sk + j]);
      }
    }

    /** One block; the block is read whole before anything is written, so it may be changed in place. */
    method CryptEcb(mode: int, input: array<Byte>, output: array<Byte>)
      requires Ready() && input.Length == 16 && output.Length == 16
      modifies output
      ensures output[..] == StateBlock(
        if mode == DECRYPT then InvCipher(buf[..], nr, BlockState(old(input[..])))
        else Cipher(buf[..], nr, BlockState(old(input[..]))))
    {
      hide GetWord, XorWord, Cipher, InvCipher, BlockState, StateOf, ForwardRound, ReverseRound, LastForward, LastReverse;
      ghost var b := input[..];
      var rk := buf[..];
      LoadState(b, rk);
      var x := Words(XorWord(GetWord(input[..], 0), rk[0]), XorWord(GetWord(input[..], 4), rk[1]),
                     XorWord(GetWord(input[..], 8), rk[2]), XorWord(GetWord(input[..], 12), rk[3]));
      if mode == DECRYPT {
        x := DecryptRounds(rk, BlockState(b), x);
      } else {
        x := EncryptRounds(rk, BlockState(b), x);
      }
      PutWord(x.x0, output, 0);
      PutWord(x.x1, output, 4);
      PutWord(x.x2, output, 8);
      PutWord(x.x3, output, 12);
      Stored(output[..], x);
    }

    method EncryptRounds(rk: seq<Word>, ghost s: State, first: Words) returns (x: Words)
      requires Ready() && |rk| == 68 && StateOf(first) == AddKey(s, Key(rk, 0))
      ensures StateOf(x) == Cipher(rk, nr, s)
    {
      hide StateOf, AddKey, Key, ForwardRound, LastForward, EncState;
      x := first;
      FirstRound(rk, s);
      var at: nat, half: nat := 4, nr / 2;
      assert nr == 2 * half;
      ghost var k: nat := 0;
      for i := half - 1 downto 0
        invariant k == 2 * (half - 1 - i) && at == 4 * k + 4 && StateOf(x) == EncState(rk, s, k)
      {
        ForwardStep(rk, s, k, x);
        var y := ForwardRound(rk, at, x);
        ForwardStep(rk, s, k + 1, y);
        x := ForwardRound(rk, at + 4, y);
        at, k := at + 8, k + 2;
      }
      ForwardStep(rk, s, k, x);
      var y := ForwardRound(rk, at, x);
      LastForwardMeans(rk, nr, y);
      x := LastForward(rk, at + 4, y);
    }

    method DecryptRounds(rk: seq<Word>, ghost s: State, first: Words) returns (x: Words)
      requires Ready() && |rk| == 68 && StateOf(first) == AddKey(s, Key(rk, 0))
      ensures StateOf(x) == InvCipher(rk, nr, s)
    {
      hide StateOf, AddKey, Key, ReverseRound, LastReverse, DecState;
      x := first;
      FirstRound(rk, s);
      var at: nat, half: nat := 4, nr / 2;
      assert nr == 2 * half;
      ghost var k: nat := 0;
      for i := half - 1 downto 0
        invariant k == 2 * (half - 1 - i) && at == 4 * k + 4 && StateOf(x) == DecState(rk, s, k)
      {
        ReverseStep(rk, s, k, x);
        var y := ReverseRound(rk, at, x);
        ReverseStep(rk, s, k + 1, y);
        x := ReverseRound(rk, at + 4, y);
        at, k := at + 8, k + 2;
      }
      ReverseStep(rk, s, k, x);
      var y := ReverseRound(rk, at, x);
      LastReverseMeans(rk, nr, y);
      x := LastReverse(rk, at + 4, y);
    }
  }

  // ---------- lemmas for the operations ----------

  lemma Lengths(key: seq<Byte>, nk: nat, w: seq<Word>, n: nat)
    requires Expanded(key, nk, w, n)
    ensures 0 < nk <= n <= |w| && |key| == 4 * nk
  {
  }

  lemma Shorter(key: seq<Byte>, nk: nat, w: seq<Word>, n: nat)
    requires Expanded(key, nk, w, if nk == 4 then 44 else if nk == 6 then 54 else 64)
    requires nk <= n <= if nk == 4 then 44 else if nk == 6 then 54 else 64
    ensures Expanded(key, nk, w, n)
  {
    hide Expand, GetWord;
  }

  lemma SameKey(d: seq<Word>, w: seq<Word>, r: nat, q: nat)
    requires 4 * r + 4 <= |d| && 4 * q + 4 <= |w| && d[4 * r..4 * r + 4] == w[4 * q..4 * q + 4]
    ensures Key(d, r) == Key(w, q)
  {
    hide Unpack;
    var s, t := d[4 * r..4 * r + 4], w[4 * q..4 * q + 4];
    assert d[4 * r] == s[0] && d[4 * r + 1] == s[1] && d[4 * r + 2] == s[2] && d[4 * r + 3] == s[3];
    assert w[4 * q] == t[0] && w[4 * q + 1] == t[1] && w[4 * q + 2] == t[2] && w[4 * q + 3] == t[3];
  }

  lemma KeysBelow(d: seq<Word>, d': seq<Word>, n: nat)
    requires |d| == |d'| && 4 * n <= |d| && forall j :: 0 <= j < 4 * n ==> d[j] == d'[j]
    ensures forall r :: 0 <= r < n ==> Key(d, r) == Key(d', r)
  {
    hide Unpack;
  }

  lemma MixedKey(d: seq<Word>, w: seq<Word>, r: nat, q: nat)
    requires 4 * r + 4 <= |d| && 4 * q + 4 <= |w|
    requires forall j :: 4 * r <= j < 4 * r + 4 ==> d[j] == MixedWord(w[4 * q + (j - 4 * r)])
    ensures Key(d, r) == InvMixColumns(Key(w, q))
  {
    hide Unpack, MixedWord, InvMixCol;
    MixedWordMeans(w[4 * q]);
    MixedWordMeans(w[4 * q + 1]);
    MixedWordMeans(w[4 * q + 2]);
    MixedWordMeans(w[4 * q + 3]);
  }

  /** The inverse schedule up to round key n. */
  ghost predicate Turned(d: seq<Word>, w: seq<Word>, nr: nat, n: nat) {
    && 1 <= n <= nr && 4 * nr + 4 <= |w| && 4 * nr + 4 <= |d|
    && Key(d, 0) == Key(w, nr)
    && forall r :: 0 < r < n ==> Key(d, r) == InvMixColumns(Key(w, nr - r))
  }

  lemma TurnedStart(d: seq<Word>, w: seq<Word>, nr: nat)
    requires 1 <= nr && 4 * nr + 4 <= |w| && 4 * nr + 4 <= |d| && d[0..4] == w[4 * nr..4 * nr + 4]
    ensures Turned(d, w, nr, 1)
  {
    SameKey(d, w, 0, nr);
  }

  lemma TurnedStep(d: seq<Word>, d': seq<Word>, w: seq<Word>, nr: nat, n: nat)
    requires Turned(d, w, nr, n) && n < nr && |d'| == |d|
    requires forall j :: 0 <= j < 4 * n ==> d'[j] == d[j]
    requires forall j :: 4 * n <= j < 4 * n + 4 ==> d'[j] == MixedWord(w[4 * (nr - n) + (j - 4 * n)])
    ensures Turned(d', w, nr, n + 1)
  {
    hide Key, InvMixColumns, MixedWord;
    KeysBelow(d, d', n);
    MixedKey(d', w, n, nr - n);
  }

  lemma TurnedEnd(d: seq<Word>, d': seq<Word>, w: seq<Word>, nr: nat)
    requires Turned(d, w, nr, nr) && |d'| == |d| && forall j :: 0 <= j < 4 * nr ==> d'[j] == d[j]
    requires d'[4 * nr..4 * nr + 4] == w[0..4]
    ensures InverseKeys(d', w, nr)
  {
    hide Key, InvMixColumns;
    KeysBelow(d, d', nr);
    SameKey(d', w, nr, 0);
  }

  lemma FirstRound(rk: seq<Word>, s: State)
    requires 4 <= |rk|
    ensures EncState(rk, s, 0) == AddKey(s, Key(rk, 0)) && DecState(rk, s, 0) == AddKey(s, Key(rk, 0))
  {
  }

  lemma ForwardStep(rk: seq<Word>, s: State, k: nat, x: Words)
    requires 4 * k + 8 <= |rk| && StateOf(x) == EncState(rk, s, k)
    ensures StateOf(ForwardRound(rk, 4 * k + 4, x)) == EncState(rk, s, k + 1)
  {
    hide StateOf, AddKey, Key, ForwardRound, MixColumns, ShiftRows, SubBytes;
    ForwardRoundMeans(rk, k + 1, x);
  }

  lemma ReverseStep(rk: seq<Word>, s: State, k: nat, x: Words)
    requires 4 * k + 8 <= |rk| && StateOf(x) == DecState(rk, s, k)
    ensures StateOf(ReverseRound(rk, 4 * k + 4, x)) == DecState(rk, s, k + 1)
  {
    hide StateOf, AddKey, Key, ReverseRound, InvMixColumns, InvShiftRows, InvSubBytes;
    ReverseRoundMeans(rk, k + 1, x);
  }

  lemma Stored(b: seq<Byte>, x: Words)
    requires |b| == 16
    requires Col(b[0], b[1], b[2], b[3]) == Unpack(x.x0) && Col(b[4], b[5], b[6], b[7]) == Unpack(x.x1)
    requires Col(b[8], b[9], b[10], b[11]) == Unpack(x.x2) && Col(b[12], b[13], b[14], b[15]) == Unpack(x.x3)
    ensures b == StateBlock(StateOf(x))
  {
    hide Unpack;
  }

  // ---------- round trip ----------

  /** The expansion of a key is unique as far as it goes. */
  lemma {:induction false} ExpansionUnique(key: seq<Byte>, nk: nat, v: seq<Word>, w: seq<Word>, n: nat)
    requires Expanded(key, nk, v, n) && Expanded(key, nk, w, n)
    ensures forall i :: 0 <= i < n ==> v[i] == w[i]
    decreases n
  {
    hide Expand, GetWord;
    if n > nk {
      ExpansionUnique(key, nk, v, w, n - 1);
      assert v[n - 1] == Expand(nk, n - 1, v[n - 2], v[n - 1 - nk]);
      assert w[n - 1] == Expand(nk, n - 1, w[n - 2], w[n - 1 - nk]);
    }
  }

  /** For every key of a valid size and every block, decryption gives the block back. */
  method EncryptThenDecrypt(key: seq<Byte>, keysize: int, block: array<Byte>)
    requires ValidSize(keysize) && |key| == keysize / 8 && block.Length == 16
    modifies block
    ensures block[..] == old(block[..])
  {
    hide Cipher, InvCipher, Expanded, InverseKeys;
    ghost var b: Block := block[..];
    var enc := new AesContext();
    var dec := new AesContext();
    var r := enc.SetKeyEnc(key, keysize);
    ghost var v := enc.buf[..];
    ghost var w: seq<Word>;
    r, w := dec.SetKeyDec(key, keysize);
    enc.CryptEcb(ENCRYPT, block, block);
    dec.CryptEcb(DECRYPT, block, block);
    ghost var s := BlockState(b);
    RoundTrip(key, keysize / 32, v, w, dec.buf[..], dec.nr, s);
    StateBlockBack(Cipher(v, dec.nr, s), b);
  }

  lemma RoundTrip(key: seq<Byte>, nk: nat, v: seq<Word>, w: seq<Word>, d: seq<Word>, nr: nat, s: State)
    requires Expanded(key, nk, v, 4 * nr + 4) && Expanded(key, nk, w, 4 * nr + 4)
    requires InverseKeys(d, w, nr)
    ensures InvCipher(d, nr, Cipher(v, nr, s)) == s
  {
    hide Cipher, InvCipher;
    ExpansionUnique(key, nk, v, w, 4 * nr + 4);
    DecryptionUndoes(d, w, nr, s);
    SameCipher(v, w, nr, s);
  }

  lemma SameCipher(v: seq<Word>, w: seq<Word>, nr: nat, s: State)
    requires 1 <= nr && 4 * nr + 4 <= |v| && 4 * nr + 4 <= |w|
    requires forall i :: 0 <= i < 4 * nr + 4 ==> v[i] == w[i]
    ensures Cipher(v, nr, s) == Cipher(w, nr, s)
  {
    hide EncState, AddKey, ShiftRows, SubBytes;
    SameEnc(v, w, nr - 1, s);
  }

  lemma {:induction false} SameEnc(v: seq<Word>, w: seq<Word>, r: nat, s: State)
    requires 4 * r + 4 <= |v| && 4 * r + 4 <= |w|
    requires forall i :: 0 <= i < 4 * r + 4 ==> v[i] == w[i]
    ensures EncState(v, s, r) == EncState(w, s, r)
    decreases r
  {
    hide AddKey, MixColumns, ShiftRows, SubBytes;
    if r > 0 {
      SameEnc(v, w, r - 1, s);
    }
  }

  // ---------- AES as a block function ----------

  function EncBlock(w: seq<Word>, nr: nat, b: Block): Block
    requires 1 <= nr && 4 * nr + 4 <= |w|
  {
    StateBlock(Cipher(w, nr, BlockState(b)))
  }

  function DecBlock(d: seq<Word>, nr: nat, b: Block): Block
    requires 1 <= nr && 4 * nr + 4 <= |d|
  {
    StateBlock(InvCipher(d, nr, BlockState(b)))
  }

  /** AES under an inverse pair of schedules is what the modes ask of a block function and its inverse. */
  lemma AesBlocks(d: seq<Word>, w: seq<Word>, nr: nat)
    requires InverseKeys(d, w, nr)
    ensures forall b: Block :: DecBlock(d, nr, EncBlock(w, nr, b)) == b
  {
    hide Cipher, InvCipher, BlockState, StateBlock;
    forall b: Block
      ensures DecBlock(d, nr, EncBlock(w, nr, b)) == b
    {
      var s := BlockState(b);
      StateBlockBack(Cipher(w, nr, s), b);
      DecryptionUndoes(d, w, nr, s);
    }
  }
}
