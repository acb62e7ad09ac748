/** Secure-area decryption and the encrypted card commands. */
module CardCommands {
  import opened Bytes
  import opened MachineWords
  import opened Key1
  import Bits

  // ---------- the secure area ----------

  function PairAt(s: seq<Word>, n: nat): Pair
    requires 2 * n + 2 <= |s|
  {
    Pair(s[2 * n], s[2 * n + 1])
  }

  function Put(s: seq<Word>, n: nat, p: Pair): (t: seq<Word>)
    requires 2 * n + 2 <= |s|
    ensures |t| == |s|
    ensures forall i :: 0 <= i < |s| ==> t[i] == if i == 2 * n then p.a else if i == 2 * n + 1 then p.b else s[i]
  {
    s[..2 * n] + [p.a, p.b] + s[2 * n + 2..]
  }

  lemma PutPair(s: seq<Word>, n: nat, p: Pair, j: nat)
    requires 2 * n + 2 <= |s| && 2 * j + 2 <= |s|
    ensures PairAt(Put(s, n, p), j) == if j == n then p else PairAt(s, j)
  {
  }

  /** The first n pairs decrypted. */
  function DownPairs(k: KeyBuf, s: seq<Word>, n: nat): (t: seq<Word>)
    requires 2 * n <= |s|
    ensures |t| == |s|
    decreases n
  {
    if n == 0 then s else Put(DownPairs(k, s, n - 1), n - 1, Down(k, PairAt(s, n - 1)))
  }

  function UpPairs(k: KeyBuf, s: seq<Word>, n: nat): (t: seq<Word>)
    requires 2 * n <= |s|
    ensures |t| == |s|
    decreases n
  {
    if n == 0 then s else Put(UpPairs(k, s, n - 1), n - 1, Up(k, PairAt(s, n - 1)))
  }

  lemma {:induction false} PairsDown(k: KeyBuf, s: seq<Word>, n: nat, j: nat)
    requires 2 * n <= |s| && 2 * j + 2 <= |s|
    ensures PairAt(DownPairs(k, s, n), j) == if j < n then Down(k, PairAt(s, j)) else PairAt(s, j)
    decreases n
  {
    hide Down, Put, PairAt;
    if n > 0 {
      PairsDown(k, s, n - 1, j);
      PutPair(DownPairs(k, s, n - 1), n - 1, Down(k, PairAt(s, n - 1)), j);
    }
  }

  lemma {:induction false} PairsUp(k: KeyBuf, s: seq<Word>, n: nat, j: nat)
    requires 2 * n <= |s| && 2 * j + 2 <= |s|
    ensures PairAt(UpPairs(k, s, n), j) == if j < n then Up(k, PairAt(s, j)) else PairAt(s, j)
    decreases n
  {
    hide Up, Put, PairAt;
    if n > 0 {
      PairsUp(k, s, n - 1, j);
      PutPair(UpPairs(k, s, n - 1), n - 1, Up(k, PairAt(s, n - 1)), j);
    }
  }

  lemma {:induction false} TailSame(k: KeyBuf, s: seq<Word>, n: nat, i: nat)
    requires 2 * n <= i < |s|
    ensures DownPairs(k, s, n)[i] == s[i] && UpPairs(k, s, n)[i] == s[i]
    decreases n
  {
    hide Down, Up, Put, PairAt;
    if n > 0 {
      TailSame(k, s, n - 1, i);
    }
  }

  lemma SamePairs(s: seq<Word>, t: seq<Word>, n: nat)
    requires |s| == |t| && 2 * n <= |s|
    requires forall j :: 0 <= j < n ==> PairAt(s, j) == PairAt(t, j)
    requires forall i :: 2 * n <= i < |s| ==> s[i] == t[i]
    ensures s == t
  {
    forall i | 0 <= i < 2 * n
      ensures s[i] == t[i]
    {
      assert PairAt(s, i / 2) == PairAt(t, i / 2);
    }
  }

  lemma PairsUndone(k: KeyBuf, s: seq<Word>, n: nat)
    requires 2 * n <= |s|
    ensures DownPairs(k, UpPairs(k, s, n), n) == s && UpPairs(k, DownPairs(k, s, n), n) == s
  {
    hide Up, Down, UpPairs, DownPairs, PairAt;
    var u, d := UpPairs(k, s, n), DownPairs(k, s, n);
    var du, ud := DownPairs(k, u, n), UpPairs(k, d, n);
    forall j | 0 <= j < n
      ensures PairAt(du, j) == PairAt(s, j) && PairAt(ud, j) == PairAt(s, j)
    {
      PairsUp(k, s, n, j);
      PairsDown(k, u, n, j);
      DownUp(k, PairAt(s, j));
      PairsDown(k, s, n, j);
      PairsUp(k, d, n, j);
      UpDown(k, PairAt(s, j));
    }
    forall i | 2 * n <= i < |s|
      ensures du[i] == s[i] && ud[i] == s[i]
    {
      TailSame(k, s, n, i);
      TailSame(k, u, n, i);
      TailSame(k, d, n, i);
    }
    SamePairs(du, s, n);
    SamePairs(ud, s, n);
  }

  /** The first pair with the level-2 keys, then all of the first 0x800 bytes with the level-3 keys. */
  function DecryptArea(k2: KeyBuf, k3: KeyBuf, s: seq<Word>): (t: seq<Word>)
    requires 0x200 <= |s|
    ensures |t| == |s|
  {
    DownPairs(k3, DownPairs(k2, s, 1), 0x100)
  }

  /** The encryption that the cartridge was made with: the reverse of both levels. */
  function EncryptArea(k2: KeyBuf, k3: KeyBuf, s: seq<Word>): (t: seq<Word>)
    requires 0x200 <= |s|
    ensures |t| == |s|
  {
    UpPairs(k2, UpPairs(k3, s, 0x100), 1)
  }

  /** Decryption undoes the two-level encryption, and the reverse; nothing beyond the first 0x800 bytes changes. */
  lemma AreaUndone(k2: KeyBuf, k3: KeyBuf, s: seq<Word>)
    requires 0x200 <= |s|
    ensures DecryptArea(k2, k3, EncryptArea(k2, k3, s)) == s && EncryptArea(k2, k3, DecryptArea(k2, k3, s)) == s
    ensures forall i :: 0x200 <= i < |s| ==> DecryptArea(k2, k3, s)[i] == s[i]
  {
    hide UpPairs, DownPairs;
    PairsUndone(k3, s, 0x100);
    PairsUndone(k2, UpPairs(k3, s, 0x100), 1);
    PairsUndone(k2, s, 1);
    PairsUndone(k3, DownPairs(k2, s, 1), 0x100);
    forall i | 0x200 <= i < |s|
      ensures DecryptArea(k2, k3, s)[i] == s[i]
    {
      TailSame(k2, s, 1, i);
      TailSame(k3, DownPairs(k2, s, 1), 0x100, i);
    }
  }

  /** Pair by pair: the first one through both levels, the other 255 through the second only. */
  lemma AreaPairs(k2: KeyBuf, k3: KeyBuf, s: seq<Word>, j: nat)
    requires 0x200 <= |s| && 2 * j + 2 <= |s|
    ensures PairAt(DecryptArea(k2, k3, s), j)
      == if j == 0 then Down(k3, Down(k2, PairAt(s, 0))) else if j < 0x100 then Down(k3, PairAt(s, j)) else PairAt(s, j)
  {
    hide Down, DownPairs, PairAt;
    PairsDown(k2, s, 1, j);
    PairsDown(k3, DownPairs(k2, s, 1), 0x100, j);
  }

  method DecryptSecureArea(c: Crypto, gameCode: Word, area: array<Word>, device: Device)
    requires c.Valid() && 0x200 <= area.Length && area != c.keybuf && area != c.keycode
    modifies c.keybuf, c.keycode, area
    ensures area[..] == DecryptArea(InitKeys(c.tables, gameCode, 2, 8, device).buf,
                                    InitKeys(c.tables, gameCode, 3, 8, device).buf, old(area[..]))
  {
    hide InitKeys, Down, DownPairs;
    ghost var s := area[..];
    c.InitKeycode(gameCode, 2, 8, device);
    ghost var k2: KeyBuf := c.keybuf[..];
    c.CryptDown(area, 0);
    FirstPair(k2, s, area[..]);
    c.InitKeycode(gameCode, 3, 8, device);
    ghost var k3: KeyBuf, t := c.keybuf[..], area[..];
    NoPairs(k3, t);
    ghost var n: nat := 0;
    var i := 0;
    while i < 0x200
      invariant i == 2 * n && n <= 0x100 && area[..] == DownPairs(k3, t, n) && c.keybuf[..] == k3
    {
      ghost var now := area[..];
      NextPair(k3, t, n, now);
      c.CryptDown(area, i);
      assert area[..] == Put(now, n, Down(k3, PairAt(now, n)));
      i, n := i + 2, n + 1;
    }
  }

  lemma FirstPair(k: KeyBuf, s: seq<Word>, t: seq<Word>)
    requires 2 <= |s| == |t| && Pair(t[0], t[1]) == Down(k, Pair(s[0], s[1]))
    requires forall i :: 2 <= i < |s| ==> t[i] == s[i]
    ensures t == DownPairs(k, s, 1)
  {
    hide Down;
    assert DownPairs(k, s, 0) == s;
  }

  lemma NoPairs(k: KeyBuf, s: seq<Word>)
    ensures DownPairs(k, s, 0) == s
  {
  }

  lemma NextPair(k: KeyBuf, s: seq<Word>, n: nat, t: seq<Word>)
    requires 2 * n + 2 <= |s| && t == DownPairs(k, s, n)
    ensures DownPairs(k, s, n + 1) == Put(t, n, Down(k, PairAt(t, n)))
  {
    hide Down;
    PairsDown(k, s, n, n);
  }

  // ---------- commands ----------

  const SECURE_READ: Byte := 0x20
  const ACTIVATE_SEC: Byte := 0x40

  /** What a command carries. */
  datatype Fields = Fields(command: nat, block: nat, iii: nat, jjj: nat, kkkkk: nat)

  /** Fields that fit where they are packed: command in the high digit, block in 16 bits, iii and jjj in 12, kkkkk in 20. */
  ghost predicate Fits(f: Fields) {
    && f.command < 0x100 && f.command % 16 == 0 && f.block < 0x1_0000
    && f.iii < 0x1000 && f.jjj < 0x1000 && f.kkkkk < 0x10_0000
  }

  /** a shifted up by four, or-ed with b, cut to a byte. */
  function Nibbles(a: nat, b: nat): Byte {
    Bits.Or(a * 16, b) % 256
  }

  /** The eight bytes of a command, lowest first. */
  function PackCommand(f: Fields): (b: seq<Byte>)
    ensures |b| == 8
  {
    [f.kkkkk % 256, f.kkkkk / 0x100 % 256, Nibbles(f.jjj, f.kkkkk / 0x1_0000), f.jjj / 16 % 256,
     f.iii % 256, Nibbles(f.block, f.iii / 0x100), f.block / 16 % 256, Bits.Or(f.command, f.block / 0x1000) % 256]
  }

  /** The fields read back from the eight bytes. */
  function ParseCommand(b: seq<Byte>): Fields
    requires |b| == 8
  {
    var b0: int, b1: int, b2: int, b3: int := b[0], b[1], b[2], b[3];
    var b4: int, b5: int, b6: int, b7: int := b[4], b[5], b[6], b[7];
    Fields(b7 / 16 * 16, b7 % 16 * 0x1000 + b6 * 16 + b5 / 16, b5 % 16 * 0x100 + b4,
           b3 * 16 + b2 / 16, b2 % 16 * 0x1_0000 + b1 * 0x100 + b0)
  }

  lemma NibblesMean(a: nat, b: nat)
    requires b < 16
    ensures Nibbles(a, b) == a % 16 * 16 + b
  {
    assert Bits.Two(4) == 16;
    Bits.OrDisjoint(a, b, 4);
    LowDigits(a, b);
  }

  lemma LowDigits(a: nat, b: nat)
    requires b < 16
    ensures (a * 16 + b) % 256 == a % 16 * 16 + b
  {
    var q, r := a / 16, a % 16;
    assert a == 16 * q + r;
    Wrapped(a * 16 + b, q, r * 16 + b);
  }

  lemma Wrapped(x: nat, q: nat, r: nat)
    requires x == 256 * q + r && r < 256
    ensures x % 256 == r && x / 256 == q
  {
  }

  lemma HighNibble(c: nat, b: nat)
    requires c < 256 && c % 16 == 0 && b < 16
    ensures Bits.Or(c, b) == c + b
  {
    assert Bits.Two(4) == 16;
    Bits.OrDisjoint(c / 16, b, 4);
  }

  /** A byte of two digits, taken apart. */
  lemma TwoDigits(hi: nat, lo: nat)
    requires lo < 16
    ensures (hi * 16 + lo) / 16 == hi && (hi * 16 + lo) % 16 == lo
  {
  }

  /** Fields that fit are read back as they were packed; a kkkkk that does not fit is not. */
  lemma ParsePacked(f: Fields)
    requires Fits(f.(kkkkk := 0))
    ensures ParseCommand(PackCommand(f)) == f <==> f.kkkkk < 0x10_0000
  {
    hide PackCommand, ParseCommand;
    if f.kkkkk < 0x10_0000 {
      ReadBack(f);
    } else {
      KBound(PackCommand(f));
    }
  }

  lemma ReadBack(f: Fields)
    requires Fits(f)
    ensures ParseCommand(PackCommand(f)) == f
  {
    hide PackCommand, Nibbles, Bits.Or;
    PackedBytes(f);
    BlockDigits(f.block);
    KDigits(f.kkkkk);
    TwoDigits(f.command / 16, f.block / 0x1000);
    TwoDigits(f.block % 16, f.iii / 0x100);
    TwoDigits(f.jjj % 16, f.kkkkk / 0x1_0000);
    JDigits(f.jjj);
  }

  /** The eight bytes of fields that fit, without or. */
  lemma PackedBytes(f: Fields)
    requires Fits(f)
    ensures var b := PackCommand(f);
      && b[0] == f.kkkkk % 256 && b[1] == f.kkkkk / 0x100 % 256
      && b[2] == f.jjj % 16 * 16 + f.kkkkk / 0x1_0000 && b[3] == f.jjj / 16
      && b[4] == f.iii % 256 && b[5] == f.block % 16 * 16 + f.iii / 0x100
      && b[6] == f.block / 16 % 256 && b[7] == f.command / 16 * 16 + f.block / 0x1000
  {
    hide Bits.Or, Nibbles;
    HighNibble(f.command, f.block / 0x1000);
    NibblesMean(f.block, f.iii / 0x100);
    NibblesMean(f.jjj, f.kkkkk / 0x1_0000);
  }

  /** The command as one number of 64 bits: each field at its place. */
  lemma PackedNumber(f: Fields)
    requires Fits(f)
    ensures var b := PackCommand(f);
      var b0: int, b1: int, b2: int, b3: int := b[0], b[1], b[2], b[3];
      var b4: int, b5: int, b6: int, b7: int := b[4], b[5], b[6], b[7];
      b0 + 0x100 * b1 + 0x1_0000 * b2 + 0x100_0000 * b3
      + 0x1_0000_0000 * (b4 + 0x100 * b5 + 0x1_0000 * b6 + 0x100_0000 * b7)
      == f.kkkkk + 0x10_0000 * f.jjj + 0x1_0000_0000 * (f.iii + 0x1000 * f.block + 0x100_0000 * f.command)
  {
    hide PackCommand;
    PackedBytes(f);
    BlockDigits(f.block);
    KDigits(f.kkkkk);
    JDigits(f.jjj);
    JDigits(f.iii);
    JDigits(f.command);
  }

  lemma BlockDigits(b: nat)
    requires b < 0x1_0000
    ensures b / 0x1000 * 0x1000 + b / 16 % 256 * 16 + b % 16 == b
  {
    var a := b / 16;
    assert a / 256 == b / 0x1000;
  }

  lemma JDigits(j: nat)
    ensures j / 16 * 16 + j % 16 == j && j / 0x100 * 0x100 + j % 256 == j
  {
  }

  lemma KDigits(k: nat)
    requires k < 0x10_0000
    ensures k / 0x1_0000 * 0x1_0000 + k / 0x100 % 256 * 0x100 + k % 256 == k
  {
    var a := k / 0x100;
    assert a / 256 == k / 0x1_0000;
  }

  lemma KBound(b: seq<Byte>)
    requires |b| == 8
    ensures ParseCommand(b).kkkkk < 0x10_0000
  {
  }

  function BytesPair(b: seq<Byte>): Pair
    requires |b| == 8
  {
    Pair(Pack(b[0], b[1], b[2], b[3]), Pack(b[4], b[5], b[6], b[7]))
  }

  function PairBytes(p: Pair): (b: seq<Byte>)
    ensures |b| == 8
  {
    [ByteOf(p.a, 0), ByteOf(p.a, 1), ByteOf(p.a, 2), ByteOf(p.a, 3),
     ByteOf(p.b, 0), ByteOf(p.b, 1), ByteOf(p.b, 2), ByteOf(p.b, 3)]
  }

  lemma BytesBack(b: seq<Byte>, p: Pair)
    requires |b| == 8
    ensures PairBytes(BytesPair(b)) == b && BytesPair(PairBytes(p)) == p
  {
    hide ByteOf, Pack;
    PackBytes(b[0], b[1], b[2], b[3]);
    PackBytes(b[4], b[5], b[6], b[7]);
    PackOfBytes(p.a);
    PackOfBytes(p.b);
  }

  /** An encrypted command as the card reads it. */
  function Opened(k: KeyBuf, b: seq<Byte>): Fields
    requires |b| == 8
  {
    ParseCommand(PairBytes(Down(k, BytesPair(b))))
  }

  function Sealed(k: KeyBuf, f: Fields): (b: seq<Byte>)
    ensures |b| == 8
  {
    PairBytes(Up(k, BytesPair(PackCommand(f))))
  }

  /** The eight bytes are encrypted as two little-endian words, the lower one first. */
  lemma SealedWords(k: KeyBuf, f: Fields)
    ensures var p, q := PackCommand(f), Sealed(k, f);
      Pair(WordLe(q, 0), WordLe(q, 4)) == Up(k, Pair(WordLe(p, 0), WordLe(p, 4)))
  {
    hide Up, PackCommand, ByteOf;
    var u := Up(k, BytesPair(PackCommand(f)));
    PackOfBytes(u.a);
    PackOfBytes(u.b);
  }

  /** Decrypting and unpacking an encrypted command gives its fields exactly while kkkkk fits in 20 bits. */
  lemma OpenedSealed(k: KeyBuf, f: Fields)
    requires Fits(f.(kkkkk := 0))
    ensures Opened(k, Sealed(k, f)) == f <==> f.kkkkk < 0x10_0000
  {
    hide Up, Down, ParseCommand, PackCommand;
    var p := PackCommand(f);
    var u := Up(k, BytesPair(p));
    BytesBack(p, u);
    DownUp(k, BytesPair(p));
    ParsePacked(f);
  }

  /** The key1data record. */
  datatype Session = Session(iii: nat, jjj: nat, kkkkk: nat, llll: nat, mmm: nat, nnn: nat)

  /** What the random start leaves: every field masked to its width. */
  ghost predicate Started(s: Session) {
    s.iii < 0x1000 && s.jjj < 0x1000 && s.llll < 0x1_0000 && s.mmm < 0x1000 && s.nnn < 0x1000
  }

  /** The fields that a command gets: only a secure read keeps its block, only the activation takes mmm and nnn. */
  function FieldsOf(s: Session, command: Byte, block: nat): Fields {
    Fields(command, if command != SECURE_READ then s.llll else block,
           if command == ACTIVATE_SEC then s.mmm else s.iii, if command == ACTIVATE_SEC then s.nnn else s.jjj, s.kkkkk)
  }

  class Card {
    const crypto: Crypto
    var key1data: Session

    constructor (c: Crypto, s: Session)
      ensures crypto == c && key1data == s
    {
      crypto, key1data := c, s;
    }

    /** Packs and encrypts a command and counts kkkkk up. */
    method CreateEncryptedCommand(command: Byte, cmdData: array<Byte>, block: nat)
      requires crypto.Valid() && cmdData.Length == 8 && key1data.kkkkk < 0x1_0000_0000
      modifies this`key1data, cmdData
      ensures cmdData[..] == Sealed(crypto.keybuf[..], FieldsOf(old(key1data), command, block))
      ensures key1data == Counted(old(key1data))
    {
      hide Up, Nibbles, Bits.Or, ByteOf, Pack;
      var b: nat := block;
      if command != SECURE_READ {
        b := key1data.llll;
      }
      var iii: nat, jjj: nat := key1data.iii, key1data.jjj;
      if command == ACTIVATE_SEC {
        iii, jjj := key1data.mmm, key1data.nnn;
      }
      var k: nat := key1data.kkkkk;
      cmdData[7] := Bits.Or(command, b / 0x1000) % 256;
      cmdData[6] := b / 16 % 256;
      cmdData[5] := Nibbles(b, iii / 0x100);
      cmdData[4] := iii % 256;
      cmdData[3] := jjj / 16 % 256;
      cmdData[2] := Nibbles(jjj, k / 0x1_0000);
      cmdData[1] := k / 0x100 % 256;
      cmdData[0] := k % 256;
      assert cmdData[..] == PackCommand(FieldsOf(key1data, command, block));
      EncryptBytes(cmdData);
      key1data := key1data.(kkkkk := (k + 1) % 0x1_0000_0000);
    }

    method PutBytes(cmdData: array<Byte>, a: Word, b: Word)
      requires cmdData.Length == 8
      modifies cmdData
      ensures cmdData[..] == PairBytes(Pair(a, b))
    {
      hide ByteOf;
      for i := 0 to 4
        invariant forall j :: 0 <= j < i ==> cmdData[j] == ByteOf(a, j)
        invariant forall j :: 4 <= j < 4 + i ==> cmdData[j] == ByteOf(b, j - 4)
      {
        cmdData[i] := ByteOf(a, i);
        cmdData[4 + i] := ByteOf(b, i);
      }
    }

    /** The eight bytes as two words, encrypted. */
    method EncryptBytes(cmdData: array<Byte>)
      requires crypto.Valid() && cmdData.Length == 8
      modifies cmdData
      ensures cmdData[..] == PairBytes(Up(crypto.keybuf[..], BytesPair(old(cmdData[..]))))
    {
      hide Up, ByteOf, Pack;
      var w := new Word[2](_ => 0);
      w[0] := Pack(cmdData[0], cmdData[1], cmdData[2], cmdData[3]);
      w[1] := Pack(cmdData[4], cmdData[5], cmdData[6], cmdData[7]);
      crypto.CryptUp(w, 0);
      PutBytes(cmdData, w[0], w[1]);
    }
  }

  function Counted(s: Session): Session {
    s.(kkkkk := (s.kkkkk + 1) % 0x1_0000_0000)
  }

  type Eight = b: seq<Byte> | |b| == 8 witness [0, 0, 0, 0, 0, 0, 0, 0]

  function Command(k: KeyBuf, s: Session, c: (Byte, nat)): Eight {
    Sealed(k, FieldsOf(s, c.0, c.1))
  }

  /** The encrypted commands of a run. */
  function Commands(k: KeyBuf, s: Session, cs: seq<(Byte, nat)>): (out: seq<Eight>)
    ensures |out| == |cs|
    decreases |cs|
  {
    if |cs| == 0 then []
    else [Command(k, s, cs[0])] + Commands(k, Counted(s), cs[1..])
  }

  /** Over a run that stays below 2^20, the card sees each command with its fields and consecutive kkkkk. */
  lemma {:induction false} RunIsConsecutive(k: KeyBuf, s: Session, cs: seq<(Byte, nat)>, i: nat)
    requires Started(s) && s.kkkkk + |cs| <= 0x10_0000 && i < |cs|
    requires cs[i].0 % 16 == 0 && cs[i].1 < 0x1_0000
    ensures Opened(k, Commands(k, s, cs)[i]) == FieldsOf(s.(kkkkk := s.kkkkk + i), cs[i].0, cs[i].1)
    ensures var f := Opened(k, Commands(k, s, cs)[i]);
      && f.command == cs[i].0 && f.kkkkk == s.kkkkk + i
      && (cs[i].0 == 0x40 ==> f.iii == s.mmm && f.jjj == s.nnn && f.block == s.llll)
      && (cs[i].0 == 0x20 ==> f.iii == s.iii && f.jjj == s.jjj && f.block == cs[i].1)
      && (cs[i].0 != 0x40 && cs[i].0 != 0x20 ==> f.iii == s.iii && f.jjj == s.jjj && f.block == s.llll)
    decreases |cs|
  {
    hide Opened, Sealed;
    if i == 0 {
      OpenedSealed(k, FieldsOf(s, cs[0].0, cs[0].1));
    } else {
      RunIsConsecutive(k, Counted(s), cs[1..], i - 1);
    }
  }
}
