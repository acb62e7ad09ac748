/** KEY1: the card's Blowfish variant and its key set-up. */
module Key1 {
  import opened Bytes
  import opened MachineWords
  import Limbs

  type KeyBuf = s: seq<Word> | |s| == 0x412 witness seq(0x412, _ => 0)

  /** Two words: the unit that is encrypted. */
  datatype Pair = Pair(a: Word, b: Word)

  function AddWord(v: Word, w: Word): Word {
    (v + w) % W32
  }

  /** The four box look-ups. */
  function Boxes(k: KeyBuf, z: Word): Word {
    var x := k[0x12 + ByteOf(z, 3)];
    var x' := AddWord(k[0x112 + ByteOf(z, 2)], x);
    var x'' := XorWord(k[0x212 + ByteOf(z, 1)], x');
    AddWord(k[0x312 + ByteOf(z, 0)], x'')
  }

  /** One round; a is x and b is y of the source. */
  function Round(k: KeyBuf, i: nat, s: Pair): Pair
    requires i < 18
  {
    var z := XorWord(k[i], s.a);
    Pair(XorWord(s.b, Boxes(k, z)), z)
  }

  /** The first n rounds upwards. */
  function UpRounds(k: KeyBuf, s: Pair, n: nat): Pair
    requires n <= 16
    decreases n
  {
    if n == 0 then s else Round(k, n - 1, UpRounds(k, s, n - 1))
  }

  /** The first n rounds downwards, from round 17 on. */
  function DownRounds(k: KeyBuf, s: Pair, n: nat): Pair
    requires n <= 16
    decreases n
  {
    if n == 0 then s else Round(k, 18 - n, DownRounds(k, s, n - 1))
  }

  function Up(k: KeyBuf, p: Pair): Pair {
    var s := UpRounds(k, Pair(p.b, p.a), 16);
    Pair(XorWord(s.a, k[0x10]), XorWord(s.b, k[0x11]))
  }

  function Down(k: KeyBuf, p: Pair): Pair {
    var s := DownRounds(k, Pair(p.b, p.a), 16);
    Pair(XorWord(s.a, k[1]), XorWord(s.b, k[0]))
  }

  // ---------- the rounds in numbers ----------

  /** The four bytes of a word, most significant first. */
  predicate Spells(z: int, b3: Byte, b2: Byte, b1: Byte, b0: Byte) {
    var x3: int, x2: int, x1: int, x0: int := b3, b2, b1, b0;
    z == 0x100_0000 * x3 + 0x1_0000 * x2 + 0x100 * x1 + x0
  }

  /**
   * One round from s to t with a round key: the keyed word z becomes the second word, and the first one is the old
   * second word added to ((A[b3] + B[b2]) ^ C[b1]) + D[b0], the sums modulo 2^32, over the four tables and the bytes of z.
   */
  ghost predicate IsRound(k: KeyBuf, key: Word, s: Pair, t: Pair) {
    && t.b == XorWord(key, s.a)
    && forall b3: Byte, b2: Byte, b1: Byte, b0: Byte :: Spells(t.b, b3, b2, b1, b0) ==>
      t.a == XorWord(s.b, (XorWord((k[0x12 + b3] + k[0x112 + b2]) % W32, k[0x212 + b1]) + k[0x312 + b0]) % W32)
  }

  lemma SpelledBytes(z: Word, b3: Byte, b2: Byte, b1: Byte, b0: Byte)
    requires Spells(z, b3, b2, b1, b0)
    ensures ByteOf(z, 3) == b3 && ByteOf(z, 2) == b2 && ByteOf(z, 1) == b1 && ByteOf(z, 0) == b0
  {
    hide ByteOf;
    PackBytes(b0, b1, b2, b3);
  }

  lemma RoundIs(k: KeyBuf, i: nat, s: Pair)
    requires i < 18
    ensures IsRound(k, k[i], s, Round(k, i, s))
  {
    hide XorWord, ByteOf, Spells;
    var z := XorWord(k[i], s.a);
    forall b3: Byte, b2: Byte, b1: Byte, b0: Byte | Spells(z, b3, b2, b1, b0)
      ensures Boxes(k, z) == (XorWord((k[0x12 + b3] + k[0x112 + b2]) % W32, k[0x212 + b1]) + k[0x312 + b0]) % W32
    {
      SpelledBytes(z, b3, b2, b1, b0);
      XorWordComm(k[0x212 + b1], AddWord(k[0x112 + b2], k[0x12 + b3]));
    }
  }

  /** One pair of words is spelled one way, so a round has one result. */
  lemma OneRound(k: KeyBuf, key: Word, s: Pair, t: Pair, u: Pair)
    requires IsRound(k, key, s, t) && IsRound(k, key, s, u)
    ensures t == u
  {
    hide XorWord, ByteOf;
    var z := t.b;
    PackOfBytes(z);
    assert Spells(z, ByteOf(z, 3), ByteOf(z, 2), ByteOf(z, 1), ByteOf(z, 0));
  }

  /** Sixteen rounds from the swapped pair p on, with the round keys from first on, upwards or downwards. */
  ghost predicate RunOfRounds(k: KeyBuf, p: Pair, first: nat, step: int, st: seq<Pair>)
    requires 0 <= first < 18 && 0 <= first + 15 * step < 18
  {
    && |st| == 17 && st[0] == Pair(p.b, p.a)
    && forall n :: 0 <= n < 16 ==> RoundAt(k, first, step, st, n)
  }

  ghost predicate RoundAt(k: KeyBuf, first: nat, step: int, st: seq<Pair>, n: nat)
    requires 0 <= first < 18 && 0 <= first + 15 * step < 18 && n < 16 && |st| == 17
  {
    InRange(first, step, n);
    IsRound(k, k[first + n * step], st[n], st[n + 1])
  }

  lemma InRange(first: nat, step: int, n: nat)
    requires first < 18 && 0 <= first + 15 * step < 18 && n < 16
    ensures 0 <= first + n * step < 18
  {
    if step >= 0 {
      Limbs.MulMono(n, 15, step);
      Limbs.MulMono(0, n, step);
    } else {
      Limbs.MulMono(n, 15, -step);
      Limbs.MulMono(0, n, -step);
    }
  }

  lemma {:induction false} UpRun(k: KeyBuf, p: Pair, st: seq<Pair>, n: nat)
    requires RunOfRounds(k, p, 0, 1, st) && n <= 16
    ensures UpRounds(k, Pair(p.b, p.a), n) == st[n]
    decreases n
  {
    hide IsRound, Round;
    if n > 0 {
      UpRun(k, p, st, n - 1);
      assert RoundAt(k, 0, 1, st, n - 1);
      RoundIs(k, n - 1, st[n - 1]);
      OneRound(k, k[n - 1], st[n - 1], st[n], Round(k, n - 1, st[n - 1]));
    }
  }

  lemma {:induction false} DownRun(k: KeyBuf, p: Pair, st: seq<Pair>, n: nat)
    requires RunOfRounds(k, p, 17, -1, st) && n <= 16
    ensures DownRounds(k, Pair(p.b, p.a), n) == st[n]
    decreases n
  {
    hide IsRound, Round;
    if n > 0 {
      DownRun(k, p, st, n - 1);
      assert RoundAt(k, 17, -1, st, n - 1);
      RoundIs(k, 18 - n, st[n - 1]);
      OneRound(k, k[18 - n], st[n - 1], st[n], Round(k, 18 - n, st[n - 1]));
    }
  }

  /** Up runs with the round keys 0 to 15 and ends with 16 and 17; down runs with 17 to 2 and ends with 1 and 0. */
  lemma Directions(k: KeyBuf, p: Pair, st: seq<Pair>)
    ensures RunOfRounds(k, p, 0, 1, st) ==> Up(k, p) == Pair(XorWord(st[16].a, k[16]), XorWord(st[16].b, k[17]))
    ensures RunOfRounds(k, p, 17, -1, st) ==> Down(k, p) == Pair(XorWord(st[16].a, k[1]), XorWord(st[16].b, k[0]))
  {
    hide XorWord, RunOfRounds, UpRounds, DownRounds;
    if RunOfRounds(k, p, 0, 1, st) {
      UpRun(k, p, st, 16);
      SixteenRounds(k, p, 0, 1, st);
    }
    if RunOfRounds(k, p, 17, -1, st) {
      DownRun(k, p, st, 16);
      SixteenRounds(k, p, 17, -1, st);
    }
  }

  lemma SixteenRounds(k: KeyBuf, p: Pair, first: nat, step: int, st: seq<Pair>)
    requires first < 18 && 0 <= first + 15 * step < 18 && RunOfRounds(k, p, first, step, st)
    ensures |st| == 17
  {
  }

  // ---------- the two directions are inverse ----------

  /** After n rounds down, the state is that of the remaining rounds up, swapped and keyed. */
  lemma {:induction false} DownMeetsUp(k: KeyBuf, p: Pair, n: nat)
    requires 1 <= n <= 16
    ensures var s := UpRounds(k, Pair(p.b, p.a), 16 - n); var q := Up(k, p);
      DownRounds(k, Pair(q.b, q.a), n) == Pair(XorWord(s.b, k[17 - n]), XorWord(s.a, k[16 - n]))
    decreases n
  {
    hide Boxes, XorWord, UpRounds, DownRounds;
    var q := Up(k, p);
    var s := UpRounds(k, Pair(p.b, p.a), 16 - n);
    UpStep(k, Pair(p.b, p.a), 17 - n);
    DownStep(k, Pair(q.b, q.a), n);
    if n == 1 {
      NoRounds(k, Pair(q.b, q.a));
      Undone(k, s, 15, 17);
    } else {
      DownMeetsUp(k, p, n - 1);
      Undone(k, s, 16 - n, 18 - n);
    }
  }

  lemma UpStep(k: KeyBuf, s: Pair, n: nat)
    requires 1 <= n <= 16
    ensures UpRounds(k, s, n) == Round(k, n - 1, UpRounds(k, s, n - 1))
  {
  }

  lemma DownStep(k: KeyBuf, s: Pair, n: nat)
    requires 1 <= n <= 16
    ensures DownRounds(k, s, n) == Round(k, 18 - n, DownRounds(k, s, n - 1))
  {
  }

  lemma NoRounds(k: KeyBuf, s: Pair)
    ensures DownRounds(k, s, 0) == s && UpRounds(k, s, 0) == s
  {
  }

  /** A round i on s, with both words keyed, and the round j that undoes it. */
  lemma Undone(k: KeyBuf, s: Pair, i: nat, j: nat)
    requires i + 1 < 18 && j < 18
    ensures var t := Round(k, i, s);
      Round(k, j, Pair(XorWord(t.b, k[j]), XorWord(t.a, k[i + 1]))) == Pair(XorWord(s.b, k[i + 1]), XorWord(s.a, k[i]))
  {
    hide Boxes, XorWord;
    var t := Round(k, i, s);
    XorWordUndo(t.b, k[j]);
    var f := Boxes(k, t.b);
    XorWordComm(k[i], s.a);
    XorWordComm(XorWord(s.b, f), k[i + 1]);
    Cancel(s.b, f, k[i + 1]);
  }

  /** (b ^ f ^ m) ^ f == b ^ m. */
  lemma Cancel(b: Word, f: Word, m: Word)
    ensures XorWord(XorWord(XorWord(b, f), m), f) == XorWord(b, m)
  {
    hide XorWord;
    XorWordAssoc(XorWord(b, f), m, f);
    XorWordComm(m, f);
    XorWordAssoc(XorWord(b, f), f, m);
    XorWordUndo(b, f);
  }

  /** For every key buffer, down undoes up. */
  lemma DownUp(k: KeyBuf, p: Pair)
    ensures Down(k, Up(k, p)) == p
  {
    hide XorWord, Round, UpRounds, DownRounds;
    DownMeetsUp(k, p, 16);
    NoRounds(k, Pair(p.b, p.a));
    XorWordUndo(p.a, k[1]);
    XorWordUndo(p.b, k[0]);
  }

  /** The buffer with its first eighteen words, the round keys, in the opposite order. */
  function Turned(k: KeyBuf): KeyBuf {
    seq(0x412, i requires 0 <= i < 0x412 => if i < 18 then k[17 - i] else k[i])
  }

  lemma TurnedRound(k: KeyBuf, i: nat, s: Pair)
    requires i < 18
    ensures Round(Turned(k), i, s) == Round(k, 17 - i, s)
  {
    hide XorWord, AddWord, ByteOf;
  }

  lemma {:induction false} TurnedRounds(k: KeyBuf, s: Pair, n: nat)
    requires n <= 16
    ensures UpRounds(Turned(k), s, n) == DownRounds(k, s, n) && DownRounds(Turned(k), s, n) == UpRounds(k, s, n)
    decreases n
  {
    hide Round, Turned;
    if n > 0 {
      TurnedRounds(k, s, n - 1);
      TurnedRound(k, n - 1, DownRounds(k, s, n - 1));
      TurnedRound(k, 18 - n, UpRounds(k, s, n - 1));
    }
  }

  /** For every key buffer, up undoes down: going down is going up with the round keys turned. */
  lemma UpDown(k: KeyBuf, p: Pair)
    ensures Up(k, Down(k, p)) == p
  {
    hide XorWord, Round, UpRounds, DownRounds;
    var t := Turned(k);
    TurnedRounds(k, Pair(p.b, p.a), 16);
    var q := Down(k, p);
    TurnedRounds(k, Pair(q.b, q.a), 16);
    assert Up(t, p) == Down(k, p) && Down(t, q) == Up(k, q);
    DownUp(t, p);
  }

  // ---------- key set-up ----------

  /** The reversed bytes of a word. */
  function Bswap(w: Word): Word {
    Pack(ByteOf(w, 3), ByteOf(w, 2), ByteOf(w, 1), ByteOf(w, 0))
  }

  /** Key buffer and key code together. */
  datatype Keys = Keys(buf: KeyBuf, code: seq<Word>)

  /** The two encryptions of the key code, upper pair first. */
  function CryptCode(k: KeyBuf, code: seq<Word>): (c: seq<Word>)
    requires |code| == 3
    ensures |c| == 3
  {
    var hi := Up(k, Pair(code[1], code[2]));
    var lo := Up(k, Pair(code[0], hi.a));
    [lo.a, lo.b, hi.b]
  }

  /** The round keys mixed with the key code, repeated with the given period. */
  function MixKeys(k: KeyBuf, code: seq<Word>, period: nat): KeyBuf
    requires |code| == 3 && 1 <= period <= 3
  {
    seq(0x412, i requires 0 <= i < 0x412 => if i < 18 then XorWord(k[i], Bswap(code[i % period])) else k[i])
  }

  /** The buffer with pair n written, second word first. */
  function PutPair(k: KeyBuf, n: nat, t: Pair): (k': KeyBuf)
    requires n < 0x209
    ensures forall i :: 0 <= i < 0x412 ==> k'[i] == if i == 2 * n then t.b else if i == 2 * n + 1 then t.a else k[i]
  {
    k[..2 * n] + [t.b, t.a] + k[2 * n + 2..]
  }

  /** The buffer refilled from pair n on, each pair the scratch pair encrypted once more, with the buffer so far. */
  function Refill(k: KeyBuf, s: Pair, n: nat): KeyBuf
    requires n <= 0x209
    decreases 0x209 - n
  {
    if n == 0x209 then k else
      var t := Up(k, s);
      Refill(PutPair(k, n, t), t, n + 1)
  }

  function ApplyCode(s: Keys, modulo: nat): (t: Keys)
    requires |s.code| == 3 && 4 <= modulo < 16
    ensures |t.code| == 3
  {
    var c := CryptCode(s.buf, s.code);
    Keys(Refill(MixKeys(s.buf, c, modulo / 4), Pair(0, 0), 0), c)
  }

  datatype Device = NtrCard | TwlCard | TwlDevCard

  /** The three built-in tables. */
  datatype Tables = Tables(ntr: KeyBuf, twl: KeyBuf, dev: KeyBuf)

  function TableOf(t: Tables, d: Device): KeyBuf {
    match d
    case NtrCard => t.ntr
    case TwlCard => t.twl
    case TwlDevCard => t.dev
  }

  function ApplyIf(c: bool, s: Keys, modulo: nat): (t: Keys)
    requires |s.code| == 3 && 4 <= modulo < 16
    ensures |t.code| == 3
  {
    if c then ApplyCode(s, modulo) else s
  }

  /** The key code between the second and the third application. */
  function Adjust(s: Keys): (t: Keys)
    requires |s.code| == 3
    ensures |t.code| == 3
  {
    Keys(s.buf, [s.code[0], s.code[1] * 2 % W32, s.code[2] / 2])
  }

  /** What the key set-up leaves, from its arguments alone. */
  function InitKeys(tables: Tables, id: Word, level: nat, modulo: nat, device: Device): (s: Keys)
    requires 4 <= modulo < 16
    ensures |s.code| == 3
  {
    var k := TableOf(tables, device);
    if device == TwlDevCard then Keys(k, [0, 0, 0]) else
      var s0 := Keys(k, [id, id / 2, id * 2 % W32]);
      var s2 := ApplyIf(level >= 2, ApplyIf(level >= 1, s0, modulo), modulo);
      ApplyIf(level >= 3, Adjust(s2), modulo)
  }

  lemma SwappedBytes(w: Word, b3: Byte, b2: Byte, b1: Byte, b0: Byte)
    requires Spells(w, b3, b2, b1, b0)
    ensures Spells(Bswap(w), b0, b1, b2, b3)
  {
    hide ByteOf;
    SpelledBytes(w, b3, b2, b1, b0);
  }

  /** One step of a refill: the pair encrypted, and written over pair n with the second word first. */
  ghost predicate Refilled(k: KeyBuf, s: Pair, k': KeyBuf, s': Pair, n: nat)
    requires n < 0x209
  {
    && s' == Up(k, s)
    && forall i :: 0 <= i < 0x412 ==> k'[i] == if i == 2 * n then s'.b else if i == 2 * n + 1 then s'.a else k[i]
  }

  /** Step n of a refill that starts at base. */
  ghost predicate Refills(ks: seq<KeyBuf>, ps: seq<Pair>, base: nat, n: nat)
    requires base <= n < 0x209 && |ks| == |ps| == 0x20A - base
  {
    Refilled(ks[n - base], ps[n - base], ks[n - base + 1], ps[n - base + 1], n)
  }

  lemma {:induction false} RefillRun(k: KeyBuf, s: Pair, base: nat) returns (ks: seq<KeyBuf>, ps: seq<Pair>)
    requires base <= 0x209
    ensures |ks| == |ps| == 0x20A - base && ks[0] == k && ps[0] == s && ks[0x209 - base] == Refill(k, s, base)
    ensures forall n :: base <= n < 0x209 ==> Refills(ks, ps, base, n)
    decreases 0x209 - base
  {
    hide Up;
    if base == 0x209 {
      ks, ps := [k], [s];
    } else {
      var t := Up(k, s);
      var moreKs, morePs := RefillRun(PutPair(k, base, t), t, base + 1);
      ks, ps := [k] + moreKs, [s] + morePs;
      forall n | base <= n < 0x209
        ensures Refills(ks, ps, base, n)
      {
        if n == base {
          FirstRefill(k, s, moreKs, morePs, base);
        } else {
          assert Refills(moreKs, morePs, base + 1, n);
          LaterRefill(k, s, moreKs, morePs, base, n);
        }
      }
    }
  }

  lemma FirstRefill(k: KeyBuf, s: Pair, ks: seq<KeyBuf>, ps: seq<Pair>, base: nat)
    requires base < 0x209 && |ks| == |ps| == 0x209 - base
    requires ps[0] == Up(k, s) && ks[0] == PutPair(k, base, ps[0])
    ensures Refills([k] + ks, [s] + ps, base, base)
  {
    hide Up, PutPair;
  }

  lemma LaterRefill(k: KeyBuf, s: Pair, ks: seq<KeyBuf>, ps: seq<Pair>, base: nat, n: nat)
    requires base < n < 0x209 && |ks| == |ps| == 0x209 - base && Refills(ks, ps, base + 1, n)
    ensures Refills([k] + ks, [s] + ps, base, n)
  {
    hide Refilled;
    var j := n - base;
    assert ([k] + ks)[j] == ks[j - 1] && ([k] + ks)[j + 1] == ks[j];
    assert ([s] + ps)[j] == ps[j - 1] && ([s] + ps)[j + 1] == ps[j];
  }

  /**
   * What one application does. The key code: its upper pair is encrypted, then the lower one with the middle word so far.
   * The key buffer: byte-reversed words of the new code, in turn, are added to the eighteen round keys, and then every
   * pair of the buffer is written over by the last pair encrypted once more, from zeros on, with the buffer so far.
   */
  lemma Applied(s: Keys, modulo: nat) returns (middle: Word, ks: seq<KeyBuf>, ps: seq<Pair>)
    requires |s.code| == 3 && 4 <= modulo < 16
    ensures var t := ApplyCode(s, modulo);
      && Up(s.buf, Pair(s.code[1], s.code[2])) == Pair(middle, t.code[2])
      && Up(s.buf, Pair(s.code[0], middle)) == Pair(t.code[0], t.code[1])
      && |ks| == |ps| == 0x20A && ps[0] == Pair(0, 0) && ks[0x209] == t.buf
      && forall i :: 0 <= i < 0x412 ==>
        ks[0][i] == if i < 18 then XorWord(s.buf[i], Bswap(t.code[i % (modulo / 4)])) else s.buf[i]
    ensures forall n :: 0 <= n < 0x209 ==> Refills(ks, ps, 0, n)
  {
    hide Up, Refill, XorWord, Bswap;
    var c := CryptCode(s.buf, s.code);
    middle := Up(s.buf, Pair(s.code[1], s.code[2])).a;
    ks, ps := RefillRun(MixKeys(s.buf, c, modulo / 4), Pair(0, 0), 0);
  }

  /** Which levels apply the code: one for each level up to the third, with the code shifted back before the third. */
  lemma Levels(tables: Tables, id: Word, modulo: nat, device: Device, s0: Keys, s1: Keys, s2: Keys, back: seq<Word>)
    requires 4 <= modulo < 16 && device != TwlDevCard
    requires s0 == Keys(TableOf(tables, device), [id, id / 2, id * 2 % W32])
    requires s1 == ApplyCode(s0, modulo) && s2 == ApplyCode(s1, modulo)
    requires |back| == 3 && back == [s2.code[0], s2.code[1] * 2 % W32, s2.code[2] / 2]
    ensures InitKeys(tables, id, 0, modulo, device).buf == TableOf(tables, device)
    ensures InitKeys(tables, id, 1, modulo, device).buf == s1.buf
    ensures InitKeys(tables, id, 2, modulo, device) == Keys(s2.buf, back)
    ensures forall level: nat :: level >= 3 ==>
      InitKeys(tables, id, level, modulo, device) == ApplyCode(Keys(s2.buf, back), modulo)
  {
    hide ApplyCode;
  }

  class Crypto {
    const tables: Tables
    const keybuf: array<Word>
    const keycode: array<Word>

    constructor (t: Tables)
      ensures tables == t && Valid() && fresh(keybuf) && fresh(keycode)
    {
      tables := t;
      keybuf := new Word[0x412](_ => 0);
      keycode := new Word[3](_ => 0);
    }

    ghost predicate Valid()
    {
      keybuf.Length == 0x412 && keycode.Length == 3 && keybuf != keycode
    }

    ghost function State(): Keys
      requires Valid()
      reads keybuf, keycode
    {
      Keys(keybuf[..], keycode[..])
    }

    /** Encrypts the two words at off. */
    method CryptUp(ptr: array<Word>, off: nat)
      requires Valid() && off + 2 <= ptr.Length && ptr != keybuf
      modifies ptr
      ensures Pair(ptr[off], ptr[off + 1]) == Up(keybuf[..], Pair(old(ptr[off]), old(ptr[off + 1])))
      ensures forall i :: 0 <= i < ptr.Length && i != off && i != off + 1 ==> ptr[i] == old(ptr[i])
    {
      hide Round, XorWord;
      var k: KeyBuf := keybuf[..];
      ghost var s := Pair(ptr[off + 1], ptr[off]);
      var x, y := ptr[off + 1], ptr[off];
      NoRounds(k, s);
      for i := 0 to 16
        invariant Pair(x, y) == UpRounds(k, s, i)
        invariant ptr[..] == old(ptr[..])
      {
        UpStep(k, s, i + 1);
        RoundStep(k, i, x, y);
        var z := XorWord(keybuf[i], x);
        x := LookUp(z);
        x, y := XorWord(y, x), z;
      }
      ptr[off] := XorWord(x, keybuf[0x10]);
      ptr[off + 1] := XorWord(y, keybuf[0x11]);
    }

    /** The four look-ups, one after the other. */
    method LookUp(z: Word) returns (x: Word)
      requires Valid()
      ensures x == Boxes(keybuf[..], z)
    {
      hide XorWord, AddWord;
      x := keybuf[0x12 + ByteOf(z, 3)];
      x := AddWord(keybuf[0x112 + ByteOf(z, 2)], x);
      x := XorWord(keybuf[0x212 + ByteOf(z, 1)], x);
      x := AddWord(keybuf[0x312 + ByteOf(z, 0)], x);
    }

    method CryptDown(ptr: array<Word>, off: nat)
      requires Valid() && off + 2 <= ptr.Length && ptr != keybuf
      modifies ptr
      ensures Pair(ptr[off], ptr[off + 1]) == Down(keybuf[..], Pair(old(ptr[off]), old(ptr[off + 1])))
      ensures forall i :: 0 <= i < ptr.Length && i != off && i != off + 1 ==> ptr[i] == old(ptr[i])
    {
      hide Round, XorWord;
      var k: KeyBuf := keybuf[..];
      ghost var s := Pair(ptr[off + 1], ptr[off]);
      var x, y := ptr[off + 1], ptr[off];
      NoRounds(k, s);
      var i := 0x11;
      while i > 1
        invariant 1 <= i <= 17 && Pair(x, y) == DownRounds(k, s, 17 - i)
        invariant ptr[..] == old(ptr[..])
      {
        DownStep(k, s, 18 - i);
        RoundStep(k, i, x, y);
        var z := XorWord(keybuf[i], x);
        x := LookUp(z);
        x, y := XorWord(y, x), z;
        i := i - 1;
      }
      ptr[off] := XorWord(x, keybuf[1]);
      ptr[off + 1] := XorWord(y, keybuf[0]);
    }

    method ApplyKeycode(modulo: nat)
      requires Valid() && 4 <= modulo < 16
      modifies keybuf, keycode
      ensures State() == ApplyCode(old(State()), modulo)
    {
      hide Up, Refill;
      var period := modulo / 4;
      CryptUp(keycode, 1);
      CryptUp(keycode, 0);
      assert keycode[..] == CryptCode(old(keybuf[..]), old(keycode[..]));
      var scratch := new Word[2](_ => 0);
      MixIn(period);
      FillBuffer(scratch);
    }

    method MixIn(period: nat)
      requires Valid() && 1 <= period <= 3
      modifies keybuf
      ensures keybuf[..] == MixKeys(old(keybuf[..]), keycode[..], period)
    {
      hide XorWord, Bswap;
      for i := 0 to 0x12
        invariant forall j :: 0 <= j < i ==> keybuf[j] == XorWord(old(keybuf[j]), Bswap(keycode[j % period]))
        invariant forall j :: i <= j < 0x412 ==> keybuf[j] == old(keybuf[j])
      {
        keybuf[i] := XorWord(keybuf[i], Bswap(keycode[i % period]));
      }
    }

    /** Each pair of the buffer is written from the scratch pair encrypted once more. */
    method FillBuffer(scratch: array<Word>)
      requires Valid() && scratch.Length == 2 && scratch != keybuf && scratch != keycode
      modifies keybuf, scratch
      ensures keybuf[..] == Refill(old(keybuf[..]), old(Pair(scratch[0], scratch[1])), 0)
    {
      hide Up, Refill;
      ghost var goal := Refill(keybuf[..], Pair(scratch[0], scratch[1]), 0);
      ghost var n: nat := 0;
      var i: nat := 0;
      while i < 0x412
        invariant i == 2 * n && n <= 0x209
        invariant Refill(keybuf[..], Pair(scratch[0], scratch[1]), n) == goal
      {
        ghost var k: KeyBuf, s := keybuf[..], Pair(scratch[0], scratch[1]);
        RefillStep(k, s, n);
        CryptUp(scratch, 0);
        keybuf[i] := scratch[1];
        keybuf[i + 1] := scratch[0];
        assert keybuf[..] == PutPair(k, n, Up(k, s));
        i, n := i + 2, n + 1;
      }
      RefillEnd(keybuf[..], Pair(scratch[0], scratch[1]));
    }

    /** Key set-up: the state it leaves is a function of its arguments, whatever the state before. */
    method InitKeycode(id: Word, level: nat, modulo: nat, device: Device)
      requires Valid() && 4 <= modulo < 16
      modifies keybuf, keycode
      ensures State() == InitKeys(tables, id, level, modulo, device)
    {
      hide ApplyCode;
      LoadTable(TableOf(tables, device));
      if device == TwlDevCard {
        keycode[0], keycode[1], keycode[2] := 0, 0, 0;
        assert keycode[..] == [0, 0, 0];
        return;
      }
      keycode[0], keycode[1], keycode[2] := id, id / 2, id * 2 % W32;
      assert keycode[..] == [id, id / 2, id * 2 % W32];
      if level >= 1 {
        ApplyKeycode(modulo);
      }
      if level >= 2 {
        ApplyKeycode(modulo);
      }
      AdjustCode();
      if level >= 3 {
        ApplyKeycode(modulo);
      }
    }

    method AdjustCode()
      requires Valid()
      modifies keycode
      ensures State() == Adjust(old(State()))
    {
      keycode[1] := keycode[1] * 2 % W32;
      keycode[2] := keycode[2] / 2;
      assert keycode[..] == Adjust(old(State())).code;
    }

    method LoadTable(t: KeyBuf)
      requires Valid()
      modifies keybuf
      ensures keybuf[..] == t
    {
      for i := 0 to 0x412
        invariant forall j :: 0 <= j < i ==> keybuf[j] == t[j]
      {
        keybuf[i] := t[i];
      }
    }
  }

  lemma RoundStep(k: KeyBuf, i: nat, x: Word, y: Word)
    requires i < 18
    ensures var z := XorWord(k[i], x); Round(k, i, Pair(x, y)) == Pair(XorWord(y, Boxes(k, z)), z)
  {
  }

  lemma RefillStep(k: KeyBuf, s: Pair, n: nat)
    requires n < 0x209
    ensures Refill(k, s, n) == Refill(PutPair(k, n, Up(k, s)), Up(k, s), n + 1)
  {
    hide Up, PutPair;
  }

  lemma RefillEnd(k: KeyBuf, s: Pair)
    ensures Refill(k, s, 0x209) == k
  {
  }
}
