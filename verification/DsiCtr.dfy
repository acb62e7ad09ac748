/** The byte-reversed counter mode of the console, over any block function. */
module DsiCtr {
  import opened Bytes
  import U128

  // ---------- the counter ----------

  /** The counter block c further on; counters are big-endian numbers modulo 2^128. */
  ghost function AddCtr(ctr: Block, c: nat): Block {
    Rev(ToLe((BeValue(ctr) + c) % W128))
  }

  lemma IsAddCtr(ctr: Block, c: nat, ctr': Block)
    requires BeValue(ctr') == (BeValue(ctr) + c) % W128
    ensures ctr' == AddCtr(ctr, c)
  {
    ToLeValue(BeValue(ctr'));
    LeValueInjective(Rev(ctr'), ToLe(BeValue(ctr')));
    RevRev(ctr');
  }

  lemma AddCtrValue(ctr: Block, c: nat)
    ensures BeValue(AddCtr(ctr, c)) == (BeValue(ctr) + c) % W128
  {
    var v := (BeValue(ctr) + c) % W128;
    ToLeValue(v);
    RevRev(ToLe(v));
  }

  lemma AddCtrAdd(ctr: Block, a: nat, b: nat)
    ensures AddCtr(AddCtr(ctr, a), b) == AddCtr(ctr, a + b)
  {
    hide LeValue, BeValue, AddCtr;
    AddCtrValue(ctr, a);
    AddCtrValue(AddCtr(ctr, a), b);
    ModAdd(BeValue(ctr) + a, b);
    IsAddCtr(ctr, a + b, AddCtr(AddCtr(ctr, a), b));
  }

  lemma ModAdd(x: int, y: int)
    ensures (x % W128 + y) % W128 == (x + y) % W128
  {
    var q, r := x / W128, x % W128;
    assert x == W128 * q + r;
    var q', r' := (r + y) / W128, (r + y) % W128;
    assert r + y == W128 * q' + r';
    ModIs(x + y, q + q', r');
  }

  lemma ModIs(x: int, q: int, r: int)
    requires x == W128 * q + r && 0 <= r < W128
    ensures x % W128 == r
  {
  }

  lemma AddCtrZero(ctr: Block)
    ensures AddCtr(ctr, 0) == ctr
  {
    hide LeValue;
    BeRange(ctr);
    IsAddCtr(ctr, 0, ctr);
  }

  lemma BeRange(ctr: Block)
    ensures 0 <= BeValue(ctr) < W128
  {
  }

  /** A little-endian counter that was counted up and then reversed is the reversed one counted up. */
  lemma CountersAgree(s: Block, s': Block, c: nat)
    requires LeValue(s') == (LeValue(s) + c) % W128
    ensures Rev(s') == AddCtr(Rev(s), c)
  {
    hide LeValue;
    RevRev(s);
    RevRev(s');
    IsAddCtr(Rev(s), c, Rev(s'));
  }

  /** Counters that differ by less than 2^128 are different. */
  lemma CountersDiffer(ctr: Block, a: nat, b: nat)
    requires a < b < a + W128
    ensures AddCtr(ctr, a) != AddCtr(ctr, b)
  {
    hide LeValue, BeValue;
    AddCtrValue(ctr, a);
    AddCtrValue(ctr, b);
    var v := BeValue(ctr);
    NotMultiple(b - a, (v + b) / W128 - (v + a) / W128);
  }

  lemma NotMultiple(x: int, k: int)
    requires 0 < x < W128
    ensures x != W128 * k
  {
  }

  // ---------- counter mode ----------

  /** x with the key stream that starts at ctr exclusive-ored in. */
  ghost function CtrText(e: BlockFn, ctr: Block, x: seq<Byte>): (r: seq<Byte>)
    ensures |r| == |x|
    decreases |x|
  {
    if |x| <= 16 then XorSeq(Rev(e(ctr))[..|x|], x)
    else XorSeq(Rev(e(ctr)), x[..16]) + CtrText(e, AddCtr(ctr, 1), x[16..])
  }

  /** Counter mode from the same counter is its own inverse. */
  lemma {:induction false} CtrUndo(e: BlockFn, ctr: Block, x: seq<Byte>)
    ensures CtrText(e, ctr, CtrText(e, ctr, x)) == x
    decreases |x|
  {
    hide AddCtr, Rev, Xor;
    if |x| <= 16 {
      XorSeqUndo(x, Rev(e(ctr))[..|x|]);
    } else {
      var h := XorSeq(Rev(e(ctr)), x[..16]);
      var t := CtrText(e, AddCtr(ctr, 1), x[16..]);
      XorSeqUndo(x[..16], Rev(e(ctr)));
      CtrUndo(e, AddCtr(ctr, 1), x[16..]);
      assert (h + t)[..16] == h && (h + t)[16..] == t;
      assert x == x[..16] + x[16..];
    }
  }

  /** A run over whole blocks followed by more is one longer run. */
  lemma {:induction false} CtrAppend(e: BlockFn, ctr: Block, x: seq<Byte>, y: seq<Byte>, n: nat)
    requires |x| == 16 * n
    ensures CtrText(e, ctr, x + y) == CtrText(e, ctr, x) + CtrText(e, AddCtr(ctr, n), y)
    decreases n
  {
    hide AddCtr, Rev, Xor, XorSeq, CtrText;
    if n == 0 {
      AddCtrZero(ctr);
      CtrNone(e, ctr);
      assert x == [] && x + y == y;
    } else {
      CtrFirst(e, ctr, x + y);
      CtrFirst(e, ctr, x);
      assert (x + y)[..16] == x[..16] && (x + y)[16..] == x[16..] + y;
      CtrAppend(e, AddCtr(ctr, 1), x[16..], y, n - 1);
      AddCtrAdd(ctr, 1, n - 1);
    }
  }

  lemma CtrNone(e: BlockFn, ctr: Block)
    ensures CtrText(e, ctr, []) == []
  {
  }

  lemma CtrFirst(e: BlockFn, ctr: Block, x: seq<Byte>)
    requires 16 <= |x|
    ensures CtrText(e, ctr, x) == XorSeq(Rev(e(ctr)), x[..16]) + CtrText(e, AddCtr(ctr, 1), x[16..])
  {
    hide AddCtr, Rev, Xor;
    if |x| == 16 {
      assert x[..16] == x && Rev(e(ctr))[..16] == Rev(e(ctr)) && x[16..] == [];
    }
  }

  /** Byte j of a text in counter mode. */
  lemma {:induction false} CtrByte(e: BlockFn, c: Block, x: seq<Byte>, j: nat)
    requires j < |x|
    ensures CtrText(e, c, x)[j] == Xor(e(AddCtr(c, j / 16))[15 - j % 16], x[j])
    decreases j
  {
    hide Xor, AddCtr, Rev, XorSeq, CtrText;
    if j < 16 {
      AddCtrZero(c);
      FirstByte(e, c, x, j);
    } else {
      CtrFirst(e, c, x);
      AddCtrAdd(c, 1, j / 16 - 1);
      CtrByte(e, AddCtr(c, 1), x[16..], j - 16);
    }
  }

  lemma FirstByte(e: BlockFn, c: Block, x: seq<Byte>, j: nat)
    requires j < 16 && j < |x|
    ensures CtrText(e, c, x)[j] == Xor(e(c)[15 - j], x[j])
  {
    hide Xor, AddCtr, Rev;
    RevByte(e(c), j);
  }

  lemma RevByte(y: Block, i: nat)
    requires i < 16
    ensures Rev(y)[i] == y[15 - i]
  {
  }

  // ---------- the word-wise increment ----------

  /** x at the weight of word i of a big-endian counter. */
  ghost function AtWord(x: int, i: int): int {
    if i >= 3 then x
    else if i == 2 then 0x1_0000_0000 * x
    else if i == 1 then 0x1_0000_0000_0000_0000 * x
    else if i == 0 then 0x1_0000_0000_0000_0000_0000_0000 * x
    else W128 * x
  }

  ghost function FromWord(w: seq<int>, i: int): int
    requires |w| == 4 && 0 <= i
    decreases 4 - i
  {
    if i >= 4 then 0 else AtWord(w[i], i) + FromWord(w, i + 1)
  }

  lemma FromWordSame(w: seq<int>, w': seq<int>, i: int)
    requires |w| == |w'| == 4 && 0 <= i && forall j :: i <= j < 4 ==> w[j] == w'[j]
    ensures FromWord(w, i) == FromWord(w', i)
    decreases 4 - i
  {
  }

  lemma WordStep(w0: seq<int>, w: seq<int>, w': seq<int>, i: int, carry: int, carry': int, c: int)
    requires |w0| == |w| == |w'| == 4 && 0 <= i < 4
    requires FromWord(w, i + 1) + AtWord(carry, i) == FromWord(w0, i + 1) + c
    requires w'[i] + W32 * carry' == w0[i] + carry && forall j :: i < j < 4 ==> w'[j] == w[j]
    ensures FromWord(w', i) + AtWord(carry', i - 1) == FromWord(w0, i) + c
  {
    FromWordSame(w, w', i + 1);
    hide FromWord;
    assert AtWord(carry', i - 1) == AtWord(W32 * carry', i);
    assert FromWord(w', i) == AtWord(w'[i], i) + FromWord(w', i + 1) by { FromWordStep(w', i); }
    assert FromWord(w0, i) == AtWord(w0[i], i) + FromWord(w0, i + 1) by { FromWordStep(w0, i); }
  }

  lemma FromWordStep(w: seq<int>, i: int)
    requires |w| == 4 && 0 <= i < 4
    ensures FromWord(w, i) == AtWord(w[i], i) + FromWord(w, i + 1)
  {
  }

  /** A block's number from its big-endian words. */
  lemma BeWords(s: Block, w: seq<int>)
    requires |w| == 4
    requires forall i :: 0 <= i < 4 ==> w[i] == WordBe(s, 4 * i)
    ensures BeValue(s) == FromWord(w, 0)
  {
    hide LeValue;
    LeWords(Rev(s));
    assert w[0] == WordLe(Rev(s), 12) && w[1] == WordLe(Rev(s), 8) && w[2] == WordLe(Rev(s), 4);
    assert w[3] == WordLe(Rev(s), 0);
    assert FromWord(w, 3) == w[3] + FromWord(w, 4);
  }

  ghost function WordBe(s: seq<Byte>, i: nat): int
    requires i + 4 <= |s|
  {
    WordOf(s[i], s[i + 1], s[i + 2], s[i + 3])
  }

  /** Four bytes as a word, most significant first. */
  function WordOf(b0: Byte, b1: Byte, b2: Byte, b3: Byte): (w: int)
    ensures 0 <= w < W32
  {
    var x0: int, x1: int, x2: int, x3: int := b0, b1, b2, b3;
    0x100_0000 * x0 + 0x1_0000 * x1 + 0x100 * x2 + x3
  }

  lemma WordSplit(w: int)
    requires 0 <= w < W32
    ensures WordOf(w / 0x100_0000 % 256, w / 0x1_0000 % 256, w / 0x100 % 256, w % 256) == w
  {
    var a := w / 0x100;
    var b := a / 0x100;
    assert w / 0x1_0000 == b && w / 0x100_0000 == b / 0x100;
  }

  // ---------- the context ----------

  /** The number of blocks that a length takes. */
  function Blocks(len: nat): nat {
    (len + 15) / 16
  }

  lemma InsideBlocks(len: nat, n: nat)
    requires 16 * n < len
    ensures n < Blocks(len)
  {
  }

  lemma BlocksDone(len: nat, n: nat)
    requires 16 * n >= len && n <= Blocks(len)
    ensures n == Blocks(len)
  {
  }

  class DsiContext {
    const cipher: Block -> BlockFn
    var aes: BlockFn
    var ctr: Block
    var mac: Block
    var s0: Block
    var maclen: int

    constructor (keySchedule: Block -> BlockFn)
      ensures cipher == keySchedule
    {
      cipher := keySchedule;
      aes := keySchedule([0, 0, 0, 0, 0, 0, 0, 0, 0, 0, 0, 0, 0, 0, 0, 0]);
    }

    /** The key is reversed before the key schedule. */
    method SetKey(key: Block)
      modifies this`aes
      ensures aes == cipher(Rev(key))
    {
      var swapped := new Byte[16](_ => 0);
      var given := new Byte[16](i requires 0 <= i < 16 => key[i]);
      U128.Swap(swapped, given);
      assert given[..] == key;
      aes := cipher(swapped[..]);
    }

    /** The counter is stored reversed. */
    method SetCtr(from: Block)
      modifies this`ctr
      ensures ctr == Rev(from)
    {
      for i := 0 to 16
        invariant forall j :: 0 <= j < i ==> ctr[j] == from[15 - j]
      {
        ctr := ctr[i := from[15 - i]];
      }
    }

    /** Counts up by a word, over four big-endian words with a carry. */
    method CountOn(amount: nat)
      requires amount < W32
      modifies this`ctr
      ensures ctr == AddCtr(old(ctr), amount)
    {
      hide LeValue, FromWord, AtWord, WordOf;
      var counter := new int[4](i requires 0 <= i < 4 reads this =>
        WordOf(ctr[4 * i], ctr[4 * i + 1], ctr[4 * i + 2], ctr[4 * i + 3]));
      ghost var w0 := counter[..];
      BeWords(ctr, w0);
      var carry := CountUp(counter, amount);
      ghost var w := counter[..];
      for i := 0 to 4
        invariant forall j :: 0 <= j < i ==> WordOf(ctr[4 * j], ctr[4 * j + 1], ctr[4 * j + 2], ctr[4 * j + 3]) == w[j]
        invariant counter[..] == w && forall j :: 0 <= j < 4 ==> 0 <= w[j] < W32
      {
        WordSplit(w[i]);
        var s: seq<Byte> := ctr;
        ctr := s[4 * i := counter[i] / 0x100_0000 % 256][4 * i + 1 := counter[i] / 0x1_0000 % 256]
                [4 * i + 2 := counter[i] / 0x100 % 256][4 * i + 3 := counter[i] % 256];
      }
      BeWords(ctr, w);
      CarryOff(BeValue(old(ctr)) + amount, BeValue(ctr), carry);
      IsAddCtr(old(ctr), amount, ctr);
    }

    /** One block: the key stream is reversed, and without an input it is the output itself. */
    method CryptBlock(inp: array?<Byte>, inOff: nat, out: array<Byte>, outOff: nat)
      requires outOff + 16 <= out.Length
      requires inp != null ==> inOff + 16 <= inp.Length && (inp != out || inOff == outOff)
      modifies this`ctr, out
      ensures ctr == AddCtr(old(ctr), 1)
      ensures out[..] == Splice(old(out[..]), outOff,
        if inp == null then Rev(aes(old(ctr))) else XorSeq(Rev(aes(old(ctr))), old(inp[inOff..inOff + 16])))
    {
      hide XorSeq, AddCtr, Splice, Rev;
      var stream := aes(ctr);
      if inp != null {
        XorReversed(stream, inp, inOff, out, outOff);
      } else {
        PutReversed(stream, out, outOff);
      }
      CountOn(1);
    }

    /** A run of blocks; the length is rounded up to whole blocks. The byte count is a 32-bit word. */
    method Crypt(inp: array<Byte>, inOff: nat, out: array<Byte>, outOff: nat, len: nat)
      requires len <= 0xFFFF_FFF0
      requires inOff + 16 * Blocks(len) <= inp.Length && outOff + 16 * Blocks(len) <= out.Length
      requires inp != out || inOff == outOff
      modifies this`ctr, out
      ensures ctr == AddCtr(old(ctr), Blocks(len))
      ensures out[..] == Splice(old(out[..]), outOff,
        CtrText(aes, old(ctr), old(inp[inOff..inOff + 16 * Blocks(len)])))
    {
      hide CtrText, AddCtr, XorSeq, Splice, Rev, Blocks, CtrMidway;
      ghost var x, was, c := inp[inOff..inOff + 16 * Blocks(len)], out[..], ctr;
      CtrMidwayStart(aes, c, x, was, outOff, inp[..], inOff);
      var i: nat := 0;
      ghost var n: nat, blocks: nat := 0, Blocks(len);
      while i < len
        invariant i == 16 * n && n <= blocks
        invariant ctr == AddCtr(c, n)
        invariant CtrMidway(aes, c, x, was, out[..], outOff, inp[..], inOff, n)
      {
        InsideBlocks(len, n);
        CtrMidwayStep(aes, c, x, was, out[..], outOff, inp[..], inOff, n);
        CryptBlock(inp, inOff + i, out, outOff + i);
        i, n := (i + 16) % W32, n + 1;
      }
      BlocksDone(len, n);
      CtrMidwayEnd(aes, c, x, was, out[..], outOff, inp[..], inOff, n);
    }
  }

  /** The reversed key stream over the input. */
  method XorReversed(stream: Block, inp: array<Byte>, inOff: nat, out: array<Byte>, outOff: nat)
    requires outOff + 16 <= out.Length && inOff + 16 <= inp.Length && (inp != out || inOff == outOff)
    modifies out
    ensures out[..] == Splice(old(out[..]), outOff, XorSeq(Rev(stream), old(inp[inOff..inOff + 16])))
  {
    hide Xor;
    ghost var was, rev, x := out[..], Rev(stream), inp[inOff..inOff + 16];
    for i := 0 to 16
      invariant forall j :: 0 <= j < out.Length && !(outOff <= j < outOff + i) ==> out[j] == was[j]
      invariant forall j :: outOff <= j < outOff + i ==> out[j] == Xor(rev[j - outOff], x[j - outOff])
      invariant forall j :: inOff + i <= j < inOff + 16 ==> inp[j] == x[j - inOff]
    {
      out[outOff + i] := Xor(stream[15 - i], inp[inOff + i]);
    }
    assert out[..] == Splice(was, outOff, XorSeq(rev, x));
  }

  /** The reversed key stream itself. */
  method PutReversed(stream: Block, out: array<Byte>, outOff: nat)
    requires outOff + 16 <= out.Length
    modifies out
    ensures out[..] == Splice(old(out[..]), outOff, Rev(stream))
  {
    ghost var was, rev := out[..], Rev(stream);
    for i := 0 to 16
      invariant forall j :: 0 <= j < out.Length && !(outOff <= j < outOff + i) ==> out[j] == was[j]
      invariant forall j :: outOff <= j < outOff + i ==> out[j] == rev[j - outOff]
    {
      out[outOff + i] := stream[15 - i];
    }
    assert out[..] == Splice(was, outOff, rev);
  }

  /** The loop over the bytes ends exactly for lengths up to 0xFFFFFFF0: behind that its counter wraps around below them. */
  lemma RunEndsExactlyWhen(len: nat)
    requires len < W32
    ensures (exists n: nat :: 16 * n % W32 >= len) <==> len <= 0xFFFF_FFF0
  {
    if len <= 0xFFFF_FFF0 {
      assert 16 * 0xFFF_FFFF % W32 >= len;
    } else {
      forall n: nat
        ensures 16 * n % W32 < len
      {
        WrappedCount(n);
      }
    }
  }

  lemma WrappedCount(n: nat)
    ensures 16 * n % W32 <= 0xFFFF_FFF0
  {
    var k := n / 0x1000_0000;
    assert 16 * n == W32 * k + 16 * (n - 0x1000_0000 * k);
  }

  /** The state in the middle of a run: n blocks of x are done, and what is left of x can still be read. */
  ghost predicate CtrMidway(e: BlockFn, c: Block, x: seq<Byte>, was: seq<Byte>, now: seq<Byte>, outOff: nat,
                            src: seq<Byte>, inOff: nat, n: nat) {
    16 * n <= |x| && Midway(x, was, now, outOff, src, inOff, 16 * n, CtrText(e, c, x[..16 * n]))
  }

  lemma CtrMidwayStart(e: BlockFn, c: Block, x: seq<Byte>, was: seq<Byte>, outOff: nat, src: seq<Byte>, inOff: nat)
    requires outOff + |x| <= |was| && inOff + |x| <= |src| && x == src[inOff..inOff + |x|]
    ensures CtrMidway(e, c, x, was, was, outOff, src, inOff, 0) && AddCtr(c, 0) == c
  {
    hide Midway;
    AddCtrZero(c);
    MidwayStart(x, was, outOff, src, inOff);
    assert CtrText(e, c, x[..0]) == [];
  }

  /** One more block, written where it was read or to another buffer. */
  lemma CtrMidwayStep(e: BlockFn, c: Block, x: seq<Byte>, was: seq<Byte>, now: seq<Byte>, outOff: nat,
                      src: seq<Byte>, inOff: nat, n: nat)
    requires CtrMidway(e, c, x, was, now, outOff, src, inOff, n) && 16 * n + 16 <= |x|
    ensures src[inOff + 16 * n..inOff + 16 * n + 16] == x[16 * n..16 * n + 16]
    ensures AddCtr(AddCtr(c, n), 1) == AddCtr(c, n + 1)
    ensures var now' := Splice(now, outOff + 16 * n, XorSeq(Rev(e(AddCtr(c, n))), x[16 * n..16 * n + 16]));
      && CtrMidway(e, c, x, was, now', outOff, src, inOff, n + 1)
      && (src == now && inOff == outOff ==> CtrMidway(e, c, x, was, now', outOff, now', inOff, n + 1))
  {
    hide CtrText, XorSeq, Splice, Rev, AddCtr, Midway;
    var b := XorSeq(Rev(e(AddCtr(c, n))), x[16 * n..16 * n + 16]);
    MidwayStep(x, was, now, outOff, src, inOff, 16 * n, CtrText(e, c, x[..16 * n]), b);
    OneMore(e, c, x, n);
    AddCtrAdd(c, n, 1);
  }

  lemma CtrMidwayEnd(e: BlockFn, c: Block, x: seq<Byte>, was: seq<Byte>, now: seq<Byte>, outOff: nat,
                     src: seq<Byte>, inOff: nat, n: nat)
    requires CtrMidway(e, c, x, was, now, outOff, src, inOff, n) && 16 * n == |x|
    ensures now == Splice(was, outOff, CtrText(e, c, x))
  {
    assert x[..16 * n] == x;
  }

  /** The text so far and one more block. */
  lemma OneMore(e: BlockFn, c: Block, x: seq<Byte>, n: nat)
    requires 16 * n + 16 <= |x|
    ensures CtrText(e, c, x[..16 * n + 16])
      == CtrText(e, c, x[..16 * n]) + XorSeq(Rev(e(AddCtr(c, n))), x[16 * n..16 * n + 16])
  {
    hide AddCtr, Rev, XorSeq;
    var a, b := x[..16 * n], x[16 * n..16 * n + 16];
    assert x[..16 * n + 16] == a + b;
    CtrAppend(e, c, a, b, n);
    CtrFirst(e, AddCtr(c, n), b);
    assert b[..16] == b && b[16..] == [];
    assert CtrText(e, AddCtr(AddCtr(c, n), 1), []) == [];
  }

  /** The loop over the words, from the last to the first. */
  method CountUp(counter: array<int>, amount: nat) returns (carry: int)
    requires counter.Length == 4 && amount < W32 && forall i :: 0 <= i < 4 ==> 0 <= counter[i] < W32
    modifies counter
    ensures forall i :: 0 <= i < 4 ==> 0 <= counter[i] < W32
    ensures 0 <= carry <= 1
    ensures FromWord(counter[..], 0) + W128 * carry == FromWord(old(counter[..]), 0) + amount
  {
    ghost var w0 := counter[..];
    assert FromWord(w0, 4) == 0 && AtWord(amount, 3) == amount;
    hide FromWord, AtWord, WrapAdd;
    carry := amount;
    var i := 3;
    while i >= 0
      invariant -1 <= i <= 3
      invariant 0 <= carry < W32 && (i < 3 ==> carry <= 1)
      invariant forall j :: 0 <= j < 4 ==> 0 <= counter[j] < W32
      invariant forall j :: 0 <= j <= i ==> counter[j] == w0[j]
      invariant FromWord(counter[..], i + 1) + AtWord(carry, i) == FromWord(w0, i + 1) + amount
    {
      ghost var w, c := counter[..], carry;
      carry := CountWord(counter, i, carry);
      WordStep(w0, w, counter[..], i, c, carry, amount);
      i := i - 1;
    }
    LastWeight(carry);
  }

  /** One word of the counter; a sum below the old word means a carry. */
  method CountWord(counter: array<int>, i: nat, carry: int) returns (c: int)
    requires counter.Length == 4 && i < 4 && 0 <= counter[i] < W32 && 0 <= carry < W32
    modifies counter
    ensures 0 <= c <= 1 && 0 <= counter[i] < W32 && counter[i] + W32 * c == old(counter[i]) + carry
    ensures forall j :: 0 <= j < 4 && j != i ==> counter[j] == old(counter[j])
  {
    hide WrapAdd;
    var sum := WrapAdd(counter[i], carry);
    c := if sum < counter[i] then 1 else 0;
    counter[i] := sum;
  }

  /** A wrapped sum below its first summand has lost exactly 2^32. */
  function WrapAdd(a: int, b: int): (sum: int)
    requires 0 <= a < W32 && 0 <= b < W32
    ensures 0 <= sum < W32 && sum + (if sum < a then W32 else 0) == a + b
  {
    (a + b) % W32
  }

  lemma LastWeight(x: int)
    ensures AtWord(x, -1) == W128 * x
  {
  }

  lemma CarryOff(x: int, y: int, carry: int)
    requires x == y + W128 * carry && 0 <= y < W128
    ensures y == x % W128
  {
  }
}
