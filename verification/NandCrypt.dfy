/** Console storage encryption: NAND blocks, the second boot stage and the modcrypt areas of a title. */
module NandCrypt {
  import opened Bytes
  import opened DsiCtr
  import U128

  /** One block at a little-endian counter, the way the storage code drives the context. */
  method CryptAt(ctx: DsiContext, ctr: array<Byte>, inp: array<Byte>, inOff: nat, out: array<Byte>, outOff: nat)
    requires ctr.Length == 16 && ctr != out && ctr != inp
    requires inOff + 16 <= inp.Length && outOff + 16 <= out.Length && (inp != out || inOff == outOff)
    modifies ctx`ctr, out
    ensures out[..] == Splice(old(out[..]), outOff, CtrText(ctx.aes, Rev(ctr[..]), old(inp[inOff..inOff + 16])))
  {
    hide CtrText, AddCtr, Splice;
    ctx.SetCtr(ctr[..]);
    assert 16 * Blocks(16) == 16;
    ctx.Crypt(inp, inOff, out, outOff, 16);
  }

  class Nand {
    const ctx: DsiContext
    const iv: array<Byte>

    constructor (context: DsiContext, start: array<Byte>)
      ensures ctx == context && iv == start
    {
      ctx, iv := context, start;
    }

    /** Encrypts or decrypts one block at a block offset. */
    method Crypt1(out: array<Byte>, outOff: nat, inp: array<Byte>, inOff: nat, offset: nat)
      requires iv.Length == 16 && offset < W32 && iv != out
      requires inOff + 16 <= inp.Length && outOff + 16 <= out.Length && (inp != out || inOff == outOff)
      modifies ctx`ctr, out
      ensures out[..] == Splice(old(out[..]), outOff,
        CtrText(ctx.aes, AddCtr(Rev(iv[..]), offset), old(inp[inOff..inOff + 16])))
    {
      hide CtrText, AddCtr, Splice, LeValue, Rev;
      var ctr := new Byte[16](_ => 0);
      U128.CopyBlock(ctr, iv);
      U128.Add32(ctr, offset);
      CountersAgree(iv[..], ctr[..], offset);
      CryptAt(ctx, ctr, inp, inOff, out, outOff);
    }

    /** Encrypts or decrypts count blocks from a block offset on. */
    method Crypt(out: array<Byte>, outOff: nat, inp: array<Byte>, inOff: nat, offset: nat, count: nat)
      requires iv.Length == 16 && offset < W32 && iv != out
      requires inOff + 16 * count <= inp.Length && outOff + 16 * count <= out.Length && (inp != out || inOff == outOff)
      modifies ctx`ctr, out
      ensures out[..] == Splice(old(out[..]), outOff,
        CtrText(ctx.aes, AddCtr(Rev(iv[..]), offset), old(inp[inOff..inOff + 16 * count])))
    {
      hide CtrText, AddCtr, Splice, LeValue, Rev, Remains;
      var ctr := new Byte[16](_ => 0);
      U128.CopyBlock(ctr, iv);
      U128.Add32(ctr, offset);
      CountersAgree(iv[..], ctr[..], offset);
      ghost var _ := CryptRun(ctx, ctr, out, outOff, inp, inOff, count);
    }
  }

  /** The loop over blocks with a little-endian counter that is counted up after each. */
  method CryptRun(ctx: DsiContext, ctr: array<Byte>, out: array<Byte>, outOff: nat,
                  inp: array<Byte>, inOff: nat, count: nat)
    returns (ghost c: Block)
    requires ctr.Length == 16 && ctr != out && ctr != inp
    requires inOff + 16 * count <= inp.Length && outOff + 16 * count <= out.Length && (inp != out || inOff == outOff)
    modifies ctx`ctr, out, ctr
    ensures c == Rev(old(ctr[..]))
    ensures Rev(ctr[..]) == AddCtr(c, count)
    ensures out[..] == Splice(old(out[..]), outOff, CtrText(ctx.aes, c, old(inp[inOff..inOff + 16 * count])))
  {
    hide CtrText, AddCtr, Splice, LeValue, Rev, XorSeq, CtrMidway;
    c := Rev(ctr[..]);
    ghost var e, x, was := ctx.aes, inp[inOff..inOff + 16 * count], out[..];
    CtrMidwayStart(e, c, x, was, outOff, inp[..], inOff);
    for i := 0 to count
      invariant Rev(ctr[..]) == AddCtr(c, i)
      invariant CtrMidway(e, c, x, was, out[..], outOff, inp[..], inOff, i)
    {
      CtrMidwayStep(e, c, x, was, out[..], outOff, inp[..], inOff, i);
      OneBlock(e, AddCtr(c, i), x[16 * i..16 * i + 16]);
      CryptAt(ctx, ctr, inp, inOff + 16 * i, out, outOff + 16 * i);
      ghost var low := ctr[..];
      U128.Add32(ctr, 1);
      CountersAgree(low, ctr[..], 1);
    }
    CtrMidwayEnd(e, c, x, was, out[..], outOff, inp[..], inOff, count);
  }

  lemma OneBlock(e: BlockFn, ctr: Block, x: seq<Byte>)
    requires |x| == 16
    ensures CtrText(e, ctr, x) == XorSeq(Rev(e(ctr)), x)
  {
    hide AddCtr, Rev, XorSeq;
    CtrFirst(e, ctr, x);
    CtrNone(e, AddCtr(ctr, 1));
    assert x[..16] == x && x[16..] == [];
  }

  /** Block i of a run from an offset is the single block at offset + i. */
  lemma RunIsSingleBlocks(e: BlockFn, iv: Block, offset: nat, x: seq<Byte>, i: nat)
    requires 16 * i + 16 <= |x|
    ensures CtrText(e, AddCtr(Rev(iv), offset), x)[16 * i..16 * i + 16]
      == CtrText(e, AddCtr(Rev(iv), offset + i), x[16 * i..16 * i + 16])
  {
    hide CtrText, AddCtr, Rev;
    var c, k := AddCtr(Rev(iv), offset), 16 * i;
    var a, b, r := x[..k], x[k..k + 16], x[k + 16..];
    ThreeParts(x, k);
    TwoAppends(e, c, a, b, r, i);
    AddCtrAdd(Rev(iv), offset, i);
    Middle(CtrText(e, c, x), CtrText(e, c, a), CtrText(e, AddCtr(c, i), b), CtrText(e, AddCtr(AddCtr(c, i), 1), r), k);
  }

  lemma TwoAppends(e: BlockFn, c: Block, a: seq<Byte>, b: seq<Byte>, r: seq<Byte>, i: nat)
    requires |a| == 16 * i && |b| == 16
    ensures CtrText(e, c, a + (b + r))
      == CtrText(e, c, a) + (CtrText(e, AddCtr(c, i), b) + CtrText(e, AddCtr(AddCtr(c, i), 1), r))
  {
    hide CtrText, AddCtr;
    CtrAppend(e, c, a, b + r, i);
    CtrAppend(e, AddCtr(c, i), b, r, 1);
  }

  lemma ThreeParts(x: seq<Byte>, i: nat)
    requires i + 16 <= |x|
    ensures x == x[..i] + (x[i..i + 16] + x[i + 16..])
  {
  }

  lemma Middle(t: seq<Byte>, a: seq<Byte>, b: seq<Byte>, c: seq<Byte>, k: nat)
    requires t == a + (b + c) && |a| == k && |b| == 16
    ensures t[k..k + 16] == b
  {
  }

  /** The single block uses the counter of the run exactly while its 32-bit offset has not wrapped. */
  lemma OffsetsAgreeExactlyBelow(iv: Block, offset: nat, i: nat)
    requires offset < W32 && i < W32
    ensures AddCtr(Rev(iv), (offset + i) % W32) == AddCtr(Rev(iv), offset + i) <==> offset + i < W32
  {
    hide AddCtr, Rev;
    if offset + i >= W32 {
      assert (offset + i) % W32 == offset + i - W32;
      CountersDiffer(Rev(iv), (offset + i) % W32, offset + i);
    }
  }

  /** The second boot stage: the counter belongs to the object and goes on from call to call. */
  class Boot2 {
    const ctx: DsiContext
    const ctr: array<Byte>

    constructor (context: DsiContext)
      ensures ctx == context && ctr.Length == 16 && fresh(ctr)
    {
      ctx := context;
      ctr := new Byte[16](_ => 0);
    }

    /** The counter made from the size: the size, its negative, its complement and zero, as four words. */
    method SetCtr(size: nat)
      requires ctr.Length == 16 && size < W32
      modifies ctr
      ensures WordLe(ctr[..], 0) == size && WordLe(ctr[..], 4) == (W32 - size) % W32
      ensures WordLe(ctr[..], 8) == W32 - 1 - size && WordLe(ctr[..], 12) == 0
    {
      hide U128.Down8, WordLe;
      var neg: nat, com: nat := (W32 - size) % W32, W32 - 1 - size;
      for i := 0 to 4
        invariant forall j :: 0 <= j < i ==> ctr[j] == U128.Down8(size, j) % 256
        invariant forall j :: 4 <= j < 4 + i ==> ctr[j] == U128.Down8(neg, j - 4) % 256
        invariant forall j :: 8 <= j < 8 + i ==> ctr[j] == U128.Down8(com, j - 8) % 256
        invariant forall j :: 12 <= j < 12 + i ==> ctr[j] == 0
      {
        ctr[i] := U128.Down8(size, i) % 256;
        ctr[i + 4] := U128.Down8(neg, i) % 256;
        ctr[i + 8] := U128.Down8(com, i) % 256;
        ctr[i + 12] := 0;
      }
      CounterWords(size, neg, com, ctr[..]);
    }

    method Crypt(out: array<Byte>, outOff: nat, inp: array<Byte>, inOff: nat, count: nat)
      requires ctr.Length == 16 && ctr != out && ctr != inp
      requires inOff + 16 * count <= inp.Length && outOff + 16 * count <= out.Length && (inp != out || inOff == outOff)
      modifies ctx`ctr, out, ctr
      ensures Rev(ctr[..]) == AddCtr(Rev(old(ctr[..])), count)
      ensures out[..] == Splice(old(out[..]), outOff,
        CtrText(ctx.aes, Rev(old(ctr[..])), old(inp[inOff..inOff + 16 * count])))
    {
      hide CtrText, AddCtr, Splice, Rev;
      ghost var _ := CryptRun(ctx, ctr, out, outOff, inp, inOff, count);
    }
  }

  /** Two calls one behind the other leave the buffer and the kept counter as one call over both parts does. */
  method CryptTwice(b: Boot2, out: array<Byte>, outOff: nat, inp: array<Byte>, inOff: nat, m: nat, n: nat)
    requires b.ctr.Length == 16 && b.ctr != out && b.ctr != inp
    requires inOff + 16 * (m + n) <= inp.Length && outOff + 16 * (m + n) <= out.Length
    requires inp != out || inOff == outOff
    modifies b.ctx`ctr, out, b.ctr
    ensures Rev(b.ctr[..]) == AddCtr(Rev(old(b.ctr[..])), m + n)
    ensures out[..] == Splice(old(out[..]), outOff,
      CtrText(b.ctx.aes, Rev(old(b.ctr[..])), old(inp[inOff..inOff + 16 * (m + n)])))
  {
    hide CtrText, AddCtr, Splice, Rev;
    ghost var e, c, was, x := b.ctx.aes, Rev(b.ctr[..]), out[..], inp[inOff..inOff + 16 * (m + n)];
    Halves(inp[..], inOff, 16 * m, 16 * n, x);
    b.Crypt(out, outOff, inp, inOff, m);
    if inp == out {
      SpliceBehind(was, outOff, CtrText(e, c, x[..16 * m]), outOff + 16 * m, 16 * n);
    }
    b.Crypt(out, outOff + 16 * m, inp, inOff + 16 * m, n);
    JoinRuns(e, c, x, was, outOff, m, n);
  }

  lemma Halves(s: seq<Byte>, off: nat, i: nat, j: nat, x: seq<Byte>)
    requires off + i + j <= |s| && x == s[off..off + (i + j)]
    ensures s[off..off + i] == x[..i] && s[off + i..off + i + j] == x[i..]
  {
    SubSlice(s, off, i + j, 0, i);
    SubSlice(s, off, i + j, i, i + j);
  }

  lemma JoinRuns(e: BlockFn, c: Block, x: seq<Byte>, was: seq<Byte>, off: nat, m: nat, n: nat)
    requires |x| == 16 * (m + n) && off + |x| <= |was|
    ensures AddCtr(AddCtr(c, m), n) == AddCtr(c, m + n)
    ensures Splice(Splice(was, off, CtrText(e, c, x[..16 * m])), off + 16 * m, CtrText(e, AddCtr(c, m), x[16 * m..]))
      == Splice(was, off, CtrText(e, c, x))
  {
    hide CtrText, AddCtr, Splice;
    AddCtrAdd(c, m, n);
    assert x == x[..16 * m] + x[16 * m..];
    CtrAppend(e, c, x[..16 * m], x[16 * m..], m);
    SpliceTwice(was, off, CtrText(e, c, x[..16 * m]), CtrText(e, AddCtr(c, m), x[16 * m..]));
  }

  lemma SpliceBehind(s: seq<Byte>, off: nat, t: seq<Byte>, i: nat, k: nat)
    requires off + |t| <= i && i + k <= |s|
    ensures Splice(s, off, t)[i..i + k] == s[i..i + k]
  {
  }

  lemma ZeroWord(s: seq<Byte>, i: nat)
    requires i + 4 <= |s| && forall j :: i <= j < i + 4 ==> s[j] == 0
    ensures WordLe(s, i) == 0
  {
  }

  lemma CounterWords(size: nat, neg: nat, com: nat, s: seq<Byte>)
    requires size < W32 && neg < W32 && com < W32 && |s| == 16
    requires forall j :: 0 <= j < 4 ==> s[j] == U128.Down8(size, j) % 256
    requires forall j :: 4 <= j < 8 ==> s[j] == U128.Down8(neg, j - 4) % 256
    requires forall j :: 8 <= j < 12 ==> s[j] == U128.Down8(com, j - 8) % 256
    requires forall j :: 12 <= j < 16 ==> s[j] == 0
    ensures WordLe(s, 0) == size && WordLe(s, 4) == neg && WordLe(s, 8) == com && WordLe(s, 12) == 0
  {
    hide U128.Down8, WordLe;
    WordBytes(size, s, 0);
    WordBytes(neg, s, 4);
    WordBytes(com, s, 8);
    ZeroWord(s, 12);
  }

  lemma WordBytes(v: nat, s: seq<Byte>, i: nat)
    requires v < W32 && i + 4 <= |s|
    requires forall j :: i <= j < i + 4 ==> s[j] == U128.Down8(v, j - i) % 256
    ensures WordLe(s, i) == v
  {
    var a := v / 256;
    var b := a / 256;
    var c := b / 256;
    assert U128.Down8(v, 1) == U128.Down8(a, 0) == a;
    assert U128.Down8(v, 2) == U128.Down8(a, 1) == U128.Down8(b, 0) == b;
    assert U128.Down8(v, 3) == U128.Down8(a, 2) == U128.Down8(b, 1) == U128.Down8(c, 0) == c;
    assert s[i] == U128.Down8(v, 0) % 256 && s[i + 1] == a % 256 && s[i + 2] == b % 256 && s[i + 3] == c % 256;
  }

  /** Decrypts a modcrypt area in place, whole blocks only, through a scratch block. */
  method DecryptModcryptArea(ctx: DsiContext, buffer: array<Byte>, off: nat, size: nat)
    requires off + size <= buffer.Length
    modifies ctx`ctr, buffer
    ensures off + 16 * (size / 16) <= buffer.Length
    ensures ctx.ctr == AddCtr(old(ctx.ctr), size / 16)
    ensures buffer[..] == Splice(old(buffer[..]), off,
      CtrText(ctx.aes, old(ctx.ctr), old(buffer[off..off + 16 * (size / 16)])))
  {
    hide CtrText, AddCtr, Splice, Rev, XorSeq, CtrMidway;
    var len: nat, at: nat := size / 16, off;
    WholeBlocks(size);
    ghost var n: nat, blocks: nat := 0, len;
    ghost var e, x, was, c := ctx.aes, buffer[off..off + 16 * len], buffer[..], ctx.ctr;
    CtrMidwayStart(e, c, x, was, off, was, off);
    var block := new Byte[16](_ => 0);
    while len > 0
      invariant n + len == blocks && at == off + 16 * n && fresh(block)
      invariant ctx.ctr == AddCtr(c, n)
      invariant CtrMidway(e, c, x, was, buffer[..], off, buffer[..], off, n)
    {
      CtrMidwayStep(e, c, x, was, buffer[..], off, buffer[..], off, n);
      DecryptOne(ctx, buffer, at, block);
      n, at, len := n + 1, at + 16, len - 1;
    }
    CtrMidwayEnd(e, c, x, was, buffer[..], off, buffer[..], off, n);
  }

  /** One block: cleared scratch block, counter mode into it, and back into the buffer. */
  method DecryptOne(ctx: DsiContext, buffer: array<Byte>, at: nat, block: array<Byte>)
    requires block.Length == 16 && block != buffer && at + 16 <= buffer.Length
    modifies ctx`ctr, buffer, block
    ensures ctx.ctr == AddCtr(old(ctx.ctr), 1)
    ensures buffer[..] == Splice(old(buffer[..]), at, XorSeq(Rev(ctx.aes(old(ctx.ctr))), old(buffer[at..at + 16])))
  {
    hide AddCtr, Splice, Rev, XorSeq;
    for i := 0 to 16
      invariant buffer[..] == old(buffer[..]) && ctx.ctr == old(ctx.ctr)
    {
      block[i] := 0;
    }
    ghost var cleared := block[..];
    ctx.CryptBlock(buffer, at, block, 0);
    SpliceWhole(cleared, XorSeq(Rev(ctx.aes(old(ctx.ctr))), old(buffer[at..at + 16])));
    PutBlock(buffer, at, block);
  }

  lemma WholeBlocks(size: nat)
    ensures 16 * (size / 16) <= size
  {
  }

  method PutBlock(buffer: array<Byte>, off: nat, block: array<Byte>)
    requires block.Length == 16 && off + 16 <= buffer.Length && block != buffer
    modifies buffer
    ensures buffer[..] == Splice(old(buffer[..]), off, block[..])
  {
    for i := 0 to 16
      invariant forall j :: 0 <= j < buffer.Length && !(off <= j < off + i) ==> buffer[j] == old(buffer[j])
      invariant forall j :: off <= j < off + i ==> buffer[j] == block[j - off]
    {
      buffer[off + i] := block[i];
    }
  }
}
