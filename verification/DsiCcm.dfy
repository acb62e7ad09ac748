/** The byte-reversed CCM mode, over any block function. */
module DsiCcm {
  import opened Bytes
  import opened DsiCtr

  // ---------- what CCM computes ----------

  type Nonce = s: seq<Byte> | |s| == 12 witness [0, 0, 0, 0, 0, 0, 0, 0, 0, 0, 0, 0]

  function ZeroBytes(n: nat): (z: seq<Byte>)
    ensures |z| == n && forall i :: 0 <= i < n ==> z[i] == 0
  {
    seq(n, _ => 0)
  }

  /** A text of at most one block, filled up with zeros. */
  function Pad(x: seq<Byte>): Block
    requires |x| <= 16
  {
    x + ZeroBytes(16 - |x|)
  }

  function Absorb(e: BlockFn, m: Block, x: Block): Block {
    e(XorBlock(m, Rev(x)))
  }

  /** The chained code over a text: blocks of 16, the last one, which may be empty, filled up with zeros. */
  function CbcMac(e: BlockFn, m: Block, x: seq<Byte>): Block
    decreases |x|
  {
    if |x| <= 16 then Absorb(e, m, Pad(x)) else CbcMac(e, Absorb(e, m, x[..16]), x[16..])
  }

  function Tag(m: Block, s0: Block): Block {
    XorBlock(Rev(m), s0)
  }

  function NonceRev(n: Nonce): Nonce {
    [n[11], n[10], n[9], n[8], n[7], n[6], n[5], n[4], n[3], n[2], n[1], n[0]]
  }

  /** The first block: flags, nonce and the padded length in three bytes. */
  function B0(flags: Byte, nonce: Nonce, payload: nat): Block {
    [flags] + NonceRev(nonce) + [payload / 0x1_0000 % 256, payload / 0x100 % 256, payload % 256]
  }

  /** The first counter block. */
  function Ctr0(nonce: Nonce): Block {
    [2] + NonceRev(nonce) + [0, 0, 0]
  }

  /**
   * The flag byte from the tag length in unsigned arithmetic: half of it, less one, in the bits above the length of the
   * length field, and bit 6 set for associated data.
   */
  function Flags(maclength: nat, assoc: bool): Byte
    requires maclength < W32
  {
    var b := (maclength - 2) % W32 / 2 * 8 % 256 + 2;
    if assoc && b / 64 % 2 == 0 then b + 64 else b
  }

  /** For the tag lengths of CCM nothing wraps around and the associated-data bit lies above the length. */
  lemma FlagsInRange(maclength: nat, assoc: bool)
    requires 2 <= maclength <= 16
    ensures Flags(maclength, assoc) == (maclength - 2) / 2 * 8 + 2 + if assoc then 64 else 0
  {
  }

  function Rounded(size: nat): nat {
    (size + 15) / 16 * 16 % 0x1_0000_0000
  }

  // ---------- the same, byte by byte ----------

  ghost predicate LeastMultiple(p: nat, size: nat) {
    p % 16 == 0 && size <= p < size + 16
  }

  /** The number in the last three bytes of a block. */
  function Field(b: Block): int {
    var hi: int, mid: int, lo: int := b[13], b[14], b[15];
    0x1_0000 * hi + 0x100 * mid + lo
  }

  /** A block around a nonce: the nonce backwards in bytes 1 to 12. */
  ghost predicate Around(b: Block, first: Byte, nonce: Nonce) {
    b[0] == first && forall k :: 1 <= k < 13 ==> b[k] == nonce[12 - k]
  }

  /** The first block of a message: at its end the size, filled up to whole blocks, modulo 2^24. */
  ghost predicate IsFirst(b: Block, flags: Byte, nonce: Nonce, size: nat) {
    Around(b, flags, nonce) && exists p: nat :: LeastMultiple(p, size) && Field(b) == p % 0x100_0000
  }

  /** The counter block that makes the mask of the tag. */
  ghost predicate IsCounter(c: Block, nonce: Nonce) {
    Around(c, 2, nonce) && c[13] == 0 && c[14] == 0 && c[15] == 0
  }

  lemma ThreeBytes(x: nat)
    ensures 0x1_0000 * (x / 0x1_0000 % 256) + 0x100 * (x / 0x100 % 256) + x % 256 == x % 0x100_0000
  {
    var a, lo := x / 0x100, x % 0x100;
    var b, mid := a / 0x100, a % 0x100;
    var c, hi := b / 0x100, b % 0x100;
    assert x / 0x1_0000 == b by { Nested(x); }
    Low24(x, c, 0x1_0000 * hi + 0x100 * mid + lo);
  }

  lemma Nested(x: nat)
    ensures x / 0x1_0000 == x / 0x100 / 0x100
  {
  }

  lemma Low24(x: nat, q: nat, r: nat)
    requires x == 0x100_0000 * q + r && r < 0x100_0000
    ensures x % 0x100_0000 == r
  {
  }

  lemma RoundedIs(size: nat)
    ensures LeastMultiple((size + 15) / 16 * 16, size)
    ensures Rounded(size) % 0x100_0000 == (size + 15) / 16 * 16 % 0x100_0000
  {
    LowOfLow((size + 15) / 16 * 16);
  }

  lemma LowOfLow(p: nat)
    ensures p % 0x1_0000_0000 % 0x100_0000 == p % 0x100_0000
  {
    var q, r := p / 0x1_0000_0000, p % 0x1_0000_0000;
    var q', r' := r / 0x100_0000, r % 0x100_0000;
    Low24(p, 0x100 * q + q', r');
  }

  lemma FirstBlock(flags: Byte, nonce: Nonce, size: nat)
    ensures IsFirst(B0(flags, nonce, Rounded(size)), flags, nonce, size)
  {
    hide Rounded, LeastMultiple;
    RoundedIs(size);
    ThreeBytes(Rounded(size));
    assert Around(B0(flags, nonce, Rounded(size)), flags, nonce);
  }

  lemma FirstCounter(nonce: Nonce)
    ensures IsCounter(Ctr0(nonce), nonce)
  {
  }

  lemma SameMultiple(p: nat, q: nat, size: nat)
    requires LeastMultiple(p, size) && LeastMultiple(q, size)
    ensures p == q
  {
  }

  lemma SameField(b: Block, c: Block)
    requires Field(b) == Field(c)
    ensures b[13] == c[13] && b[14] == c[14] && b[15] == c[15]
  {
  }

  lemma SameAround(b: Block, c: Block, first: Byte, nonce: Nonce)
    requires Around(b, first, nonce) && Around(c, first, nonce)
    requires b[13] == c[13] && b[14] == c[14] && b[15] == c[15]
    ensures b == c
  {
    forall k | 0 <= k < 16
      ensures b[k] == c[k]
    {
    }
  }

  /** There is one such first block and one such counter. */
  lemma OneFirst(b: Block, flags: Byte, nonce: Nonce, size: nat)
    requires IsFirst(b, flags, nonce, size)
    ensures b == B0(flags, nonce, Rounded(size))
  {
    hide Rounded, LeastMultiple, Around, Field, B0;
    var c := B0(flags, nonce, Rounded(size));
    FirstBlock(flags, nonce, size);
    var p: nat :| LeastMultiple(p, size) && Field(b) == p % 0x100_0000;
    var q: nat :| LeastMultiple(q, size) && Field(c) == q % 0x100_0000;
    SameMultiple(p, q, size);
    SameField(b, c);
    SameAround(b, c, flags, nonce);
  }

  lemma OneCounter(c: Block, nonce: Nonce)
    requires IsCounter(c, nonce)
    ensures c == Ctr0(nonce)
  {
    hide Around, Ctr0;
    FirstCounter(nonce);
    SameAround(c, Ctr0(nonce), 2, nonce);
  }

  /** A byte of a text that goes on in zeros. */
  function ByteAt(x: seq<Byte>, j: nat): Byte {
    if j < |x| then x[j] else 0
  }

  /** zs are the blocks that go into the cipher: each is the last answer, with the next 16 bytes added from the last to the first. */
  ghost predicate Chained(e: BlockFn, zs: seq<Block>, x: seq<Byte>) {
    && |zs| == (if |x| == 0 then 2 else (|x| + 15) / 16 + 1)
    && forall k, i :: 0 <= k < |zs| - 1 && 0 <= i < 16 ==> zs[k + 1][i] == Xor(e(zs[k])[i], ByteAt(x, 16 * k + (15 - i)))
  }

  lemma AbsorbedBytes(m: Block, x: seq<Byte>, y: Block, z: Block)
    requires forall i :: 0 <= i < 16 ==> y[i] == ByteAt(x, i)
    requires forall i :: 0 <= i < 16 ==> z[i] == Xor(m[i], ByteAt(x, 15 - i))
    ensures z == XorBlock(m, Rev(y))
  {
    hide Xor, Rev;
    forall i | 0 <= i < 16
      ensures z[i] == XorBlock(m, Rev(y))[i]
    {
      RevByte(y, i);
    }
  }

  lemma PadBytes(x: seq<Byte>)
    requires |x| <= 16
    ensures forall i :: 0 <= i < 16 ==> Pad(x)[i] == ByteAt(x, i)
  {
  }

  lemma FirstLink(e: BlockFn, zs: seq<Block>, x: seq<Byte>)
    requires Chained(e, zs, x)
    ensures |zs| >= 2 && forall i :: 0 <= i < 16 ==> zs[1][i] == Xor(e(zs[0])[i], ByteAt(x, 15 - i))
  {
    hide Xor, ByteAt;
    forall i | 0 <= i < 16
      ensures zs[1][i] == Xor(e(zs[0])[i], ByteAt(x, 15 - i))
    {
      assert zs[0 + 1][i] == Xor(e(zs[0])[i], ByteAt(x, 16 * 0 + (15 - i)));
    }
  }

  lemma RestChained(e: BlockFn, zs: seq<Block>, x: seq<Byte>)
    requires Chained(e, zs, x) && 16 < |x|
    ensures Chained(e, zs[1..], x[16..])
  {
    hide Xor;
    var ys, y := zs[1..], x[16..];
    forall k, i | 0 <= k < |ys| - 1 && 0 <= i < 16
      ensures ys[k + 1][i] == Xor(e(ys[k])[i], ByteAt(y, 16 * k + (15 - i)))
    {
      assert zs[(k + 1) + 1][i] == Xor(e(zs[k + 1])[i], ByteAt(x, 16 * (k + 1) + (15 - i)));
    }
  }

  /** The chained code is the answer to the last block of the chain. */
  lemma {:induction false} ChainMeans(e: BlockFn, zs: seq<Block>, x: seq<Byte>)
    requires Chained(e, zs, x)
    ensures |zs| >= 2 && CbcMac(e, e(zs[0]), x) == e(zs[|zs| - 1])
    decreases |x|
  {
    hide Xor, Rev, XorSeq, Pad, Chained;
    FirstLink(e, zs, x);
    ChainLength(e, zs, x);
    if |x| <= 16 {
      PadBytes(x);
      AbsorbedBytes(e(zs[0]), x, Pad(x), zs[1]);
    } else {
      AbsorbedBytes(e(zs[0]), x, x[..16], zs[1]);
      RestChained(e, zs, x);
      ChainMeans(e, zs[1..], x[16..]);
    }
  }

  lemma ChainLength(e: BlockFn, zs: seq<Block>, x: seq<Byte>)
    requires Chained(e, zs, x)
    ensures |zs| >= 2 && (|x| <= 16 ==> |zs| == 2) && (|x| > 16 ==> |zs| > 2)
  {
  }

  /** Every text has its chain from any first block. */
  lemma {:induction false} ChainExists(e: BlockFn, first: Block, x: seq<Byte>) returns (zs: seq<Block>)
    ensures Chained(e, zs, x) && zs[0] == first
    decreases |x|
  {
    hide Xor, Rev;
    var second := Link(e(first), x);
    if |x| <= 16 {
      zs := [first, second];
    } else {
      var rest := ChainExists(e, second, x[16..]);
      zs := [first] + rest;
      Prepended(e, first, rest, x);
    }
  }

  function Link(m: Block, x: seq<Byte>): (z: Block)
    ensures forall i :: 0 <= i < 16 ==> z[i] == Xor(m[i], ByteAt(x, 15 - i))
  {
    seq(16, i requires 0 <= i < 16 => Xor(m[i], ByteAt(x, 15 - i)))
  }

  lemma Prepended(e: BlockFn, first: Block, rest: seq<Block>, x: seq<Byte>)
    requires 16 < |x| && Chained(e, rest, x[16..]) && rest[0] == Link(e(first), x)
    ensures Chained(e, [first] + rest, x)
  {
    hide Xor;
    var zs, y := [first] + rest, x[16..];
    forall k, i | 0 <= k < |zs| - 1 && 0 <= i < 16
      ensures zs[k + 1][i] == Xor(e(zs[k])[i], ByteAt(x, 16 * k + (15 - i)))
    {
      if k > 0 {
        assert rest[(k - 1) + 1][i] == Xor(e(rest[k - 1])[i], ByteAt(y, 16 * (k - 1) + (15 - i)));
      }
    }
  }

  /** The tag: the last answer of the chain backwards, with the mask s0 added. */
  ghost predicate Tags(e: BlockFn, m: Block, s0: Block, x: seq<Byte>, tag: seq<Byte>) {
    && |tag| == 16
    && forall zs :: Chained(e, zs, x) && |zs| > 0 && e(zs[0]) == m ==>
      forall i :: 0 <= i < 16 ==> tag[i] == Xor(e(zs[|zs| - 1])[15 - i], s0[i])
  }

  lemma TagBytes(m: Block, s0: Block)
    ensures forall i :: 0 <= i < 16 ==> Tag(m, s0)[i] == Xor(m[15 - i], s0[i])
  {
    hide Xor;
  }

  lemma TagMeans(e: BlockFn, m: Block, s0: Block, x: seq<Byte>)
    ensures Tags(e, m, s0, x, Tag(CbcMac(e, m, x), s0))
  {
    hide Xor, Tag, CbcMac, Chained;
    TagBytes(CbcMac(e, m, x), s0);
    forall zs | Chained(e, zs, x) && |zs| > 0 && e(zs[0]) == m
      ensures forall i :: 0 <= i < 16 ==> Tag(CbcMac(e, m, x), s0)[i] == Xor(e(zs[|zs| - 1])[15 - i], s0[i])
    {
      ChainMeans(e, zs, x);
    }
  }

  // ---------- the operations ----------

  method InitCcm(ctx: DsiContext, key: Block, maclength: nat, payload: nat, assoc: bool, nonce: Nonce)
    requires maclength < W32
    modifies ctx
    ensures ctx.aes == ctx.cipher(Rev(key)) && ctx.maclen == maclength
    ensures ctx.mac == ctx.aes(B0(Flags(maclength, assoc), nonce, Rounded(payload)))
    ensures ctx.ctr == AddCtr(Ctr0(nonce), 1) && ctx.s0 == Rev(ctx.aes(Ctr0(nonce)))
    ensures forall b :: IsFirst(b, Flags(maclength, assoc), nonce, payload) ==> ctx.mac == ctx.aes(b)
    ensures forall c :: IsCounter(c, nonce) ==> ctx.s0 == Rev(ctx.aes(c))
  {
    hide Rev, AddCtr, IsFirst, IsCounter;
    forall b | IsFirst(b, Flags(maclength, assoc), nonce, payload)
      ensures b == B0(Flags(maclength, assoc), nonce, Rounded(payload))
    {
      OneFirst(b, Flags(maclength, assoc), nonce, payload);
    }
    forall c | IsCounter(c, nonce)
      ensures c == Ctr0(nonce)
    {
      OneCounter(c, nonce);
    }
    ctx.SetKey(key);
    ctx.maclen := maclength;
    var p := Rounded(payload);
    var b := NonceBlock(Flags(maclength, assoc), nonce, p / 0x1_0000 % 256, p / 0x100 % 256, p % 256);
    ctx.mac := ctx.aes(b);
    var c := NonceBlock(2, nonce, 0, 0, 0);
    ctx.ctr := c;
    var s := new Byte[16](_ => 0);
    SpliceWhole(s[..], Rev(ctx.aes(ctx.ctr)));
    ctx.CryptBlock(null, 0, s, 0);
    ctx.s0 := s[..];
  }

  /** A block around a reversed nonce. */
  method NonceBlock(first: Byte, nonce: Nonce, x: Byte, y: Byte, z: Byte) returns (b: Block)
    ensures b == [first] + NonceRev(nonce) + [x, y, z]
  {
    b := [first, 0, 0, 0, 0, 0, 0, 0, 0, 0, 0, 0, 0, x, y, z];
    for i := 0 to 12
      invariant b[0] == first && b[13] == x && b[14] == y && b[15] == z
      invariant forall j :: 1 <= j < 1 + i ==> b[j] == nonce[12 - j]
    {
      b := b[1 + i := nonce[11 - i]];
    }
    assert forall j :: 1 <= j < 13 ==> b[j] == NonceRev(nonce)[j - 1];
  }

  /** mac[i] ^= x[15 - i], byte by byte. */
  method MixIn(ctx: DsiContext, x: array<Byte>, off: nat)
    requires off + 16 <= x.Length
    modifies ctx`mac
    ensures ctx.mac == XorBlock(old(ctx.mac), Rev(x[off..off + 16]))
  {
    hide Xor;
    ghost var was, rev := ctx.mac, Rev(x[off..off + 16]);
    for i := 0 to 16
      invariant forall j :: 0 <= j < i ==> ctx.mac[j] == Xor(was[j], rev[j])
      invariant forall j :: i <= j < 16 ==> ctx.mac[j] == was[j]
    {
      ctx.mac := ctx.mac[i := Xor(ctx.mac[i], x[off + 15 - i])];
    }
  }

  method PutTag(ctx: DsiContext, mac: array<Byte>)
    requires mac.Length == 16
    modifies mac
    ensures mac[..] == Tag(ctx.mac, ctx.s0)
  {
    hide Xor;
    for i := 0 to 16
      invariant forall j :: 0 <= j < i ==> mac[j] == Xor(Rev(ctx.mac)[j], ctx.s0[j])
    {
      mac[i] := Xor(ctx.mac[15 - i], ctx.s0[i]);
    }
  }

  method EncryptBlock(ctx: DsiContext, inp: array<Byte>, inOff: nat, out: array?<Byte>, outOff: nat, mac: array?<Byte>)
    requires inOff + 16 <= inp.Length
    requires out != null ==> outOff + 16 <= out.Length && (inp != out || inOff == outOff)
    requires mac != null ==> mac.Length == 16 && mac != inp && mac != out
    modifies ctx`mac, ctx`ctr
    modifies if out == null then {} else {out}
    modifies if mac == null then {} else {mac}
    ensures ctx.mac == Absorb(ctx.aes, old(ctx.mac), old(inp[inOff..inOff + 16]))
    ensures mac != null ==> mac[..] == Tag(ctx.mac, ctx.s0)
    ensures out == null ==> ctx.ctr == old(ctx.ctr)
    ensures out != null ==> ctx.ctr == AddCtr(old(ctx.ctr), 1)
    ensures out != null ==>
      out[..] == Splice(old(out[..]), outOff, XorSeq(Rev(ctx.aes(old(ctx.ctr))), old(inp[inOff..inOff + 16])))
  {
    hide Rev, AddCtr, XorSeq, Splice, Tag;
    MixIn(ctx, inp, inOff);
    ctx.mac := ctx.aes(ctx.mac);
    if mac != null {
      PutTag(ctx, mac);
    }
    if out != null {
      ctx.CryptBlock(inp, inOff, out, outOff);
    }
  }

  method DecryptBlock(ctx: DsiContext, inp: array<Byte>, inOff: nat, out: array?<Byte>, outOff: nat, mac: array?<Byte>)
    requires inOff + 16 <= inp.Length
    requires out != null ==> outOff + 16 <= out.Length && (inp != out || inOff == outOff)
    requires mac != null ==> mac.Length == 16 && mac != inp && mac != out
    modifies ctx`mac, ctx`ctr
    modifies if out == null then {} else {out}
    modifies if mac == null then {} else {mac}
    ensures mac != null ==> mac[..] == Tag(ctx.mac, ctx.s0)
    ensures out == null ==> ctx.ctr == old(ctx.ctr)
    ensures out == null ==> ctx.mac == Absorb(ctx.aes, old(ctx.mac), old(inp[inOff..inOff + 16]))
    ensures out != null ==> ctx.ctr == AddCtr(old(ctx.ctr), 1)
    ensures out != null ==>
      var plain := XorSeq(Rev(ctx.aes(old(ctx.ctr))), old(inp[inOff..inOff + 16]));
      ctx.mac == Absorb(ctx.aes, old(ctx.mac), plain) && out[..] == Splice(old(out[..]), outOff, plain)
  {
    hide Rev, AddCtr, XorSeq, Splice, Tag;
    if out != null {
      ghost var plain := XorSeq(Rev(ctx.aes(ctx.ctr)), inp[inOff..inOff + 16]);
      ghost var was := out[..];
      ctx.CryptBlock(inp, inOff, out, outOff);
      SpliceRead(was, outOff, plain);
      assert out[outOff..outOff + 16] == plain;
      MixIn(ctx, out, outOff);
    } else {
      MixIn(ctx, inp, inOff);
    }
    ctx.mac := ctx.aes(ctx.mac);
    if mac != null {
      PutTag(ctx, mac);
    }
  }

  lemma SpliceRead(s: seq<Byte>, off: nat, t: seq<Byte>)
    requires off + |t| <= |s|
    ensures Splice(s, off, t)[off..off + |t|] == t
  {
  }

  // ---------- whole messages ----------

  /** The last part of a message, of at most one block. */
  lemma CtrMidwayLast(e: BlockFn, c: Block, x: seq<Byte>, was: seq<Byte>, now: seq<Byte>, src: seq<Byte>, n: nat)
    requires CtrMidway(e, c, x, was, now, 0, src, 0, n) && |x| <= 16 * n + 16
    ensures src[16 * n..|x|] == x[16 * n..]
    ensures Splice(now, 16 * n, LastText(e, AddCtr(c, n), x[16 * n..])) == Splice(was, 0, CtrText(e, c, x))
  {
    hide CtrText, XorSeq, Splice, AddCtr;
    var a, b := x[..16 * n], x[16 * n..];
    assert x == a + b;
    CtrAppend(e, c, a, b, n);
    ShortText(e, AddCtr(c, n), b);
    SpliceTwice(was, 0, CtrText(e, c, a), LastText(e, AddCtr(c, n), b));
  }

  function LastText(e: BlockFn, ctr: Block, x: seq<Byte>): (r: seq<Byte>)
    requires |x| <= 16
    ensures |r| == |x|
  {
    XorSeq(Rev(e(ctr))[..|x|], x)
  }

  lemma ShortText(e: BlockFn, ctr: Block, x: seq<Byte>)
    requires |x| <= 16
    ensures CtrText(e, ctr, x) == LastText(e, ctr, x)
  {
  }

  /** The chain over a message is the chain over its rest, from the state after the part before. */
  lemma MacStep(e: BlockFn, m: Block, x: seq<Byte>)
    requires 16 < |x|
    ensures CbcMac(e, m, x) == CbcMac(e, Absorb(e, m, x[..16]), x[16..])
  {
  }

  lemma MacLast(e: BlockFn, m: Block, x: seq<Byte>)
    requires |x| <= 16
    ensures CbcMac(e, m, x) == Absorb(e, m, Pad(x))
  {
  }

  lemma DropDrop(x: seq<Byte>, n: nat)
    requires 16 * n + 16 <= |x|
    ensures x[16 * n..][..16] == x[16 * n..16 * n + 16] && x[16 * n..][16..] == x[16 * (n + 1)..]
  {
  }

  /** What lies behind a pointer; nothing behind the null pointer. */
  ghost function Contents(a: array?<Byte>): seq<Byte>
    reads if a == null then {} else {a}
  {
    if a == null then [] else a[..]
  }

  method Fill(block: array<Byte>, src: array?<Byte>, at: nat, size: nat)
    requires block.Length == 16 && size <= 16 && at + size <= |Contents(src)| && block != src
    modifies block
    ensures block[..] == Splice(old(block[..]), 0, Contents(src)[at..at + size])
  {
    for i := 0 to size
      invariant forall j :: 0 <= j < i ==> block[j] == Contents(src)[at..at + size][j]
      invariant forall j :: i <= j < 16 ==> block[j] == old(block[j])
    {
      block[i] := src[at + i];
    }
  }

  method PutBack(dst: array?<Byte>, at: nat, block: array<Byte>, size: nat)
    requires block.Length == 16 && size <= 16 && at + size <= |Contents(dst)| && block != dst
    modifies if dst == null then {} else {dst}
    ensures Contents(dst) == Splice(old(Contents(dst)), at, block[..size])
  {
    for i := 0 to size
      invariant dst != null ==> forall j :: at <= j < at + i ==> dst[j] == block[j - at]
      invariant dst != null ==> forall j :: 0 <= j < dst.Length && !(at <= j < at + i) ==> dst[j] == old(dst[j])
    {
      dst[at + i] := block[i];
    }
  }

  /** A zero-padded block, encrypted, starts with the encrypted text. */
  lemma PaddedText(s: Block, x: seq<Byte>)
    requires |x| <= 16
    ensures Splice(ZeroBytes(16), 0, x) == Pad(x)
    ensures XorSeq(s, Pad(x))[..|x|] == XorSeq(s[..|x|], x)
  {
  }

  lemma Cancelled(b: Byte)
    ensures Xor(b, Xor(b, 0)) == 0
  {
    XorUndo(0, b);
    XorZero(b);
  }

  /** Key stream behind the encrypted text decrypts to zeros: both sides absorb the same padded block. */
  lemma StreamPadding(s: Block, x: seq<Byte>)
    requires |x| <= 16
    ensures XorSeq(s, Splice(XorSeq(s, ZeroBytes(16)), 0, x)) == Pad(XorSeq(s[..|x|], x))
  {
    hide Xor;
    forall i | 0 <= i < 16
      ensures XorSeq(s, Splice(XorSeq(s, ZeroBytes(16)), 0, x))[i] == Pad(XorSeq(s[..|x|], x))[i]
    {
      if |x| <= i {
        Cancelled(s[i]);
      }
    }
  }

  /** One more whole block. */
  method NextEncrypted(ctx: DsiContext, inp: array<Byte>, out: array<Byte>, at: nat, mac: array?<Byte>,
                       ghost c: Block, ghost x: seq<Byte>, ghost was: seq<Byte>, ghost n: nat)
    requires mac != null ==> mac.Length == 16 && mac != inp && mac != out
    requires at == 16 * n && at + 16 < |x| && CtrMidway(ctx.aes, c, x, was, out[..], 0, inp[..], 0, n) && ctx.ctr == AddCtr(c, n)
    requires at + 16 <= inp.Length && at + 16 <= out.Length
    modifies ctx`mac, ctx`ctr, out
    modifies if mac == null then {} else {mac}
    ensures CtrMidway(ctx.aes, c, x, was, out[..], 0, inp[..], 0, n + 1) && ctx.ctr == AddCtr(c, n + 1)
    ensures var y := x;
      CbcMac(ctx.aes, ctx.mac, y[16 * (n + 1)..]) == CbcMac(ctx.aes, old(ctx.mac), y[16 * n..])
  {
    hide CtrText, XorSeq, Splice, Rev, AddCtr, Absorb, CbcMac, CtrMidway, Pad, LastText, Tag, Blocks;
    ghost var e := ctx.aes;
    ghost var y := x;
    CtrMidwayStep(e, c, x, was, out[..], 0, inp[..], 0, n);
    DropDrop(y, n);
    MacStep(e, ctx.mac, y[16 * n..]);
    AddCtrAdd(c, n, 1);
    EncryptBlock(ctx, inp, at, out, at, mac);
  }

  /** One more whole block. */
  method NextDecrypted(ctx: DsiContext, inp: array<Byte>, out: array<Byte>, at: nat, mac: array?<Byte>,
                       ghost c: Block, ghost x: seq<Byte>, ghost was: seq<Byte>, ghost n: nat)
    requires mac != null ==> mac.Length == 16 && mac != inp && mac != out
    requires at == 16 * n && at + 16 < |x| && CtrMidway(ctx.aes, c, x, was, out[..], 0, inp[..], 0, n) && ctx.ctr == AddCtr(c, n)
    requires at + 16 <= inp.Length && at + 16 <= out.Length
    modifies ctx`mac, ctx`ctr, out
    modifies if mac == null then {} else {mac}
    ensures CtrMidway(ctx.aes, c, x, was, out[..], 0, inp[..], 0, n + 1) && ctx.ctr == AddCtr(c, n + 1)
    ensures var y := CtrText(ctx.aes, c, x);
      CbcMac(ctx.aes, ctx.mac, y[16 * (n + 1)..]) == CbcMac(ctx.aes, old(ctx.mac), y[16 * n..])
  {
    hide CtrText, XorSeq, Splice, Rev, AddCtr, Absorb, CbcMac, CtrMidway, Pad, LastText, Tag, Blocks;
    ghost var e := ctx.aes;
    ghost var y := CtrText(e, c, x);
    CtrMidwayStep(e, c, x, was, out[..], 0, inp[..], 0, n);
    TextBlock(e, c, x, n);
    DropDrop(y, n);
    MacStep(e, ctx.mac, y[16 * n..]);
    AddCtrAdd(c, n, 1);
    DecryptBlock(ctx, inp, at, out, at, mac);
  }

  /** The whole blocks, up to the last 16 bytes or fewer. */
  method EncryptBlocks(ctx: DsiContext, inp: array?<Byte>, out: array?<Byte>, size: nat, mac: array?<Byte>,
                       ghost c: Block, ghost x: seq<Byte>, ghost was: seq<Byte>)
    returns (at: nat, ghost n: nat)
    requires |x| == size <= |Contents(inp)| && size <= |Contents(out)| && ctx.ctr == AddCtr(c, 0)
    requires mac != null ==> mac.Length == 16 && mac != inp && mac != out
    requires CtrMidway(ctx.aes, c, x, was, Contents(out), 0, Contents(inp), 0, 0)
    modifies ctx`mac, ctx`ctr
    modifies if out == null then {} else {out}
    modifies if mac == null then {} else {mac}
    ensures at == 16 * n && at <= size <= at + 16 && ctx.ctr == AddCtr(c, n)
    ensures CtrMidway(ctx.aes, c, x, was, Contents(out), 0, Contents(inp), 0, n)
    ensures var y := x; CbcMac(ctx.aes, ctx.mac, y[16 * n..]) == CbcMac(ctx.aes, old(ctx.mac), y)
  {
    hide CtrText, XorSeq, Splice, Rev, AddCtr, Absorb, CbcMac, CtrMidway, Pad, LastText, Tag, Blocks;
    ghost var m, e := ctx.mac, ctx.aes;
    ghost var y := x;
    var left: nat := size;
    at, n := 0, 0;
    assert y[0..] == y;
    while left > 16
      invariant at == 16 * n && at + left == size
      invariant CtrMidway(e, c, x, was, Contents(out), 0, Contents(inp), 0, n)
      invariant ctx.ctr == AddCtr(c, n)
      invariant CbcMac(e, ctx.mac, y[16 * n..]) == CbcMac(e, m, y)
    {
      NextEncrypted(ctx, inp, out, at, mac, c, x, was, n);
      n, at, left := n + 1, at + 16, left - 16;
    }
  }

  /** Input and output may be null for the empty message, the tag always. */
  method EncryptCcm(ctx: DsiContext, inp: array?<Byte>, out: array?<Byte>, size: nat, mac: array?<Byte>)
    requires size <= |Contents(inp)| && size <= |Contents(out)|
    requires mac != null ==> mac.Length == 16 && mac != inp && mac != out
    modifies ctx`mac, ctx`ctr
    modifies if out == null then {} else {out}
    modifies if mac == null then {} else {mac}
    ensures Contents(out) == Splice(old(Contents(out)), 0, CtrText(ctx.aes, old(ctx.ctr), old(Contents(inp)[..size])))
    ensures ctx.mac == CbcMac(ctx.aes, old(ctx.mac), old(Contents(inp)[..size]))
    ensures mac != null ==> mac[..] == Tag(ctx.mac, ctx.s0)
    ensures mac != null ==> Tags(ctx.aes, old(ctx.mac), ctx.s0, old(Contents(inp)[..size]), mac[..])
  {
    hide CtrText, XorSeq, Splice, Rev, AddCtr, Absorb, CbcMac, CtrMidway, Pad, LastText, Tag, Tags, Blocks;
    ghost var x, was, c, e := Contents(inp)[..size], Contents(out), ctx.ctr, ctx.aes;
    TagMeans(e, ctx.mac, ctx.s0, x);
    CtrMidwayStart(e, c, x, was, 0, Contents(inp), 0);
    var at, n := EncryptBlocks(ctx, inp, out, size, mac, c, x, was);
    CtrMidwayLast(e, c, x, was, Contents(out), Contents(inp), n);
    MacLast(e, ctx.mac, x[16 * n..]);
    LastEncrypted(ctx, inp, out, at, size - at, mac);
  }

  /** The zero-padded rest x, encrypted in place. */
  method EncryptPadded(ctx: DsiContext, block: array<Byte>, ghost x: seq<Byte>, mac: array?<Byte>)
    requires block.Length == 16 && |x| <= 16 && block[..] == Splice(ZeroBytes(16), 0, x)
    requires mac != null ==> mac.Length == 16 && mac != block
    modifies ctx`mac, ctx`ctr, block
    modifies if mac == null then {} else {mac}
    ensures block[..|x|] == LastText(ctx.aes, old(ctx.ctr), x)
    ensures ctx.mac == Absorb(ctx.aes, old(ctx.mac), Pad(x))
    ensures mac != null ==> mac[..] == Tag(ctx.mac, ctx.s0)
  {
    hide XorSeq, Splice, Rev, AddCtr, Absorb, Pad, Tag;
    ghost var s := Rev(ctx.aes(ctx.ctr));
    PaddedText(s, x);
    assert block[0..0 + 16] == block[..];
    EncryptBlock(ctx, block, 0, block, 0, mac);
    SpliceWhole(Pad(x), XorSeq(s, Pad(x)));
  }

  /** The rest x with key stream behind it, decrypted in place. */
  method DecryptPadded(ctx: DsiContext, block: array<Byte>, ghost x: seq<Byte>, mac: array?<Byte>)
    requires block.Length == 16 && |x| <= 16
    requires block[..] == Splice(XorSeq(Rev(ctx.aes(ctx.ctr)), ZeroBytes(16)), 0, x)
    requires mac != null ==> mac.Length == 16 && mac != block
    modifies ctx`mac, ctx`ctr, block
    modifies if mac == null then {} else {mac}
    ensures block[..] == Pad(LastText(ctx.aes, old(ctx.ctr), x))
    ensures ctx.mac == Absorb(ctx.aes, old(ctx.mac), Pad(LastText(ctx.aes, old(ctx.ctr), x)))
    ensures mac != null ==> mac[..] == Tag(ctx.mac, ctx.s0)
  {
    hide XorSeq, Splice, Rev, AddCtr, Absorb, Pad, Tag;
    ghost var s, filled := Rev(ctx.aes(ctx.ctr)), block[..];
    StreamPadding(s, x);
    assert block[0..0 + 16] == filled;
    DecryptBlock(ctx, block, 0, block, 0, mac);
    SpliceWhole(filled, XorSeq(s, filled));
  }

  /** The last block of an encryption goes through a zeroed scratch block. */
  method LastEncrypted(ctx: DsiContext, inp: array?<Byte>, out: array?<Byte>, at: nat, left: nat, mac: array?<Byte>)
    requires left <= 16 && at + left <= |Contents(inp)| && at + left <= |Contents(out)|
    requires mac != null ==> mac.Length == 16 && mac != inp && mac != out
    modifies ctx`mac, ctx`ctr
    modifies if out == null then {} else {out}
    modifies if mac == null then {} else {mac}
    ensures Contents(out)
      == Splice(old(Contents(out)), at, LastText(ctx.aes, old(ctx.ctr), old(Contents(inp)[at..at + left])))
    ensures ctx.mac == Absorb(ctx.aes, old(ctx.mac), Pad(old(Contents(inp)[at..at + left])))
    ensures mac != null ==> mac[..] == Tag(ctx.mac, ctx.s0)
  {
    hide XorSeq, Splice, Rev, AddCtr, Absorb, Pad, Tag;
    ghost var x := Contents(inp)[at..at + left];
    var block := new Byte[16](_ => 0);
    assert block[..] == ZeroBytes(16);
    Fill(block, inp, at, left);
    EncryptPadded(ctx, block, x, mac);
    PutBack(out, at, block, left);
  }

  /** The whole blocks, up to the last 16 bytes or fewer. */
  method DecryptBlocks(ctx: DsiContext, inp: array?<Byte>, out: array?<Byte>, size: nat, mac: array?<Byte>,
                       ghost c: Block, ghost x: seq<Byte>, ghost was: seq<Byte>)
    returns (at: nat, ghost n: nat)
    requires |x| == size <= |Contents(inp)| && size <= |Contents(out)| && ctx.ctr == AddCtr(c, 0)
    requires mac != null ==> mac.Length == 16 && mac != inp && mac != out
    requires CtrMidway(ctx.aes, c, x, was, Contents(out), 0, Contents(inp), 0, 0)
    modifies ctx`mac, ctx`ctr
    modifies if out == null then {} else {out}
    modifies if mac == null then {} else {mac}
    ensures at == 16 * n && at <= size <= at + 16 && ctx.ctr == AddCtr(c, n)
    ensures CtrMidway(ctx.aes, c, x, was, Contents(out), 0, Contents(inp), 0, n)
    ensures var y := CtrText(ctx.aes, c, x); CbcMac(ctx.aes, ctx.mac, y[16 * n..]) == CbcMac(ctx.aes, old(ctx.mac), y)
  {
    hide CtrText, XorSeq, Splice, Rev, AddCtr, Absorb, CbcMac, CtrMidway, Pad, LastText, Tag, Blocks;
    ghost var m, e := ctx.mac, ctx.aes;
    ghost var y := CtrText(e, c, x);
    var left: nat := size;
    at, n := 0, 0;
    assert y[0..] == y;
    while left > 16
      invariant at == 16 * n && at + left == size
      invariant CtrMidway(e, c, x, was, Contents(out), 0, Contents(inp), 0, n)
      invariant ctx.ctr == AddCtr(c, n)
      invariant CbcMac(e, ctx.mac, y[16 * n..]) == CbcMac(e, m, y)
    {
      NextDecrypted(ctx, inp, out, at, mac, c, x, was, n);
      n, at, left := n + 1, at + 16, left - 16;
    }
  }

  /** Input and output may be null for the empty message, the tag always. */
  method DecryptCcm(ctx: DsiContext, inp: array?<Byte>, out: array?<Byte>, size: nat, mac: array?<Byte>)
    requires size <= |Contents(inp)| && size <= |Contents(out)|
    requires mac != null ==> mac.Length == 16 && mac != inp && mac != out
    modifies ctx`mac, ctx`ctr
    modifies if out == null then {} else {out}
    modifies if mac == null then {} else {mac}
    ensures Contents(out) == Splice(old(Contents(out)), 0, CtrText(ctx.aes, old(ctx.ctr), old(Contents(inp)[..size])))
    ensures ctx.mac == CbcMac(ctx.aes, old(ctx.mac), CtrText(ctx.aes, old(ctx.ctr), old(Contents(inp)[..size])))
    ensures mac != null ==> mac[..] == Tag(ctx.mac, ctx.s0)
    ensures mac != null ==>
      Tags(ctx.aes, old(ctx.mac), ctx.s0, CtrText(ctx.aes, old(ctx.ctr), old(Contents(inp)[..size])), mac[..])
  {
    hide CtrText, XorSeq, Splice, Rev, AddCtr, Absorb, CbcMac, CtrMidway, Pad, LastText, Tag, Tags, Blocks;
    ghost var x, was, c, e := Contents(inp)[..size], Contents(out), ctx.ctr, ctx.aes;
    ghost var y := CtrText(e, c, x);
    TagMeans(e, ctx.mac, ctx.s0, y);
    CtrMidwayStart(e, c, x, was, 0, Contents(inp), 0);
    var at, n := DecryptBlocks(ctx, inp, out, size, mac, c, x, was);
    CtrMidwayLast(e, c, x, was, Contents(out), Contents(inp), n);
    TextRest(e, c, x, n);
    MacLast(e, ctx.mac, y[16 * n..]);
    LastDecrypted(ctx, inp, out, at, size - at, mac);
  }

  /** A block of key stream; the counter is put back afterwards. */
  method StreamAhead(ctx: DsiContext) returns (block: array<Byte>)
    modifies ctx`ctr
    ensures fresh(block) && block.Length == 16 && ctx.ctr == old(ctx.ctr)
    ensures block[..] == XorSeq(Rev(ctx.aes(ctx.ctr)), ZeroBytes(16))
  {
    hide XorSeq, Splice, Rev, AddCtr;
    var ctr := ctx.ctr;
    block := new Byte[16](_ => 0);
    assert block[..] == ZeroBytes(16);
    assert block[0..0 + 16] == block[..];
    ctx.CryptBlock(block, 0, block, 0);
    SpliceWhole(ZeroBytes(16), XorSeq(Rev(ctx.aes(ctr)), ZeroBytes(16)));
    ctx.ctr := ctr;
  }

  /** The last block of a decryption is filled up with key stream, made ahead and with the counter put back. */
  method LastDecrypted(ctx: DsiContext, inp: array?<Byte>, out: array?<Byte>, at: nat, left: nat, mac: array?<Byte>)
    requires left <= 16 && at + left <= |Contents(inp)| && at + left <= |Contents(out)|
    requires mac != null ==> mac.Length == 16 && mac != inp && mac != out
    modifies ctx`mac, ctx`ctr
    modifies if out == null then {} else {out}
    modifies if mac == null then {} else {mac}
    ensures Contents(out)
      == Splice(old(Contents(out)), at, LastText(ctx.aes, old(ctx.ctr), old(Contents(inp)[at..at + left])))
    ensures ctx.mac == Absorb(ctx.aes, old(ctx.mac), Pad(LastText(ctx.aes, old(ctx.ctr), old(Contents(inp)[at..at + left]))))
    ensures mac != null ==> mac[..] == Tag(ctx.mac, ctx.s0)
  {
    hide XorSeq, Splice, Rev, AddCtr, Absorb, Pad, Tag;
    ghost var x := Contents(inp)[at..at + left];
    var block := StreamAhead(ctx);
    Fill(block, inp, at, left);
    DecryptPadded(ctx, block, x, mac);
    PadPrefix(LastText(ctx.aes, old(ctx.ctr), x));
    PutBack(out, at, block, left);
  }

  lemma PadPrefix(x: seq<Byte>)
    requires |x| <= 16
    ensures Pad(x)[..|x|] == x
  {
  }

  /** Block n of the text. */
  lemma TextBlock(e: BlockFn, c: Block, x: seq<Byte>, n: nat)
    requires 16 * n + 16 <= |x|
    ensures CtrText(e, c, x)[16 * n..16 * n + 16] == XorSeq(Rev(e(AddCtr(c, n))), x[16 * n..16 * n + 16])
  {
    hide CtrText, XorSeq, Rev, AddCtr;
    var a, b := x[..16 * n + 16], x[16 * n + 16..];
    assert x == a + b;
    CtrAppend(e, c, a, b, n + 1);
    OneMore(e, c, x, n);
    Within(CtrText(e, c, x[..16 * n]), XorSeq(Rev(e(AddCtr(c, n))), x[16 * n..16 * n + 16]),
           CtrText(e, AddCtr(c, n + 1), b));
  }

  lemma Within(a: seq<Byte>, b: seq<Byte>, c: seq<Byte>)
    ensures (a + b + c)[|a|..|a| + |b|] == b
  {
  }

  /** The text from block n on. */
  lemma TextRest(e: BlockFn, c: Block, x: seq<Byte>, n: nat)
    requires 16 * n <= |x| <= 16 * n + 16
    ensures CtrText(e, c, x)[16 * n..] == LastText(e, AddCtr(c, n), x[16 * n..])
  {
    hide CtrText, XorSeq, Rev, AddCtr;
    var a, b := x[..16 * n], x[16 * n..];
    assert x == a + b;
    CtrAppend(e, c, a, b, n);
    ShortText(e, AddCtr(c, n), b);
  }
}
