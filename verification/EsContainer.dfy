/** The ES container: a CCM-encrypted buffer beside a 32-byte block with tag, nonce and encrypted size. */
module EsContainer {
  import opened Bytes
  import opened DsiCtr
  import opened DsiCcm

  // ---------- what the container holds ----------

  const MAGIC: Byte := 0x3A

  /** The plain size block. */
  function SizeBlock(size: nat): Block {
    [MAGIC, 0, 0, 0, 0, 0, 0, 0, 0, 0, 0, 0, 0, size / 0x1_0000 % 256, size / 0x100 % 256, size % 256]
  }

  /** The key stream of the size block: its counter is the nonce between zeros, stored reversed. */
  function SizeStream(e: BlockFn, nonce: Nonce): Block {
    Rev(e(Rev([0] + nonce + [0, 0, 0])))
  }

  ghost function Start(e: BlockFn, nonce: Nonce): Block {
    AddCtr(Ctr0(nonce), 1)
  }

  function StartMac(e: BlockFn, nonce: Nonce, size: nat): Block {
    e(B0(Flags(16, false), nonce, Rounded(size)))
  }

  function StartS0(e: BlockFn, nonce: Nonce): Block {
    Rev(e(Ctr0(nonce)))
  }

  /** The tag of a plain text. */
  function EsTag(e: BlockFn, nonce: Nonce, x: seq<Byte>): Block {
    Tag(CbcMac(e, StartMac(e, nonce, |x|), x), StartS0(e, nonce))
  }

  /** The meta block of a plain text: tag, first size byte, nonce, last three size bytes. */
  function Meta(e: BlockFn, nonce: Nonce, x: seq<Byte>): (m: seq<Byte>)
    ensures |m| == 32
  {
    var h := XorBlock(SizeStream(e, nonce), SizeBlock(|x|));
    EsTag(e, nonce, x) + [h[0]] + nonce + h[13..]
  }

  function MetaNonce(m: seq<Byte>): Nonce
    requires |m| == 32
  {
    m[17..29]
  }

  /** The decrypted size block of a meta block. */
  function MetaSize(e: BlockFn, m: seq<Byte>): Block
    requires |m| == 32
  {
    XorBlock(SizeStream(e, MetaNonce(m)), m[16..])
  }

  /** The buffer, decrypted or encrypted. */
  ghost function EsText(e: BlockFn, nonce: Nonce, x: seq<Byte>): (r: seq<Byte>)
    ensures |r| == |x|
  {
    CtrText(e, Start(e, nonce), x)
  }

  /** What decryption answers for a meta block, a size and an encrypted text of that size. */
  ghost function Verdict(e: BlockFn, m: seq<Byte>, y: seq<Byte>): int
    requires |m| == 32
  {
    var b := MetaSize(e, m);
    if b[0] != MAGIC then -1
    else if Field(b) != |y| then -2
    else if EsTag(e, MetaNonce(m), EsText(e, MetaNonce(m), y)) != m[..16] then -3
    else 0
  }

  // ---------- the same, byte by byte ----------

  /** The counter block of the size block: the nonce backwards, in bytes 3 to 14, between zeros. */
  ghost predicate IsSizeCounter(s: Block, nonce: Nonce) {
    && s[0] == 0 && s[1] == 0 && s[2] == 0 && s[15] == 0
    && forall k :: 3 <= k < 15 ==> s[k] == nonce[14 - k]
  }

  lemma OneSizeCounter(s: Block, nonce: Nonce)
    requires IsSizeCounter(s, nonce)
    ensures s == Rev([0] + nonce + [0, 0, 0])
  {
    var t: Block := [0] + nonce + [0, 0, 0];
    forall k | 0 <= k < 16
      ensures s[k] == Rev(t)[k]
    {
      if 3 <= k < 15 {
        assert t[15 - k] == nonce[14 - k];
      }
    }
  }

  /** The tag in the first half of a meta block. */
  ghost predicate TagSealed(e: BlockFn, nonce: Nonce, x: seq<Byte>, m: seq<Byte>)
    requires |m| == 32
  {
    forall zs, c :: Chained(e, zs, x) && |zs| > 0 && IsFirst(zs[0], 0x3A, nonce, |x|) && IsCounter(c, nonce) ==>
      forall i :: 0 <= i < 16 ==> m[i] == Xor(e(zs[|zs| - 1])[15 - i], e(c)[15 - i])
  }

  /** The second half: magic number and size masked with the bytes of one key stream block, around the plain nonce. */
  ghost predicate SizeSealed(e: BlockFn, nonce: Nonce, size: nat, m: seq<Byte>)
    requires |m| == 32
  {
    && (forall k :: 17 <= k < 29 ==> m[k] == nonce[k - 17])
    && forall s :: IsSizeCounter(s, nonce) ==>
      var hi: int, mid: int, lo: int := Xor(m[29], e(s)[2]), Xor(m[30], e(s)[1]), Xor(m[31], e(s)[0]);
      Xor(m[16], e(s)[15]) == 0x3A && 0x1_0000 * hi + 0x100 * mid + lo == size % 0x100_0000
  }

  /** Byte j of the text: masked with byte 15 - j % 16 of the answer to counter block number 1 + j / 16. */
  ghost predicate TextSealed(e: BlockFn, nonce: Nonce, x: seq<Byte>, y: seq<Byte>) {
    && |y| == |x|
    && forall c, k, j :: IsCounter(c, nonce) && 0 <= j < |x| && BeValue(k) == (BeValue(c) + 1 + j / 16) % W128 ==>
      y[j] == Xor(e(k)[15 - j % 16], x[j])
  }

  /** x under the nonce is y with the meta block m. */
  ghost predicate Sealed(e: BlockFn, nonce: Nonce, x: seq<Byte>, y: seq<Byte>, m: seq<Byte>) {
    |m| == 32 && TagSealed(e, nonce, x, m) && SizeSealed(e, nonce, |x|, m) && TextSealed(e, nonce, x, y)
  }

  lemma TagIsSealed(e: BlockFn, nonce: Nonce, x: seq<Byte>, m: seq<Byte>)
    requires |m| == 32 && m[..16] == EsTag(e, nonce, x)
    ensures TagSealed(e, nonce, x, m)
  {
    hide Xor, Tag, CbcMac, Chained, IsFirst, IsCounter, B0, Ctr0, Rounded;
    TagMeans(e, StartMac(e, nonce, |x|), StartS0(e, nonce), x);
    forall zs, c | Chained(e, zs, x) && |zs| > 0 && IsFirst(zs[0], 0x3A, nonce, |x|) && IsCounter(c, nonce)
      ensures forall i :: 0 <= i < 16 ==> m[i] == Xor(e(zs[|zs| - 1])[15 - i], e(c)[15 - i])
    {
      EsFlags();
      OneFirst(zs[0], 0x3A, nonce, |x|);
      OneCounter(c, nonce);
      forall i | 0 <= i < 16
        ensures m[i] == Xor(e(zs[|zs| - 1])[15 - i], e(c)[15 - i])
      {
        RevByte(e(c), i);
        assert m[i] == m[..16][i];
      }
    }
  }

  lemma EsFlags()
    ensures Flags(16, false) == 0x3A
  {
  }

  lemma SizeIsSealed(e: BlockFn, nonce: Nonce, x: seq<Byte>)
    ensures SizeSealed(e, nonce, |x|, Meta(e, nonce, x))
  {
    hide EsTag, Xor, IsSizeCounter;
    var m, p := Meta(e, nonce, x), SizeBlock(|x|);
    forall s | IsSizeCounter(s, nonce)
      ensures Xor(m[16], e(s)[15]) == 0x3A
      ensures var hi: int, mid: int, lo: int := Xor(m[29], e(s)[2]), Xor(m[30], e(s)[1]), Xor(m[31], e(s)[0]);
        0x1_0000 * hi + 0x100 * mid + lo == |x| % 0x100_0000
    {
      OneSizeCounter(s, nonce);
      Unmask(SizeStream(e, nonce), p, e(s));
      SizeBytes(|x|);
    }
  }

  /** The masked bytes at both ends of a block, unmasked by a key stream block read backwards. */
  lemma Unmask(s: Block, p: Block, a: Block)
    requires s == Rev(a)
    ensures var h := XorBlock(s, p);
      Xor(h[0], a[15]) == p[0] && Xor(h[13], a[2]) == p[13] && Xor(h[14], a[1]) == p[14] && Xor(h[15], a[0]) == p[15]
  {
    hide Xor;
    XorComm(a[15], p[0]);
    XorUndo(p[0], a[15]);
    XorComm(a[2], p[13]);
    XorUndo(p[13], a[2]);
    XorComm(a[1], p[14]);
    XorUndo(p[14], a[1]);
    XorComm(a[0], p[15]);
    XorUndo(p[15], a[0]);
  }

  lemma TextIsSealed(e: BlockFn, nonce: Nonce, x: seq<Byte>)
    ensures TextSealed(e, nonce, x, EsText(e, nonce, x))
  {
    hide Xor, AddCtr, BeValue, IsCounter, CtrText, Ctr0;
    forall c, k, j | IsCounter(c, nonce) && 0 <= j < |x| && BeValue(k) == (BeValue(c) + 1 + j / 16) % W128
      ensures EsText(e, nonce, x)[j] == Xor(e(k)[15 - j % 16], x[j])
    {
      OneCounter(c, nonce);
      IsAddCtr(c, 1 + j / 16, k);
      AddCtrAdd(c, 1, j / 16);
      CtrByte(e, Start(e, nonce), x, j);
    }
  }

  /** The container as a whole. */
  lemma ContainerIsSealed(e: BlockFn, nonce: Nonce, x: seq<Byte>)
    ensures Sealed(e, nonce, x, EsText(e, nonce, x), Meta(e, nonce, x))
  {
    hide EsTag, SizeStream, SizeBlock, TagSealed, SizeSealed, TextSealed, EsText;
    TagIsSealed(e, nonce, x, Meta(e, nonce, x));
    SizeIsSealed(e, nonce, x);
    TextIsSealed(e, nonce, x);
  }

  // ---------- the operations ----------

  class EsContext {
    const cipher: Block -> BlockFn
    var key: Block
    var nonce: Nonce
    var randomNonce: bool

    ghost function Fn(): BlockFn
      reads this`key
    {
      cipher(Rev(key))
    }

    constructor (keySchedule: Block -> BlockFn, k: Block)
      ensures cipher == keySchedule && key == k && randomNonce
    {
      cipher, key, randomNonce := keySchedule, k, true;
      nonce := [0, 0, 0, 0, 0, 0, 0, 0, 0, 0, 0, 0];
    }

    method SetNonce(n: Nonce)
      modifies this`nonce, this`randomNonce
      ensures nonce == n && !randomNonce
    {
      nonce, randomNonce := n, false;
    }

    method SetRandomNonce()
      modifies this`randomNonce
      ensures randomNonce
    {
      randomNonce := true;
    }

    /** Encrypts in place; drawn is the nonce that the random generator gives when one is wanted. */
    method Encrypt(buffer: array<Byte>, metablock: array<Byte>, size: nat, drawn: Nonce)
      requires size < W32 && size <= buffer.Length && metablock.Length == 32 && buffer != metablock
      modifies buffer, metablock
      ensures var n := if randomNonce then drawn else nonce;
        && buffer[..] == Splice(old(buffer[..]), 0, EsText(Fn(), n, old(buffer[..size])))
        && metablock[..] == Meta(Fn(), n, old(buffer[..size]))
        && Sealed(Fn(), n, old(buffer[..size]), buffer[..size], metablock[..])
    {
      hide Sealed, CtrText, CbcMac, Tag, Tags, IsFirst, IsCounter, Rev, AddCtr, Splice, XorSeq, B0, Ctr0, SizeBlock, Flags;
      ghost var x := buffer[..size];
      var n := if randomNonce then drawn else nonce;
      var ctx := new DsiContext(cipher);
      InitCcm(ctx, key, 16, size, false, n);
      var mac := new Byte[16](_ => 0);
      EncryptCcm(ctx, buffer, buffer, size, mac);
      PutMeta(ctx, metablock, mac, n, size, x);
      SealedInPlace(Fn(), n, old(buffer[..]), x, buffer[..], metablock[..]);
    }

    /** The meta block from the tag, the nonce and the size. */
    method PutMeta(ctx: DsiContext, metablock: array<Byte>, mac: array<Byte>, n: Nonce, size: nat, ghost x: seq<Byte>)
      requires ctx.cipher == cipher && metablock.Length == 32 && mac.Length == 16 && metablock != mac
      requires size < W32 && |x| == size && mac[..] == EsTag(Fn(), n, x)
      modifies ctx, metablock
      ensures metablock[..] == Meta(Fn(), n, x)
    {
      hide EsTag, Rev, AddCtr, XorSeq, SizeBlock, Meta;
      var scratch := new Byte[16](_ => 0);
      PutSize(scratch, size);
      ctx.SetKey(key);
      ctx.SetCtr([0] + n + [0, 0, 0]);
      SealMeta(ctx, metablock, scratch, mac, n, size);
      MetaParts(Fn(), n, x, metablock[..]);
    }

    /** The decrypted size block. */
    method OpenMeta(metablock: array<Byte>) returns (b: Block)
      requires metablock.Length == 32
      ensures b == MetaSize(Fn(), metablock[..])
    {
      hide Rev, AddCtr, Splice, XorSeq;
      var n: Nonce := metablock[17..29];
      var ctr := metablock[16..];
      ctr := ctr[0 := 0][13 := 0][14 := 0][15 := 0];
      assert ctr == [0] + n + [0, 0, 0];
      var ctx := new DsiContext(cipher);
      ctx.SetKey(key);
      ctx.SetCtr(ctr);
      var scratch := new Byte[16](_ => 0);
      assert metablock[16..16 + 16] == metablock[16..];
      SpliceWhole(scratch[..], MetaSize(Fn(), metablock[..]));
      ctx.CryptBlock(metablock, 16, scratch, 0);
      b := scratch[..];
    }

    /** Decrypts in place and says what is wrong: no container, another size, a wrong tag. */
    method Decrypt(buffer: array<Byte>, metablock: array<Byte>, size: nat) returns (r: int)
      requires size < W32 && size <= buffer.Length && metablock.Length == 32 && buffer != metablock
      modifies buffer
      ensures r == Verdict(Fn(), metablock[..], old(buffer[..size]))
      ensures buffer[..] == if r == -1 || r == -2 then old(buffer[..])
        else Splice(old(buffer[..]), 0, EsText(Fn(), MetaNonce(metablock[..]), old(buffer[..size])))
    {
      hide CtrText, CbcMac, Tag, Tags, IsFirst, IsCounter, Rev, AddCtr, Splice, XorSeq, B0, Ctr0, SizeBlock, Flags, MetaSize;
      var b := OpenMeta(metablock);
      if b[0] != MAGIC {
        return -1;
      }
      if Field(b) != size {
        return -2;
      }
      var ctx := new DsiContext(cipher);
      InitCcm(ctx, key, 16, size, false, metablock[17..29]);
      var mac := new Byte[16](_ => 0);
      DecryptCcm(ctx, buffer, buffer, size, mac);
      if mac[..] != metablock[..16] {
        return -3;
      }
      return 0;
    }
  }

  lemma SealedInPlace(e: BlockFn, nonce: Nonce, was: seq<Byte>, x: seq<Byte>, now: seq<Byte>, m: seq<Byte>)
    requires |x| <= |was| && now == Splice(was, 0, EsText(e, nonce, x)) && m == Meta(e, nonce, x)
    ensures |x| <= |now| && Sealed(e, nonce, x, now[..|x|], m)
  {
    hide EsText, Meta, Sealed;
    ContainerIsSealed(e, nonce, x);
    assert now[..|x|] == EsText(e, nonce, x);
  }

  method PutSize(scratch: array<Byte>, size: nat)
    requires scratch.Length == 16 && forall i :: 0 <= i < 16 ==> scratch[i] == 0
    modifies scratch
    ensures scratch[..] == SizeBlock(size)
  {
    scratch[0] := MAGIC;
    scratch[13] := size / 0x1_0000 % 256;
    scratch[14] := size / 0x100 % 256;
    scratch[15] := size % 256;
  }

  /** The size block is encrypted into the second half, then the nonce and the tag are put over it. */
  method SealMeta(ctx: DsiContext, metablock: array<Byte>, scratch: array<Byte>, mac: array<Byte>, n: Nonce, size: nat)
    requires metablock.Length == 32 && scratch.Length == 16 && mac.Length == 16
    requires metablock != scratch && metablock != mac
    modifies ctx`ctr, metablock
    ensures metablock[..16] == mac[..] && metablock[17..29] == n
    ensures var h := XorSeq(Rev(ctx.aes(old(ctx.ctr))), scratch[..]);
      metablock[16] == h[0] && metablock[29..] == h[13..]
  {
    hide Rev, AddCtr, Xor;
    assert scratch[0..0 + 16] == scratch[..];
    ghost var h := XorSeq(Rev(ctx.aes(ctx.ctr)), scratch[..]);
    ctx.CryptBlock(scratch, 0, metablock, 16);
    assert forall i :: 16 <= i < 32 ==> metablock[i] == h[i - 16];
    for i := 0 to 12
      invariant metablock[16] == h[0] && forall j :: 29 <= j < 32 ==> metablock[j] == h[j - 16]
      invariant forall j :: 17 <= j < 17 + i ==> metablock[j] == n[j - 17]
    {
      metablock[17 + i] := n[i];
    }
    for i := 0 to 16
      invariant metablock[16] == h[0] && forall j :: 29 <= j < 32 ==> metablock[j] == h[j - 16]
      invariant forall j :: 17 <= j < 29 ==> metablock[j] == n[j - 17]
      invariant forall j :: 0 <= j < i ==> metablock[j] == mac[j]
    {
      metablock[i] := mac[i];
    }
    MetaSlices(metablock[..], mac[..], n, h);
  }

  lemma MetaSlices(m: seq<Byte>, mac: seq<Byte>, n: Nonce, h: seq<Byte>)
    requires |m| == 32 && |mac| == |h| == 16
    requires forall j :: 0 <= j < 16 ==> m[j] == mac[j]
    requires forall j :: 17 <= j < 29 ==> m[j] == n[j - 17]
    requires forall j :: 29 <= j < 32 ==> m[j] == h[j - 16]
    ensures m[..16] == mac && m[17..29] == n && m[29..] == h[13..]
  {
  }

  lemma MetaParts(e: BlockFn, n: Nonce, x: seq<Byte>, m: seq<Byte>)
    requires |m| == 32 && m[..16] == EsTag(e, n, x) && m[17..29] == n
    requires var h := XorBlock(SizeStream(e, n), SizeBlock(|x|)); m[16] == h[0] && m[29..] == h[13..]
    ensures m == Meta(e, n, x)
  {
    hide EsTag, SizeStream, SizeBlock, XorSeq;
    assert m == m[..16] + [m[16]] + m[17..29] + m[29..];
  }

  // ---------- round trip ----------

  lemma SizeBytes(size: nat)
    ensures Field(SizeBlock(size)) == size % 0x100_0000
  {
    ThreeBytes(size);
  }

  /** What decryption reads from a meta block that encryption made. */
  lemma MetaBack(e: BlockFn, n: Nonce, x: seq<Byte>)
    requires |x| < W32
    ensures var m := Meta(e, n, x);
      && MetaNonce(m) == n && m[..16] == EsTag(e, n, x)
      && MetaSize(e, m)[0] == MAGIC && Field(MetaSize(e, m)) == |x| % 0x100_0000
  {
    hide EsTag, SizeStream, Xor;
    var m, s, p := Meta(e, n, x), SizeStream(e, n), SizeBlock(|x|);
    assert MetaNonce(m) == n;
    var b := MetaSize(e, m);
    assert m[16] == Xor(s[0], p[0]) && m[29] == Xor(s[13], p[13]);
    assert m[30] == Xor(s[14], p[14]) && m[31] == Xor(s[15], p[15]);
    XorUndo(p[0], s[0]);
    XorUndo(p[13], s[13]);
    XorUndo(p[14], s[14]);
    XorUndo(p[15], s[15]);
    SizeBytes(|x|);
  }

  /**
   * Decryption after encryption, for every key, nonce and text: it succeeds exactly when the size fits in three
   * bytes, and then it gives the text back.
   */
  lemma RoundTrip(e: BlockFn, n: Nonce, x: seq<Byte>)
    requires |x| < W32
    ensures var m, y := Meta(e, n, x), EsText(e, n, x);
      && MetaNonce(m) == n && EsText(e, n, y) == x
      && (Verdict(e, m, y) == 0 <==> |x| < 0x100_0000)
      && (|x| >= 0x100_0000 ==> Verdict(e, m, y) == -2)
  {
    hide EsTag, Field, MetaSize, Meta, AddCtr;
    MetaBack(e, n, x);
    CtrUndo(e, Start(e, n), x);
  }

  /** A container is accepted exactly when it is the one that encryption makes of what decryption gives. */
  lemma AcceptedExactlyWhen(e: BlockFn, m: seq<Byte>, y: seq<Byte>)
    requires |m| == 32 && |y| < W32
    ensures var n := MetaNonce(m);
      Verdict(e, m, y) == 0 <==> |y| < 0x100_0000 && m == Meta(e, n, EsText(e, n, y))
  {
    hide EsTag, EsText, Meta, MetaSize, SizeBlock, Field;
    var n := MetaNonce(m);
    var x := EsText(e, n, y);
    SizeBytes(|y|);
    if Verdict(e, m, y) == 0 {
      Below(MetaSize(e, m));
      SizeBack(e, m, |y|);
      MetaParts(e, n, x, m);
    } else if |y| < 0x100_0000 && m == Meta(e, n, x) {
      MetaBack(e, n, x);
    }
  }

  lemma Below(b: Block)
    ensures 0 <= Field(b) < 0x100_0000
  {
  }

  /** A size block that opens to the magic number and the size was masked from them. */
  lemma SizeBack(e: BlockFn, m: seq<Byte>, size: nat)
    requires |m| == 32 && MetaSize(e, m)[0] == MAGIC && Field(MetaSize(e, m)) == size < 0x100_0000
    ensures var h := XorBlock(SizeStream(e, MetaNonce(m)), SizeBlock(size)); m[16] == h[0] && m[29..] == h[13..]
  {
    hide SizeStream, Xor, Field, MetaNonce;
    var b, s, p := MetaSize(e, m), SizeStream(e, MetaNonce(m)), SizeBlock(size);
    SizeBytes(size);
    SameField(b, p);
    assert b[0] == Xor(s[0], m[16]) && b[13] == Xor(s[13], m[29]);
    assert b[14] == Xor(s[14], m[30]) && b[15] == Xor(s[15], m[31]);
    XorUndo(m[16], s[0]);
    XorUndo(m[29], s[13]);
    XorUndo(m[30], s[14]);
    XorUndo(m[31], s[15]);
  }

  /** A container opened with another size is refused before the buffer is touched. */
  lemma WrongSize(e: BlockFn, n: Nonce, x: seq<Byte>, y: seq<Byte>)
    requires |x| < 0x100_0000 && |y| != |x|
    ensures Verdict(e, Meta(e, n, x), y) == -2
  {
    hide EsTag, Field, MetaSize, Meta, AddCtr;
    MetaBack(e, n, x);
  }

  /**
   * Encryption under a chosen nonce, or under the drawn one, and then decryption by any context with the same key
   * restore the buffer in place; in between the container is that of the nonce.
   */
  method EncryptThenDecrypt(es: EsContext, other: EsContext, buffer: array<Byte>, metablock: array<Byte>, size: nat,
                            chosen: bool, nonce: Nonce, drawn: Nonce)
    returns (r: int)
    requires size < 0x100_0000 && size <= buffer.Length && metablock.Length == 32 && buffer != metablock
    requires other.cipher == es.cipher && other.key == es.key
    modifies es`nonce, es`randomNonce, buffer, metablock
    ensures r == 0 && buffer[..] == old(buffer[..])
    ensures metablock[..] == Meta(es.Fn(), if chosen then nonce else drawn, old(buffer[..size]))
  {
    hide EsText, Meta, Verdict, Splice;
    ghost var was, x := buffer[..], buffer[..size];
    ghost var n, e := if chosen then nonce else drawn, es.Fn();
    if chosen {
      es.SetNonce(nonce);
    } else {
      es.SetRandomNonce();
    }
    es.Encrypt(buffer, metablock, size, drawn);
    RoundTrip(e, n, x);
    PrefixOf(was, EsText(e, n, x), x);
    r := other.Decrypt(buffer, metablock, size);
  }

  lemma PrefixOf(was: seq<Byte>, y: seq<Byte>, x: seq<Byte>)
    requires |x| == |y| <= |was| && x == was[..|x|]
    ensures Splice(was, 0, y)[..|y|] == y
    ensures Splice(Splice(was, 0, y), 0, x) == was
  {
  }
}
