/** The console's key scrambler: the exclusive or of two keys, plus a constant, rotated by 42. */
module FXy {
  import opened Bytes
  import U128

  const KEY_MAGIC: Block :=
    [0x79, 0x3e, 0x4f, 0x1a, 0x5f, 0x0f, 0x68, 0x2a, 0x58, 0x02, 0x59, 0x29, 0x4e, 0xfb, 0xfe, 0xff]

  /** The sum of two blocks as 128-bit numbers. */
  ghost function Plus(a: Block, b: Block): Block {
    ToLe((LeValue(a) + LeValue(b)) % W128)
  }

  /** The normal key made from key X and key Y. */
  ghost function NormalKey(x: Block, y: Block): Block {
    U128.Lrot(Plus(XorBlock(x, y), KEY_MAGIC), 42)
  }

  const MAGIC_NUMBER := 0xFFFE_FB4E_2959_0258_2A68_0F5F_1A4F_3E79

  lemma MagicNumber()
    ensures LeValue(KEY_MAGIC) == MAGIC_NUMBER
  {
    hide LeValue;
    LeWords(KEY_MAGIC);
    assert WordLe(KEY_MAGIC, 0) == 0x1A4F_3E79 && WordLe(KEY_MAGIC, 4) == 0x2A68_0F5F;
    assert WordLe(KEY_MAGIC, 8) == 0x2959_0258 && WordLe(KEY_MAGIC, 12) == 0xFFFE_FB4E;
  }

  /** The normal key as a number: the sum of the exclusive or and the constant, modulo 2^128, and its bit j - 42 at place j. */
  lemma NormalBits(x: Block, y: Block, sum: Block, j: nat)
    requires LeValue(sum) == (LeValue(XorBlock(x, y)) + MAGIC_NUMBER) % W128 && j < 128
    ensures U128.BitOf(NormalKey(x, y), j) == U128.BitOf(sum, (j - 42) % 128)
  {
    hide LeValue, U128.Lrot, XorBlock, ToLe;
    MagicNumber();
    IsPlus(sum, XorBlock(x, y), KEY_MAGIC);
    var i := (j - 42) % 128;
    assert (i + 42) % 128 == j;
    U128.RotationMovesBits(sum, 42, i);
  }

  lemma PlusComm(a: Block, b: Block)
    ensures Plus(a, b) == Plus(b, a)
  {
  }

  /** A block whose number is the sum is the sum. */
  lemma IsPlus(s: Block, a: Block, b: Block)
    requires LeValue(s) == (LeValue(a) + LeValue(b)) % W128
    ensures s == Plus(a, b)
  {
    ToLeValue(LeValue(s));
    LeValueInjective(s, Plus(a, b));
  }

  lemma PlusMinus(s: Block, a: Block, b: Block)
    requires LeValue(s) == (LeValue(Plus(a, b)) - LeValue(b)) % W128
    ensures s == a
  {
    hide LeValue;
    var x, y := LeValue(a), LeValue(b);
    ToLeValue((x + y) % W128);
    RangeOf(a);
    RangeOf(b);
    assert ((x + y) % W128 - y) % W128 == x by { SumBack(x, y); }
    LeValueInjective(s, a);
  }

  lemma RangeOf(a: Block)
    ensures 0 <= LeValue(a) < W128
  {
  }

  lemma SumBack(x: int, y: int)
    requires 0 <= x < W128 && 0 <= y < W128
    ensures ((x + y) % W128 - y) % W128 == x
  {
    if x + y < W128 {
    } else {
      assert (x + y) % W128 == x + y - W128;
    }
  }

  /** F_XY. */
  method Scramble(key: array<Byte>, keyX: array<Byte>, keyY: array<Byte>)
    requires key.Length == 16 && keyX.Length == 16 && keyY.Length == 16
    modifies key
    ensures key[..] == NormalKey(old(keyX[..]), old(keyY[..]))
  {
    hide Xor, LeValue, U128.Lrot, ToLe;
    var xy := new Byte[16](_ => 0);
    for i := 0 to 16
      invariant forall j :: 0 <= j < i ==> xy[j] == Xor(old(keyX[j]), old(keyY[j]))
      invariant keyX[..] == old(keyX[..]) && keyY[..] == old(keyY[..])
    {
      xy[i] := Xor(keyX[i], keyY[i]);
    }
    assert xy[..] == XorBlock(old(keyX[..]), old(keyY[..]));
    FillMagic(key);
    U128.Add(key, xy);
    IsPlus(key[..], KEY_MAGIC, xy[..]);
    PlusComm(KEY_MAGIC, xy[..]);
    U128.LrotInPlace(key, 42);
  }

  method FillMagic(key: array<Byte>)
    requires key.Length == 16
    modifies key
    ensures key[..] == KEY_MAGIC
  {
    for i := 0 to 16
      invariant forall j :: 0 <= j < i ==> key[j] == KEY_MAGIC[j]
    {
      key[i] := KEY_MAGIC[i];
    }
  }

  /** The exclusive or of the two keys, made back from a normal key. */
  ghost function KeysOf(key: Block): Block {
    ToLe((LeValue(U128.Rrot(key, 42)) - LeValue(KEY_MAGIC)) % W128)
  }

  /** The way back undoes the way there, for all keys. */
  lemma Unscrambled(x: Block, y: Block)
    ensures KeysOf(NormalKey(x, y)) == XorBlock(x, y)
  {
    hide Xor, LeValue, U128.Lrot, U128.Rrot, XorBlock, ToLe;
    var sum := Plus(XorBlock(x, y), KEY_MAGIC);
    U128.RotationUndone(sum, 42);
    var v := (LeValue(sum) - LeValue(KEY_MAGIC)) % W128;
    ToLeValue(v);
    PlusMinus(ToLe(v), XorBlock(x, y), KEY_MAGIC);
  }

  /** F_XY_reverse. */
  method Unscramble(key: array<Byte>, xy: array<Byte>)
    requires key.Length == 16 && xy.Length == 16
    modifies xy
    ensures xy[..] == KeysOf(old(key[..]))
  {
    hide LeValue, U128.Rrot, ToLe;
    U128.CopyBlock(xy, key);
    U128.RrotInPlace(xy, 42);
    ghost var back: Block := xy[..];
    var magic := new Byte[16](_ => 0);
    FillMagic(magic);
    U128.Sub(xy, magic);
    ToLeValue(LeValue(xy[..]));
    LeValueInjective(xy[..], KeysOf(old(key[..])));
  }

  /** The key derivation written inline in the loader and in generate_key: it leaves the same key as F_XY. */
  method ScrambleInline(key: array<Byte>, keyY: array<Byte>)
    requires key.Length == 16 && keyY.Length == 16 && key != keyY
    modifies key
    ensures key[..] == NormalKey(old(key[..]), keyY[..])
  {
    hide LeValue, U128.Lrot, ToLe, XorBlock;
    var magic := new Byte[16](_ => 0);
    FillMagic(magic);
    U128.XorWith(key, keyY);
    ghost var xy := key[..];
    U128.Add(key, magic);
    IsPlus(key[..], xy, KEY_MAGIC);
    U128.LrotInPlace(key, 42);
  }
}
