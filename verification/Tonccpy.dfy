/** Copy and fill for memory that takes only halfword and word stores, over one flat byte memory. */
module Tonccpy {
  import opened Bytes
  import opened MachineWords
  import Bits

  // ---------- halfword and word accesses ----------

  function Load16(m: seq<Byte>, a: nat): nat
    requires a + 2 <= |m|
  {
    var lo: nat, hi: nat := m[a], m[a + 1];
    lo + 0x100 * hi
  }

  method Store16(mem: array<Byte>, a: nat, v: nat)
    requires a + 2 <= mem.Length && a % 2 == 0 && v < 0x1_0000
    modifies mem
    ensures mem[..] == Splice(old(mem[..]), a, [v % 256, v / 0x100])
  {
    mem[a] := v % 256;
    mem[a + 1] := v / 0x100;
  }

  function Load32(m: seq<Byte>, a: nat): Word
    requires a + 4 <= |m|
  {
    Pack(m[a], m[a + 1], m[a + 2], m[a + 3])
  }

  function WordBytes(w: Word): seq<Byte> {
    [ByteOf(w, 0), ByteOf(w, 1), ByteOf(w, 2), ByteOf(w, 3)]
  }

  method Store32(mem: array<Byte>, a: nat, w: Word)
    requires a + 4 <= mem.Length && a % 4 == 0
    modifies mem
    ensures mem[..] == Splice(old(mem[..]), a, WordBytes(w))
  {
    hide ByteOf;
    mem[a] := ByteOf(w, 0);
    mem[a + 1] := ByteOf(w, 1);
    mem[a + 2] := ByteOf(w, 2);
    mem[a + 3] := ByteOf(w, 3);
  }

  lemma LoadedBytes(m: seq<Byte>, a: nat)
    requires a + 4 <= |m|
    ensures WordBytes(Load32(m, a)) == m[a..a + 4]
  {
    hide ByteOf, Pack;
    PackBytes(m[a], m[a + 1], m[a + 2], m[a + 3]);
  }

  // ---------- the state of a copy ----------

  /** The first k bytes of x have been copied to dst, and x is still whole at src. */
  ghost predicate Copied(was: seq<Byte>, now: seq<Byte>, dst: nat, src: nat, x: seq<Byte>, k: nat) {
    && k <= |x| && dst + |x| <= |was| && src + |x| <= |now|
    && now == Splice(was, dst, x[..k]) && now[src..src + |x|] == x
  }

  ghost predicate Apart(dst: nat, src: nat, size: nat) {
    src + size <= dst || dst + size <= src
  }

  lemma CopyStart(was: seq<Byte>, dst: nat, src: nat, size: nat)
    requires dst + size <= |was| && src + size <= |was|
    ensures Copied(was, was, dst, src, was[src..src + size], 0)
  {
  }

  /** n more bytes. */
  lemma CopyOn(was: seq<Byte>, now: seq<Byte>, dst: nat, src: nat, x: seq<Byte>, k: nat, n: nat)
    requires Copied(was, now, dst, src, x, k) && k + n <= |x| && Apart(dst, src, |x|)
    ensures now[src + k..src + k + n] == x[k..k + n]
    ensures Copied(was, Splice(now, dst + k, x[k..k + n]), dst, src, x, k + n)
  {
    var t := Splice(now, dst + k, x[k..k + n]);
    CopyFits(was, now, dst, src, x, k);
    SubSlice(now, src, |x|, k, k + n);
    assert x[..k + n] == x[..k] + x[k..k + n];
    SpliceTwice(was, dst, x[..k], x[k..k + n]);
    forall i | 0 <= i < |x|
      ensures t[src..src + |x|][i] == x[i]
    {
      assert t[src + i] == now[src + i] == now[src..src + |x|][i];
    }
  }

  lemma CopyDone(was: seq<Byte>, now: seq<Byte>, dst: nat, src: nat, x: seq<Byte>)
    requires Copied(was, now, dst, src, x, |x|)
    ensures now == Splice(was, dst, x)
  {
    assert x[..|x|] == x;
  }

  // ---------- copying ----------

  /** One word. */
  method CopyWord(mem: array<Byte>, dst: nat, src: nat, ghost was: seq<Byte>, ghost x: seq<Byte>, k: nat)
    requires Copied(was, mem[..], dst, src, x, k) && k + 4 <= |x| && Apart(dst, src, |x|) && (dst + k) % 4 == 0
    modifies mem
    ensures Copied(was, mem[..], dst, src, x, k + 4)
  {
    hide Copied, Splice, Load32, WordBytes;
    CopyFits(was, mem[..], dst, src, x, k);
    CopyOn(was, mem[..], dst, src, x, k, 4);
    LoadedBytes(mem[..], src + k);
    Store32(mem, dst + k, Load32(mem[..], src + k));
  }

  lemma CopyFits(was: seq<Byte>, now: seq<Byte>, dst: nat, src: nat, x: seq<Byte>, k: nat)
    requires Copied(was, now, dst, src, x, k)
    ensures k <= |x| && dst + |x| <= |was| == |now| && src + |x| <= |now|
  {
  }

  /** n words. */
  method CopyWords(mem: array<Byte>, dst: nat, src: nat, ghost was: seq<Byte>, ghost x: seq<Byte>, k0: nat, n: nat)
    returns (k: nat)
    requires Copied(was, mem[..], dst, src, x, k0) && k0 + 4 * n <= |x| && Apart(dst, src, |x|) && (dst + k0) % 4 == 0
    modifies mem
    ensures k == k0 + 4 * n && (dst + k) % 4 == 0 && Copied(was, mem[..], dst, src, x, k)
  {
    hide Copied;
    k := k0;
    for i := 0 to n
      invariant k == k0 + 4 * i && (dst + k) % 4 == 0 && Copied(was, mem[..], dst, src, x, k)
    {
      CopyWord(mem, dst, src, was, x, k);
      k := k + 4;
    }
  }

  lemma FourParts(words: nat)
    ensures words == words % 4 + 4 * (words / 4)
  {
  }

  /** Duff's device: the words that are over first, then four at a time. */
  method DuffCopy(mem: array<Byte>, dst: nat, src: nat, size: nat, ghost was: seq<Byte>, ghost x: seq<Byte>)
    returns (k: nat)
    requires |x| == size && Copied(was, mem[..], dst, src, x, 0) && Apart(dst, src, size) && dst % 4 == 0
    modifies mem
    ensures k == 4 * (size / 4) && (dst + k) % 4 == 0 && Copied(was, mem[..], dst, src, x, k)
  {
    hide Copied, Apart;
    var words: nat := size / 4;
    FourParts(words);
    var tmp, count := words % 4, words / 4;
    k := CopyWords(mem, dst, src, was, x, 0, tmp);
    while count > 0
      invariant 0 <= count && k + 16 * count == 4 * words && (dst + k) % 4 == 0
      invariant Copied(was, mem[..], dst, src, x, k)
    {
      count := count - 1;
      k := CopyWords(mem, dst, src, was, x, k, 4);
    }
  }

  lemma KeepBelow(s: seq<Byte>, a: nat, b: Byte)
    requires 0 < a < |s|
    ensures Splice(s, a - 1, [s[a - 1], b]) == Splice(s, a, [b])
  {
  }

  lemma KeepAbove(s: seq<Byte>, a: nat, b: Byte)
    requires a + 1 < |s|
    ensures Splice(s, a, [b, s[a + 1]]) == Splice(s, a, [b])
  {
  }

  lemma HalfBytes(lo: nat, hi: nat)
    requires lo < 256 && hi < 256
    ensures (lo + 0x100 * hi) % 256 == lo && (lo + 0x100 * hi) / 0x100 == hi && lo + 0x100 * hi < 0x1_0000
  {
  }

  /** The first byte of an odd destination: the halfword it lies in keeps its low byte. */
  method HeadByte(mem: array<Byte>, dst: nat, src: nat, ghost was: seq<Byte>, ghost x: seq<Byte>)
    requires Copied(was, mem[..], dst, src, x, 0) && |x| >= 1 && Apart(dst, src, |x|) && dst % 2 == 1
    modifies mem
    ensures Copied(was, mem[..], dst, src, x, 1)
  {
    hide Copied, Splice;
    CopyFits(was, mem[..], dst, src, x, 0);
    CopyOn(was, mem[..], dst, src, x, 0, 1);
    ghost var now := mem[..];
    assert now[src..src + 1] == x[0..1] && now[src] == now[src..src + 1][0];
    var h, b: nat := Load16(mem[..], dst - 1), mem[src];
    HalfBytes(mem[dst - 1], mem[dst]);
    HalfBytes(h % 256, b);
    KeepBelow(now, dst, x[0]);
    assert x[0..1] == [x[0]];
    Store16(mem, dst - 1, h % 256 + 0x100 * b);
  }

  /** The last byte of an odd rest: the halfword it lies in keeps its high byte. */
  method TailByte(mem: array<Byte>, dst: nat, src: nat, ghost was: seq<Byte>, ghost x: seq<Byte>, k: nat)
    requires Copied(was, mem[..], dst, src, x, k) && k + 1 == |x| && Apart(dst, src, |x|)
    requires (dst + k) % 2 == 0 && mem.Length % 4 == 0
    modifies mem
    ensures Copied(was, mem[..], dst, src, x, k + 1)
  {
    hide Copied, Splice;
    CopyFits(was, mem[..], dst, src, x, k);
    CopyOn(was, mem[..], dst, src, x, k, 1);
    ghost var now := mem[..];
    assert now[src + k..src + k + 1] == x[k..k + 1] && now[src + k] == now[src + k..src + k + 1][0];
    var h, b: nat := Load16(mem[..], dst + k), mem[src + k];
    HalfBytes(mem[dst + k], mem[dst + k + 1]);
    HalfBytes(b, h / 0x100);
    KeepAbove(now, dst + k, x[k]);
    assert x[k..k + 1] == [x[k]];
    Store16(mem, dst + k, h / 0x100 * 0x100 + b);
  }

  /** Two bytes as a halfword. */
  method CopyHalf(mem: array<Byte>, dst: nat, src: nat, ghost was: seq<Byte>, ghost x: seq<Byte>, k: nat)
    requires Copied(was, mem[..], dst, src, x, k) && k + 2 <= |x| && Apart(dst, src, |x|) && (dst + k) % 2 == 0
    modifies mem
    ensures Copied(was, mem[..], dst, src, x, k + 2)
  {
    hide Copied, Splice;
    CopyFits(was, mem[..], dst, src, x, k);
    CopyOn(was, mem[..], dst, src, x, k, 2);
    ghost var now := mem[..];
    var lo: nat, hi: nat := mem[src + k], mem[src + k + 1];
    HalfBytes(lo, hi);
    assert now[src + k] == now[src + k..src + k + 2][0] && now[src + k + 1] == now[src + k..src + k + 2][1];
    assert x[k..k + 2] == [lo, hi];
    Store16(mem, dst + k, lo + 0x100 * hi);
  }

  /** tonccpy: address zero is the null pointer; memory ends at a whole word. */
  method Copy(mem: array<Byte>, dst: nat, src: nat, size: nat)
    requires mem.Length % 4 == 0
    requires dst != 0 && src != 0 ==> dst + size <= mem.Length && src + size <= mem.Length && Apart(dst, src, size)
    modifies mem
    ensures mem[..] == if dst == 0 || src == 0 then old(mem[..])
      else Splice(old(mem[..]), dst, old(mem[src..src + size]))
  {
    hide Copied, Splice;
    if size == 0 || dst == 0 || src == 0 {
      if dst != 0 && src != 0 {
        CopyStart(mem[..], dst, src, 0);
        CopyDone(mem[..], mem[..], dst, src, mem[src..src + 0]);
      }
      return;
    }
    ghost var was, x := mem[..], mem[src..src + size];
    CopyStart(was, dst, src, size);
    var k := CopyFront(mem, dst, src, size, was, x);
    if k < size {
      CopyRest(mem, dst, src, was, x, k, size - k);
    }
    CopyDone(was, mem[..], dst, src, x);
  }

  lemma EvenWord(a: nat)
    requires a % 4 == 0
    ensures a % 2 == 0
  {
    var q := 2 * (a / 4);
    assert a == 2 * q;
    TwiceEven(q);
  }

  lemma TwiceEven(q: nat)
    ensures 2 * q % 2 == 0
  {
  }

  lemma OddNext(a: nat)
    requires a % 2 != 0
    ensures (a + 1) % 2 == 0
  {
  }

  /** Words where both addresses allow it, or else the single byte that makes the destination even. */
  method CopyFront(mem: array<Byte>, dst: nat, src: nat, size: nat, ghost was: seq<Byte>, ghost x: seq<Byte>)
    returns (k: nat)
    requires |x| == size && 0 < size && Copied(was, mem[..], dst, src, x, 0) && Apart(dst, src, size)
    modifies mem
    ensures k <= size && (k < size ==> (dst + k) % 2 == 0) && Copied(was, mem[..], dst, src, x, k)
  {
    hide Copied;
    if src % 4 == 0 && dst % 4 == 0 && size >= 4 {
      k := DuffCopy(mem, dst, src, size, was, x);
      EvenWord(dst + k);
    } else if dst % 2 != 0 {
      HeadByte(mem, dst, src, was, x);
      k := 1;
      OddNext(dst);
    } else {
      k := 0;
    }
  }

  /** Two bytes at a time, then the byte that is over. */
  method CopyRest(mem: array<Byte>, dst: nat, src: nat, ghost was: seq<Byte>, ghost x: seq<Byte>, k0: nat, left: nat)
    requires Copied(was, mem[..], dst, src, x, k0) && k0 + left == |x| && Apart(dst, src, |x|)
    requires (dst + k0) % 2 == 0 && mem.Length % 4 == 0
    modifies mem
    ensures Copied(was, mem[..], dst, src, x, |x|)
  {
    hide Copied;
    var count, k := left / 2, k0;
    while count > 0
      invariant 0 <= count && k + 2 * count + left % 2 == k0 + left && (dst + k) % 2 == 0 && 0 <= k
      invariant Copied(was, mem[..], dst, src, x, k)
    {
      count := count - 1;
      CopyHalf(mem, dst, src, was, x, k);
      k := k + 2;
    }
    if left % 2 == 1 {
      TailByte(mem, dst, src, was, x, k);
    }
  }

  // ---------- filling ----------

  /** The byte of the pattern that belongs to an address: the one at its place in a word. */
  function PatternByte(fill: Word, a: nat): Byte {
    ByteOf(fill, a % 4)
  }

  /** n bytes of the pattern from address a on. */
  function Pattern(fill: Word, a: nat, n: nat): (p: seq<Byte>)
    ensures |p| == n && forall i :: 0 <= i < n ==> p[i] == PatternByte(fill, a + i)
  {
    seq<Byte>(n, i requires 0 <= i < n => PatternByte(fill, a + i))
  }

  /** The low n bits. */
  function BitMask(n: nat): Word
    requires n < 32
  {
    Bits.Two32();
    Bits.TwoMono(n, 32);
    Bits.Two(n) - 1
  }

  /** The bits of the bytes from lo up to hi. */
  function PartMask(lo: nat, hi: nat): Word
    requires lo <= hi <= 4 && hi - lo < 4
  {
    PartMaskBytes(lo, hi);
    BitMask((hi - lo) * 8) * Bits.Two(lo * 8)
  }

  lemma PartMaskBytes(lo: nat, hi: nat)
    requires lo <= hi <= 4 && hi - lo < 4
    ensures BitMask((hi - lo) * 8) * Bits.Two(lo * 8)
      == MaskOf(lo <= 0 < hi, lo <= 1 < hi, lo <= 2 < hi, lo <= 3 < hi)
  {
    hide Bits.Two;
    ByteWeights();
    if lo == 0 {
    } else if lo == 1 {
    } else if lo == 2 {
    } else if lo == 3 {
    }
  }

  lemma ByteWeights()
    ensures Bits.Two(0) == 1 && Bits.Two(8) == 0x100 && Bits.Two(16) == 0x1_0000 && Bits.Two(24) == 0x100_0000
    ensures Bits.Two(32) == 0x1_0000_0000
  {
    Bits.Two32();
    Bits.TwoAdd(8, 16);
  }

  /** The word a masked read-modify-write stores. */
  function Merge(w: Word, fill: Word, mask: Word): Word {
    OrWord(AndWord(w, NotWord(mask)), AndWord(fill, mask))
  }

  /** A word with its bytes from lo up to hi taken from another. */
  function Masked(w: Word, fill: Word, lo: nat, hi: nat): Word {
    Pack(MaskedByte(w, fill, lo, hi, 0), MaskedByte(w, fill, lo, hi, 1),
         MaskedByte(w, fill, lo, hi, 2), MaskedByte(w, fill, lo, hi, 3))
  }

  function MaskedByte(w: Word, fill: Word, lo: nat, hi: nat, j: nat): Byte
    requires j < 4
  {
    Select(ByteOf(w, j), ByteOf(fill, j), lo <= j < hi)
  }

  /** The mask arithmetic takes exactly the bytes from lo up to hi. */
  lemma MergePart(w: Word, fill: Word, lo: nat, hi: nat)
    requires lo <= hi <= 4 && hi - lo < 4
    ensures Merge(w, fill, PartMask(lo, hi)) == Masked(w, fill, lo, hi)
  {
    hide ByteOf, OrWord, AndWord, NotWord, MaskOf, Select;
    PartMaskBytes(lo, hi);
    MaskedWord(w, fill, lo <= 0 < hi, lo <= 1 < hi, lo <= 2 < hi, lo <= 3 < hi);
  }

  lemma MergeTail(w: Word, fill: Word, hi: nat)
    requires hi < 4
    ensures Merge(w, fill, BitMask(hi * 8)) == Masked(w, fill, 0, hi)
  {
    hide Masked, Merge, BitMask;
    MergePart(w, fill, 0, hi);
  }

  /** At the head the mask is that of the bytes to keep. */
  lemma MergeHead(w: Word, fill: Word, lo: nat)
    requires lo < 4
    ensures Merge(w, fill, NotWord(BitMask(lo * 8))) == Masked(w, fill, lo, 4)
    ensures NotWord(NotWord(BitMask(lo * 8))) == BitMask(lo * 8)
  {
    hide ByteOf, OrWord, AndWord, MaskOf, Select, Bits.Two;
    PartMaskBytes(0, lo);
    ByteWeights();
    NotMask(0 < lo, 1 < lo, 2 < lo, 3 < lo);
    MaskedWord(w, fill, lo <= 0, lo <= 1, lo <= 2, lo <= 3);
  }

  lemma MaskedPlace(s: seq<Byte>, a: nat, fill: Word, lo: nat, hi: nat, j: nat)
    requires a + 4 <= |s| && a % 4 == 0 && lo <= hi <= 4 && j < 4
    ensures WordBytes(Masked(Load32(s, a), fill, lo, hi))[j] == if lo <= j < hi then PatternByte(fill, a + j) else s[a + j]
  {
    hide ByteOf, Pack;
    var w := Load32(s, a);
    assert (a + j) % 4 == j;
    PackBytes(s[a], s[a + 1], s[a + 2], s[a + 3]);
    PackBytes(MaskedByte(w, fill, lo, hi, 0), MaskedByte(w, fill, lo, hi, 1),
              MaskedByte(w, fill, lo, hi, 2), MaskedByte(w, fill, lo, hi, 3));
  }

  lemma MaskedBytes(s: seq<Byte>, a: nat, fill: Word, lo: nat, hi: nat)
    requires a + 4 <= |s| && a % 4 == 0 && lo <= hi <= 4
    ensures Splice(s, a, WordBytes(Masked(Load32(s, a), fill, lo, hi))) == Splice(s, a + lo, Pattern(fill, a + lo, hi - lo))
  {
    hide PatternByte, Masked, Load32;
    var b := WordBytes(Masked(Load32(s, a), fill, lo, hi));
    MaskedPlace(s, a, fill, lo, hi, 0);
    MaskedPlace(s, a, fill, lo, hi, 1);
    MaskedPlace(s, a, fill, lo, hi, 2);
    MaskedPlace(s, a, fill, lo, hi, 3);
    hide WordBytes;
    var t, u := Splice(s, a, b), Splice(s, a + lo, Pattern(fill, a + lo, hi - lo));
    forall i | 0 <= i < |s|
      ensures t[i] == u[i]
    {
    }
  }

  lemma PlaceByte(fill: Word, a: nat, j: nat)
    requires a % 4 == 0 && j < 4
    ensures PatternByte(fill, a + j) == ByteOf(fill, j)
  {
    hide ByteOf;
    assert (a + j) % 4 == j;
  }

  lemma WordPattern(fill: Word, a: nat)
    requires a % 4 == 0
    ensures WordBytes(fill) == Pattern(fill, a, 4)
  {
    hide ByteOf, PatternByte;
    PlaceByte(fill, a, 0);
    PlaceByte(fill, a, 1);
    PlaceByte(fill, a, 2);
    PlaceByte(fill, a, 3);
  }

  lemma PatternJoin(fill: Word, a: nat, m: nat, n: nat)
    ensures Pattern(fill, a, m) + Pattern(fill, a + m, n) == Pattern(fill, a, m + n)
  {
    hide PatternByte;
    var p, q := Pattern(fill, a, m) + Pattern(fill, a + m, n), Pattern(fill, a, m + n);
    forall i | 0 <= i < m + n
      ensures p[i] == q[i]
    {
      if i >= m {
        assert a + m + (i - m) == a + i;
      }
    }
  }

  ghost predicate Filled(was: seq<Byte>, now: seq<Byte>, dst: nat, fill: Word, k: nat) {
    dst + k <= |was| && now == Splice(was, dst, Pattern(fill, dst, k))
  }

  lemma FillOn(was: seq<Byte>, now: seq<Byte>, dst: nat, fill: Word, k: nat, n: nat)
    requires Filled(was, now, dst, fill, k) && dst + k + n <= |was|
    ensures dst + k + n <= |now| && Filled(was, Splice(now, dst + k, Pattern(fill, dst + k, n)), dst, fill, k + n)
  {
    hide Pattern;
    SpliceTwice(was, dst, Pattern(fill, dst, k), Pattern(fill, dst + k, n));
    PatternJoin(fill, dst, k, n);
  }

  method FillWords(mem: array<Byte>, dst: nat, fill: Word, ghost was: seq<Byte>, k0: nat, n: nat) returns (k: nat)
    requires Filled(was, mem[..], dst, fill, k0) && dst + k0 + 4 * n <= mem.Length && (dst + k0) % 4 == 0
    modifies mem
    ensures k == k0 + 4 * n && Filled(was, mem[..], dst, fill, k)
  {
    hide Pattern, Splice, WordBytes;
    k := k0;
    for i := 0 to n
      invariant k == k0 + 4 * i && (dst + k) % 4 == 0 && Filled(was, mem[..], dst, fill, k)
    {
      FillOn(was, mem[..], dst, fill, k, 4);
      WordPattern(fill, dst + k);
      Store32(mem, dst + k, fill);
      k := k + 4;
    }
  }

  /** A masked word, of which the bytes from lo up to hi are filled. */
  method FillPart(mem: array<Byte>, a: nat, word: Word, ghost dst: nat, ghost fill: Word, ghost was: seq<Byte>,
                  ghost k: nat, ghost lo: nat, ghost hi: nat)
    requires Filled(was, mem[..], dst, fill, k) && a % 4 == 0 && a + 4 <= mem.Length && lo <= hi <= 4 && a + lo == dst + k
    requires word == Masked(Load32(mem[..], a), fill, lo, hi)
    modifies mem
    ensures Filled(was, mem[..], dst, fill, k + (hi - lo))
  {
    hide Pattern, Splice, WordBytes, Masked, Load32;
    FillOn(was, mem[..], dst, fill, k, hi - lo);
    MaskedBytes(mem[..], a, fill, lo, hi);
    Store32(mem, a, word);
  }

  /** __toncset. */
  method FillPattern(mem: array<Byte>, dst: nat, fill: Word, size: nat)
    requires mem.Length % 4 == 0 && (dst != 0 ==> dst + size <= mem.Length)
    modifies mem
    ensures mem[..] == if dst == 0 then old(mem[..]) else Splice(old(mem[..]), dst, Pattern(fill, dst, size))
  {
    hide Pattern, Splice, Load32, Masked, OrWord, AndWord, NotWord, BitMask, PartMask;
    ghost var was := mem[..];
    if dst == 0 {
      return;
    }
    NothingFilled(was, dst, fill);
    if size == 0 {
      return;
    }
    var left := dst % 4;
    if left != 0 && left + size < 4 {
      var w, mask := Load32(mem[..], dst - left), PartMask(left, left + size);
      MergePart(w, fill, left, left + size);
      FillPart(mem, dst - left, OrWord(AndWord(w, NotWord(mask)), AndWord(fill, mask)), dst, fill, was, 0, left, left + size);
      return;
    }
    var k: nat := 0;
    if left != 0 {
      var w, mask := Load32(mem[..], dst - left), BitMask(left * 8);
      MergeHead(w, fill, left);
      FillPart(mem, dst - left, OrWord(AndWord(w, mask), AndWord(fill, NotWord(mask))), dst, fill, was, 0, left, 4);
      k := 4 - left;
    }
    FillRest(mem, dst, fill, was, k, size - k);
  }

  /** Whole words, then the tail. */
  method FillRest(mem: array<Byte>, dst: nat, fill: Word, ghost was: seq<Byte>, k0: nat, rest: nat)
    requires Filled(was, mem[..], dst, fill, k0) && (dst + k0) % 4 == 0 && dst + k0 + rest <= mem.Length
    requires mem.Length % 4 == 0
    modifies mem
    ensures mem[..] == Splice(was, dst, Pattern(fill, dst, k0 + rest))
  {
    hide Pattern, Splice, Load32, Masked, OrWord, AndWord, NotWord, BitMask, Filled;
    var k := DuffFill(mem, dst, fill, was, k0, rest);
    if rest % 4 != 0 {
      var w, mask := Load32(mem[..], dst + k), BitMask(rest % 4 * 8);
      MergeTail(w, fill, rest % 4);
      FillPart(mem, dst + k, OrWord(AndWord(w, NotWord(mask)), AndWord(fill, mask)), dst, fill, was, k, 0, rest % 4);
    }
    AllFilled(was, mem[..], dst, fill, k0 + rest);
  }

  lemma AllFilled(was: seq<Byte>, now: seq<Byte>, dst: nat, fill: Word, k: nat)
    requires Filled(was, now, dst, fill, k)
    ensures dst + k <= |was| && now == Splice(was, dst, Pattern(fill, dst, k))
  {
  }

  lemma NothingFilled(was: seq<Byte>, dst: nat, fill: Word)
    requires dst <= |was|
    ensures Filled(was, was, dst, fill, 0)
  {
  }

  method DuffFill(mem: array<Byte>, dst: nat, fill: Word, ghost was: seq<Byte>, k0: nat, rest: nat) returns (k: nat)
    requires Filled(was, mem[..], dst, fill, k0) && (dst + k0) % 4 == 0 && dst + k0 + rest <= mem.Length
    modifies mem
    ensures k == k0 + rest / 4 * 4 && Filled(was, mem[..], dst, fill, k)
  {
    hide Filled;
    var words: nat := rest / 4;
    FourParts(words);
    var tmp, count := words % 4, words / 4;
    k := FillWords(mem, dst, fill, was, k0, tmp);
    while count > 0
      invariant 0 <= count && k + 16 * count == k0 + 4 * words && (dst + k) % 4 == 0
      invariant Filled(was, mem[..], dst, fill, k)
    {
      count := count - 1;
      k := FillWords(mem, dst, fill, was, k, 4);
    }
  }

  /** toncset: the byte in all four places. */
  method Fill(mem: array<Byte>, dst: nat, b: Byte, size: nat)
    requires mem.Length % 4 == 0 && (dst != 0 ==> dst + size <= mem.Length)
    modifies mem
    ensures mem[..] == if dst == 0 then old(mem[..]) else Splice(old(mem[..]), dst, seq(size, _ => b))
  {
    hide Splice, Pack;
    FillPattern(mem, dst, Pack(b, b, b, b), size);
    PlainPattern(b, dst, size);
  }

  lemma PlainPattern(b: Byte, dst: nat, size: nat)
    ensures Pattern(Pack(b, b, b, b), dst, size) == seq(size, _ => b)
  {
    hide Pack, ByteOf;
    PackBytes(b, b, b, b);
  }
}
