/** Card reads of any size and alignment: block by block, they come to one flat address map. */
module CardRead {
  import opened Bytes
  import Tonccpy

  /** Where the loader's static buffers lie. */
  datatype Layout = Layout(header: nat, secure: nat, twl: nat, tmp: nat)

  /** Where a byte of the card is taken from. */
  datatype Source = Header(i: nat) | Zeros | Secure(i: nat) | TwlBuffer(i: nat) | TwlLoaded(i: nat) | Card(sw: bool, a: nat)

  ghost predicate Separate(a: nat, n: nat, b: nat, m: nat) {
    a + n <= b || b + m <= a
  }

  class Reader {
    const mem: array<Byte>
    const at: Layout
    const romSize: nat
    const dsi: bool
    const region: nat
    const rom: (bool, nat) -> Byte
    const spill: (bool, nat, nat) -> Byte
    const twlArea: nat -> Byte
    var twl: bool

    constructor (memory: array<Byte>, layout: Layout, size: nat, dsiTitle: bool, twlRegion: nat,
                 card: (bool, nat) -> Byte, beyond: (bool, nat, nat) -> Byte, secureTwl: nat -> Byte)
      ensures mem == memory && at == layout && romSize == size && dsi == dsiTitle && region == twlRegion && !twl
      ensures rom == card && spill == beyond && twlArea == secureTwl
    {
      mem, at, romSize, dsi, region := memory, layout, size, dsiTitle, twlRegion;
      rom, spill, twlArea, twl := card, beyond, secureTwl, false;
    }

    /** The buffers, with the block that a read at their end may run over, lie in memory and apart from each other. */
    ghost predicate Valid() {
      && mem.Length % 4 == 0
      && 0 < at.header && at.header + 0x1200 <= mem.Length
      && 0 < at.secure && at.secure + 0x4200 <= mem.Length
      && 0 < at.twl && at.twl + 0x4200 <= mem.Length
      && 0 < at.tmp && at.tmp + 0x200 <= mem.Length
      && Separate(at.header, 0x1000, at.secure, 0x4000) && Separate(at.header, 0x1000, at.twl, 0x4000)
      && Separate(at.secure, 0x4000, at.twl, 0x4000)
      && Separate(at.tmp, 0x200, at.header, 0x1200) && Separate(at.tmp, 0x200, at.secure, 0x4200)
      && Separate(at.tmp, 0x200, at.twl, 0x4200)
    }

    /** n bytes at dest that touch none of the buffers. */
    ghost predicate Free(dest: nat, n: nat) {
      && 0 < dest && dest + n <= mem.Length
      && Separate(dest, n, at.header, 0x1200) && Separate(dest, n, at.secure, 0x4200)
      && Separate(dest, n, at.twl, 0x4200) && Separate(dest, n, at.tmp, 0x200)
    }

    /** Where the second secure area starts on the card; zero when there is none. */
    function TwlStart(): nat {
      if region != 0 then (region * 0x8_0000 + 0x3000) % 0x1_0000_0000 else 0
    }

    predicate InTwl(a: nat) {
      dsi && TwlStart() != 0 && TwlStart() <= a < TwlStart() + 0x4000
    }

    /** The address map: header, zeros, secure area, second secure area, card. */
    function Region(sw: bool, a: nat): Source {
      if a < 0x1000 then Header(a)
      else if a < 0x4000 then Zeros
      else if a < 0x8000 then Secure(a - 0x4000)
      else if InTwl(a) then TwlBuffer(a - TwlStart())
      else Card(sw, a)
    }

    /** The regions lie inside their buffers. */
    predicate Within(s: Source) {
      match s
      case Header(i) => i < 0x1000
      case Secure(i) => i < 0x4000
      case TwlBuffer(i) => i < 0x4000
      case TwlLoaded(i) => i < 0x4000
      case _ => true
    }

    /** The byte that a source gives. */
    ghost function ByteOf(m: seq<Byte>, s: Source): Byte
      requires Valid() && |m| == mem.Length && Within(s)
    {
      match s
      case Header(i) => m[at.header + i]
      case Zeros => 0
      case Secure(i) => m[at.secure + i]
      case TwlBuffer(i) => m[at.twl + i]
      case TwlLoaded(i) => twlArea(i)
      case Card(sw, a) => rom(sw, a)
    }

    ghost function MapByte(m: seq<Byte>, sw: bool, a: nat): Byte
      requires Valid() && |m| == mem.Length
    {
      ByteOf(m, Region(sw, a))
    }

    /** Reading past the first part of the card switches the key set over, once. */
    predicate Switches(sw: bool, src: nat) {
      dsi && !sw && src >= romSize
    }

    /** The buffers in m are those of m0, with the second secure area loaded if the switch has happened since. */
    ghost predicate Statics(m: seq<Byte>, m0: seq<Byte>, loaded: bool)
      requires Valid()
    {
      && |m| == |m0| == mem.Length
      && (forall i :: at.header <= i < at.header + 0x1000 ==> m[i] == m0[i])
      && (forall i :: at.secure <= i < at.secure + 0x4000 ==> m[i] == m0[i])
      && (forall i :: at.twl <= i < at.twl + 0x4000 ==> m[i] == if loaded then twlArea(i - at.twl) else m0[i])
    }

    /** What changed lies in the destination, the scratch block or the second secure area. */
    ghost predicate Elsewhere(m: seq<Byte>, m0: seq<Byte>, dest: nat, n: nat)
      requires Valid() && |m| == |m0| == mem.Length
    {
      forall i :: 0 <= i < |m| ==>
        dest <= i < dest + n || at.tmp <= i < at.tmp + 0x200 || at.twl <= i < at.twl + 0x4000 || m[i] == m0[i]
    }

    /** The switch: the second secure area is read from the card into its buffer. */
    method SwitchToTwl()
      requires Valid()
      modifies this`twl, mem
      ensures twl == (old(twl) || dsi)
      ensures Statics(mem[..], old(mem[..]), dsi && !old(twl))
      ensures forall i :: 0 <= i < mem.Length && !(at.twl <= i < at.twl + 0x4000) ==> mem[i] == old(mem[i])
    {
      if twl || !dsi {
        return;
      }
      for i := 0 to 0x4000
        invariant twl == old(twl)
        invariant forall j :: at.twl <= j < at.twl + i ==> mem[j] == twlArea(j - at.twl)
        invariant forall j :: 0 <= j < mem.Length && !(at.twl <= j < at.twl + i) ==> mem[j] == old(mem[j])
      {
        mem[at.twl + i] := twlArea(i);
      }
      twl := true;
    }

    /** A data block from the card into the scratch block; behind the end of the card's own block anything may follow. */
    method CardData(src: nat)
      requires Valid()
      modifies mem
      ensures forall i :: at.tmp <= i < at.tmp + 0x200 - src % 0x200 ==> mem[i] == rom(twl, src + (i - at.tmp))
      ensures forall i :: 0 <= i < mem.Length && !(at.tmp <= i < at.tmp + 0x200) ==> mem[i] == old(mem[i])
    {
      var inside := 0x200 - src % 0x200;
      for i := 0 to 0x200
        invariant forall j :: at.tmp <= j < at.tmp + i && j < at.tmp + inside ==> mem[j] == rom(twl, src + (j - at.tmp))
        invariant forall j :: 0 <= j < mem.Length && !(at.tmp <= j < at.tmp + 0x200) ==> mem[j] == old(mem[j])
      {
        mem[at.tmp + i] := if i < inside then rom(twl, src + i) else spill(twl, src, i);
      }
    }

    /** Copies a block from a buffer to dest. */
    method Take(dest: nat, from: nat)
      requires Valid() && Free(dest, 0x200) && 0 < from && from + 0x200 <= mem.Length && Separate(from, 0x200, dest, 0x200)
      modifies mem
      ensures forall i :: dest <= i < dest + 0x200 ==> mem[i] == old(mem[from + (i - dest)])
      ensures forall i :: 0 <= i < mem.Length && !(dest <= i < dest + 0x200) ==> mem[i] == old(mem[i])
    {
      hide Splice;
      ghost var was := mem[..];
      Tonccpy.Copy(mem, dest, from, 0x200);
      SplicedAt(was, dest, was[from..from + 0x200]);
      assert forall i :: 0 <= i < mem.Length ==> mem[i] == mem[..][i];
    }

    method Zero(dest: nat)
      requires Valid() && Free(dest, 0x200)
      modifies mem
      ensures forall i :: dest <= i < dest + 0x200 ==> mem[i] == 0
      ensures forall i :: 0 <= i < mem.Length && !(dest <= i < dest + 0x200) ==> mem[i] == old(mem[i])
    {
      hide Splice;
      ghost var was := mem[..];
      Tonccpy.Fill(mem, dest, 0, 0x200);
      SplicedAt(was, dest, seq<Byte>(0x200, _ => 0));
      assert forall i :: 0 <= i < mem.Length ==> mem[i] == mem[..][i];
    }

    /** All addresses up to the end of a block lie in the region of its start. */
    lemma OneRegion(src: nat, a: nat)
      requires src <= a < src + 0x200 - src % 0x200
      ensures src < 0x1000 <==> a < 0x1000
      ensures src < 0x4000 <==> a < 0x4000
      ensures src < 0x8000 <==> a < 0x8000
      ensures InTwl(src) <==> InTwl(a)
    {
      var q := src / 0x200;
      assert 0x200 * q <= src <= a < 0x200 * (q + 1);
      var r := (region * 0x8_0000 + 0x3000) % 0x1_0000_0000;
      StartAligned(region);
      var p := r / 0x200;
      assert r == 0x200 * p;
    }

    lemma StartAligned(n: nat)
      ensures (n * 0x8_0000 + 0x3000) % 0x1_0000_0000 % 0x200 == 0
    {
      var x := n * 0x8_0000 + 0x3000;
      var q, r := x / 0x1_0000_0000, x % 0x1_0000_0000;
      assert r == 0x200 * (n * 0x400 + 0x18 - q * 0x80_0000);
      Multiple(n * 0x400 + 0x18 - q * 0x80_0000);
    }

    lemma Multiple(k: int)
      ensures 0x200 * k % 0x200 == 0
    {
    }

    /** The block from its region. */
    method Fetch(src: nat, dest: nat)
      requires Valid() && Free(dest, 0x200)
      modifies mem
      ensures forall i :: dest <= i < dest + 0x200 - src % 0x200 ==> mem[i] == MapByte(old(mem[..]), twl, src + (i - dest))
      ensures forall i :: 0 <= i < mem.Length ==>
        dest <= i < dest + 0x200 || at.tmp <= i < at.tmp + 0x200 || mem[i] == old(mem[i])
    {
      hide InTwl, TwlStart;
      ghost var m := mem[..];
      forall a | src <= a < src + 0x200 - src % 0x200
        ensures (src < 0x1000 <==> a < 0x1000) && (src < 0x4000 <==> a < 0x4000) && (src < 0x8000 <==> a < 0x8000)
        ensures InTwl(src) <==> InTwl(a)
      {
        OneRegion(src, a);
      }
      if src < 0x1000 {
        Take(dest, at.header + src);
      } else if src < 0x4000 {
        Zero(dest);
      } else if src < 0x8000 {
        Take(dest, at.secure + (src - 0x4000));
      } else if InTwl(src) {
        TwlOffset(src);
        Take(dest, at.twl + (src - TwlStart()));
      } else {
        CardData(src);
        Take(dest, at.tmp);
      }
    }

    lemma TwlOffset(a: nat)
      requires InTwl(a)
      ensures TwlStart() <= a < TwlStart() + 0x4000
    {
    }

    /** One block of 0x200 bytes, of which those up to the end of the card's block are promised. */
    method ReadBlock(src: nat, dest: nat)
      requires Valid() && Free(dest, 0x200)
      modifies this`twl, mem
      ensures twl == (old(twl) || (dsi && src >= romSize))
      ensures Statics(mem[..], old(mem[..]), Switches(old(twl), src))
      ensures Elsewhere(mem[..], old(mem[..]), dest, 0x200)
      ensures forall i :: dest <= i < dest + 0x200 - src % 0x200 ==> mem[i] == MapByte(mem[..], twl, src + (i - dest))
    {
      hide InTwl, TwlStart, MapByte, Statics, Elsewhere;
      ghost var m0 := mem[..];
      if src >= romSize {
        SwitchToTwl();
      } else {
        NothingLoaded(m0);
      }
      ghost var m := mem[..];
      assert Outside(m, m0, at.twl, 0x4000, at.twl, 0x4000);
      Fetch(src, dest);
      ghost var m' := mem[..];
      assert Outside(m', m, dest, 0x200, at.tmp, 0x200);
      AfterFetch(m', m, m0, Switches(old(twl), src), twl, dest);
    }

    /** Only the two ranges differ. */
    ghost predicate Outside(m: seq<Byte>, m0: seq<Byte>, a: nat, n: nat, b: nat, k: nat) {
      |m| == |m0| && forall i :: 0 <= i < |m| ==> a <= i < a + n || b <= i < b + k || m[i] == m0[i]
    }

    lemma NothingLoaded(m: seq<Byte>)
      requires Valid() && |m| == mem.Length
      ensures Statics(m, m, false)
    {
    }

    /** What a block leaves as it was. */
    lemma AfterFetch(m': seq<Byte>, m: seq<Byte>, m0: seq<Byte>, loaded: bool, sw: bool, dest: nat)
      requires Valid() && Free(dest, 0x200) && Statics(m, m0, loaded)
      requires Outside(m, m0, at.twl, 0x4000, at.twl, 0x4000) && Outside(m', m, dest, 0x200, at.tmp, 0x200)
      ensures Statics(m', m0, loaded) && Elsewhere(m', m0, dest, 0x200)
      ensures forall a: nat :: MapByte(m', sw, a) == MapByte(m, sw, a)
    {
      forall a: nat
        ensures MapByte(m', sw, a) == MapByte(m, sw, a)
      {
        SameMap(m', m, sw, a);
      }
    }

    /** The map only looks at the buffers. */
    lemma SameMap(m: seq<Byte>, m0: seq<Byte>, sw: bool, a: nat)
      requires Valid() && |m| == |m0| == mem.Length
      requires forall i :: at.header <= i < at.header + 0x1000 ==> m[i] == m0[i]
      requires forall i :: at.secure <= i < at.secure + 0x4000 ==> m[i] == m0[i]
      requires forall i :: at.twl <= i < at.twl + 0x4000 ==> m[i] == m0[i]
      ensures MapByte(m, sw, a) == MapByte(m0, sw, a)
    {
      if InTwl(a) {
        TwlOffset(a);
      }
    }

    // ---------- reads of any size ----------

    /** Where the block starts that serves address a in a read from src: the first block starts at src itself. */
    function BlockOf(src: nat, a: nat): nat {
      if a < src + 0x200 - src % 0x200 then src else a / 0x200 * 0x200
    }

    /** Where a read from before takes address a from when it is served by a block at b, with the switch that b brings. */
    function ServedFrom(sw0: bool, b: nat, a: nat): Source {
      var from := Region(sw0 || (dsi && b >= romSize), a);
      if from.TwlBuffer? && Switches(sw0, b) then TwlLoaded(from.i) else from
    }

    /** The flat map, from memory and switch state before the read. */
    ghost function Flat(m0: seq<Byte>, sw0: bool, b: nat, a: nat): Byte
      requires Valid() && |m0| == mem.Length
    {
      ByteOf(m0, ServedFrom(sw0, b, a))
    }

    /** The map over the buffers as they are now is the flat map over those before. */
    lemma MapIsFlat(m: seq<Byte>, m0: seq<Byte>, sw0: bool, b: nat, a: nat)
      requires Valid() && Statics(m, m0, Switches(sw0, b))
      ensures MapByte(m, sw0 || (dsi && b >= romSize), a) == Flat(m0, sw0, b, a)
    {
      if InTwl(a) {
        TwlOffset(a);
      }
    }

    /** Blocks that come later see the buffers as they were left. */
    lemma StaticsNext(m: seq<Byte>, m1: seq<Byte>, m0: seq<Byte>, sw0: bool, b1: nat, b: nat)
      requires Valid() && b1 <= b && Statics(m1, m0, Switches(sw0, b1))
      requires Statics(m, m1, Switches(sw0 || (dsi && b1 >= romSize), b))
      ensures Statics(m, m0, Switches(sw0, b))
    {
    }

    /** How many bytes a read writes: the first block, or its part up to the block's end and then whole blocks. */
    function Extent(src: nat, size: nat): nat {
      var first := 0x200 - src % 0x200;
      if size <= first then 0x200 else first + 0x200 * ((size - first + 0x1FF) / 0x200)
    }

    /** The first k bytes of the destination are those of the flat map. */
    ghost predicate ReadSoFar(m: seq<Byte>, m0: seq<Byte>, sw0: bool, src: nat, dest: nat, k: nat)
      requires Valid() && |m| == |m0| == mem.Length
    {
      dest + k <= |m| &&
      forall j :: dest <= j < dest + k ==> m[j] == Flat(m0, sw0, BlockOf(src, src + (j - dest)), src + (j - dest))
    }

    /** The state after a block at b: the switch that b brings, the buffers, and nothing else touched. */
    ghost predicate After(m: seq<Byte>, m0: seq<Byte>, sw0: bool, sw: bool, b: nat, dest: nat, n: nat)
      requires Valid() && |m| == |m0| == mem.Length
    {
      sw == (sw0 || (dsi && b >= romSize)) && Statics(m, m0, Switches(sw0, b)) && Elsewhere(m, m0, dest, n)
    }

    /** One more block behind k bytes that are already there. */
    method NextBlock(b: nat, at0: nat, ghost m0: seq<Byte>, ghost sw0: bool, ghost b0: nat, ghost src: nat,
                     ghost dest: nat, ghost k: nat, ghost n: nat)
      requires Valid() && Free(dest, n) && |m0| == mem.Length && at0 == dest + k && k + 0x200 <= n
      requires b % 0x200 == 0 && b == src + k && b0 <= b && (forall a :: b <= a < b + 0x200 ==> BlockOf(src, a) == b)
      requires After(mem[..], m0, sw0, twl, b0, dest, n) && ReadSoFar(mem[..], m0, sw0, src, dest, k)
      modifies this`twl, mem
      ensures After(mem[..], m0, sw0, twl, b, dest, n) && ReadSoFar(mem[..], m0, sw0, src, dest, k + 0x200)
    {
      hide MapByte, Flat, InTwl, TwlStart, BlockOf, Statics;
      ghost var m1 := mem[..];
      ReadBlock(b, at0);
      ghost var m := mem[..];
      StaticsNext(m, m1, m0, sw0, b0, b);
      forall j | dest <= j < dest + k + 0x200
        ensures m[j] == Flat(m0, sw0, BlockOf(src, src + (j - dest)), src + (j - dest))
      {
        if j < dest + k {
          assert m[j] == m1[j];
        } else {
          MapIsFlat(m, m0, sw0, b, src + (j - dest));
        }
      }
    }

    /** The first block, from any address. */
    method FirstBlock(src: nat, dest: nat, ghost n: nat)
      requires Valid() && Free(dest, n) && 0x200 <= n
      modifies this`twl, mem
      ensures After(mem[..], old(mem[..]), old(twl), twl, src, dest, n)
      ensures ReadSoFar(mem[..], old(mem[..]), old(twl), src, dest, 0x200 - src % 0x200)
    {
      hide MapByte, Flat, InTwl, TwlStart, Statics;
      ghost var m0 := mem[..];
      ReadBlock(src, dest);
      ghost var m := mem[..];
      forall j | dest <= j < dest + 0x200 - src % 0x200
        ensures m[j] == Flat(m0, old(twl), BlockOf(src, src + (j - dest)), src + (j - dest))
      {
        MapIsFlat(m, m0, old(twl), src, src + (j - dest));
      }
    }

    /**
     * cardReadDirect: whatever the address and the size, the destination gets the bytes of the flat map; besides
     * the extent of the whole blocks, the scratch block and the second secure area nothing changes.
     */
    method ReadDirect(src: nat, dest: nat, size: nat)
      requires Valid() && (size > 0 ==> Free(dest, Extent(src, size)) && src + Extent(src, size) <= W32)
      modifies this`twl, mem
      ensures size == 0 ==> mem[..] == old(mem[..]) && twl == old(twl)
      ensures size > 0 ==> ReadSoFar(mem[..], old(mem[..]), old(twl), src, dest, size)
      ensures size > 0 ==> Elsewhere(mem[..], old(mem[..]), dest, Extent(src, size))
    {
      hide Free, After, ReadSoFar, Elsewhere, Valid, BlockOf, Flat;
      if size == 0 {
        return;
      }
      ghost var m0, sw0, n := mem[..], twl, Extent(src, size);
      var first: nat := 0x200 - src % 0x200;
      ExtentParts(src, size);
      FirstBlock(src, dest, n);
      if size <= first {
        Shorter(mem[..], m0, sw0, src, dest, first, size);
        Untouched(mem[..], m0, sw0, twl, src, dest, n);
        return;
      }
      var left: nat, s: nat, d: nat := size - first, src + first, dest + first;
      var blocks: nat := (left + 0x1FF) / 0x200;
      ghost var b: nat := src;
      for i := 0 to blocks
        invariant b <= s + 0x200 * i
        invariant After(mem[..], m0, sw0, twl, b, dest, n)
        invariant ReadSoFar(mem[..], m0, sw0, src, dest, first + 0x200 * i)
      {
        LaterBlock(src, first, i);
        NextBlock(s + 0x200 * i, d + 0x200 * i, m0, sw0, b, src, dest, first + 0x200 * i, n);
        b := s + 0x200 * i;
      }
      Shorter(mem[..], m0, sw0, src, dest, first + 0x200 * blocks, size);
      Untouched(mem[..], m0, sw0, twl, b, dest, n);
    }

    lemma ExtentParts(src: nat, size: nat)
      ensures var first := 0x200 - src % 0x200; var n := Extent(src, size);
        && 0 < first <= 0x200 <= n
        && (size > first ==> n == first + 0x200 * ((size - first + 0x1FF) / 0x200) && size <= n)
    {
      var first := 0x200 - src % 0x200;
      if size > first {
        var k := (size - first + 0x1FF) / 0x200;
        assert size - first <= 0x200 * k && 1 <= k;
      }
    }

    lemma LaterBlock(src: nat, first: nat, i: nat)
      requires first == 0x200 - src % 0x200
      ensures var b := src + first + 0x200 * i; b % 0x200 == 0 && forall a :: b <= a < b + 0x200 ==> BlockOf(src, a) == b
    {
      var q := src / 0x200 + 1 + i;
      var b := src + first + 0x200 * i;
      assert b == 0x200 * q;
      Multiple(q);
      forall a | b <= a < b + 0x200
        ensures BlockOf(src, a) == b
      {
        Quotient(a, q);
      }
    }

    lemma Quotient(a: nat, q: nat)
      requires 0x200 * q <= a < 0x200 * q + 0x200
      ensures a / 0x200 == q
    {
    }

    lemma Shorter(m: seq<Byte>, m0: seq<Byte>, sw0: bool, src: nat, dest: nat, k: nat, size: nat)
      requires Valid() && |m| == |m0| == mem.Length && ReadSoFar(m, m0, sw0, src, dest, k) && size <= k
      ensures ReadSoFar(m, m0, sw0, src, dest, size)
    {
      hide Flat, BlockOf;
    }

    lemma Untouched(m: seq<Byte>, m0: seq<Byte>, sw0: bool, sw: bool, b: nat, dest: nat, n: nat)
      requires Valid() && |m| == |m0| == mem.Length && After(m, m0, sw0, sw, b, dest, n)
      ensures Elsewhere(m, m0, dest, n)
    {
    }

    // ---------- the map without blocks ----------

    /** The address map itself: each address under its own key set, the second secure area as loaded by the switch. */
    function MappedFrom(sw0: bool, a: nat): Source {
      var from := Region(sw0 || (dsi && a >= romSize), a);
      if from.TwlBuffer? && !sw0 then TwlLoaded(from.i) else from
    }

    /** The switch point is a block boundary, or below the card's data, and no second secure area lies before it. */
    predicate Smooth(sw0: bool) {
      || sw0
      || !dsi
      || ((romSize % 0x200 == 0 || romSize < 0x8000) && (TwlStart() < 0x8000 || romSize <= TwlStart()))
    }

    ghost predicate BlockShows(sw0: bool, src: nat, a: nat) {
      src <= a && ServedFrom(sw0, BlockOf(src, a), a) != MappedFrom(sw0, a)
    }

    /** Reads of any address and size follow the address map without a trace of the blocks exactly for smooth cards. */
    lemma BlocksDoNotShow(sw0: bool)
      ensures (forall src: nat, a: nat :: !BlockShows(sw0, src, a)) <==> Smooth(sw0)
    {
      if Smooth(sw0) {
        forall src: nat, a: nat
          ensures !BlockShows(sw0, src, a)
        {
          if src <= a {
            SmoothHides(sw0, src, a);
          }
        }
      } else if romSize % 0x200 != 0 && romSize >= 0x8000 && !InTwl(romSize) {
        UnevenShows(sw0);
      } else {
        StartAligned(region);
        UnloadedShows(sw0);
      }
    }

    lemma SmoothHides(sw0: bool, src: nat, a: nat)
      requires Smooth(sw0) && src <= a
      ensures ServedFrom(sw0, BlockOf(src, a), a) == MappedFrom(sw0, a)
    {
      if !sw0 && dsi && a >= 0x8000 {
        if romSize % 0x200 == 0 {
          BlockSide(src, a, romSize);
        } else {
          BlockSide(src, a, 0x8000);
        }
        if InTwl(a) && romSize % 0x200 == 0 {
          TwlOffset(a);
        }
      }
    }

    /** The last block before an uneven switch point also serves the addresses behind it, under the old key set. */
    lemma UnevenShows(sw0: bool)
      requires !sw0 && dsi && romSize % 0x200 != 0 && romSize >= 0x8000 && !InTwl(romSize)
      ensures BlockShows(sw0, romSize - 1, romSize)
      ensures ServedFrom(sw0, BlockOf(romSize - 1, romSize), romSize) == Card(false, romSize)
      ensures MappedFrom(sw0, romSize) == Card(true, romSize)
    {
      SameBlock(romSize);
    }

    /** The start of a second secure area before the switch point is served from the buffer before it is loaded. */
    lemma UnloadedShows(sw0: bool)
      requires !sw0 && dsi && 0x8000 <= TwlStart() < romSize
      ensures BlockShows(sw0, TwlStart(), TwlStart())
      ensures ServedFrom(sw0, BlockOf(TwlStart(), TwlStart()), TwlStart()) == TwlBuffer(0)
      ensures MappedFrom(sw0, TwlStart()) == TwlLoaded(0)
    {
    }

    lemma SameBlock(a: nat)
      requires a % 0x200 != 0
      ensures BlockOf(a - 1, a) == a - 1
    {
    }

    lemma BlockSide(src: nat, a: nat, limit: nat)
      requires src <= a && limit % 0x200 == 0
      ensures BlockOf(src, a) >= limit <==> a >= limit
    {
      var q, p := limit / 0x200, a / 0x200;
      assert limit == 0x200 * q && 0x200 * p <= a < 0x200 * p + 0x200;
      if a < src + 0x200 - src % 0x200 {
        var s := src / 0x200;
        assert 0x200 * s <= src < 0x200 * s + 0x200;
        assert a < 0x200 * s + 0x200;
        if src < limit {
          assert s < q;
        }
      }
    }

    ghost predicate SameSide(src: nat, a: nat, limit: nat) {
      src <= a ==> (BlockOf(src, a) >= limit <==> a >= limit)
    }

    /** Every address is under the key set of its block exactly when the switch point is a block boundary. */
    lemma SidesAgreeExactlyWhen(limit: nat)
      ensures (forall src: nat, a: nat :: SameSide(src, a, limit)) <==> limit % 0x200 == 0
    {
      if limit % 0x200 == 0 {
        forall src: nat, a: nat
          ensures SameSide(src, a, limit)
        {
          if src <= a {
            BlockSide(src, a, limit);
          }
        }
      } else {
        SameBlock(limit);
        assert !SameSide(limit - 1, limit, limit);
      }
    }

    /** For smooth cards a read gives the bytes of the address map. */
    lemma SmoothRead(m: seq<Byte>, m0: seq<Byte>, sw0: bool, src: nat, dest: nat, size: nat)
      requires Valid() && |m| == |m0| == mem.Length && Smooth(sw0) && ReadSoFar(m, m0, sw0, src, dest, size)
      ensures forall j :: dest <= j < dest + size ==> m[j] == ByteOf(m0, MappedFrom(sw0, src + (j - dest)))
    {
      forall j | dest <= j < dest + size
        ensures m[j] == ByteOf(m0, MappedFrom(sw0, src + (j - dest)))
      {
        SmoothHides(sw0, src, src + (j - dest));
      }
    }
  }

  lemma SplicedAt(s: seq<Byte>, a: nat, t: seq<Byte>)
    requires a + |t| <= |s|
    ensures |Splice(s, a, t)| == |s|
    ensures forall i :: 0 <= i < |s| ==> Splice(s, a, t)[i] == if a <= i < a + |t| then t[i - a] else s[i]
  {
  }
}
