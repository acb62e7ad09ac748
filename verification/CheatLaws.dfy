/** What each cheat code does, in terms of the bytes of memory, the words of the list and the registers. */
module CheatLaws {
  import Bits
  import Limbs
  import MachineWords
  import opened CheatEngine
  import CheatNesting

  // ---------- bytes and numbers in memory ----------

  /** The byte at an address; addresses wrap around, and what is not there reads as zero. */
  ghost function At8(mem: Memory, a: int): int {
    var w: Word := a % W32;
    if w in mem then mem[w] % 256 else 0
  }

  ghost function At16(mem: Memory, a: int): int {
    At8(mem, a) + 0x100 * At8(mem, a + 1)
  }

  ghost function At32(mem: Memory, a: int): int {
    At8(mem, a) + 0x100 * At8(mem, a + 1) + 0x1_0000 * At8(mem, a + 2) + 0x100_0000 * At8(mem, a + 3)
  }

  lemma ByteIs(mem: Memory, a: Word)
    ensures Byte(mem, a) == At8(mem, a)
  {
  }

  lemma At8Wraps(mem: Memory, a: int, k: nat)
    requires k < W32
    ensures At8(mem, Add(a % W32, k)) == At8(mem, a + k)
  {
    SumWraps(a, k);
  }

  lemma SumWraps(a: int, k: int)
    ensures (a % W32 + k) % W32 == (a + k) % W32
  {
    var q, r := a / W32, a % W32;
    assert a + k == W32 * q + (r + k);
    SkipTurns(r + k, q);
  }

  lemma SkipTurns(x: int, q: int)
    ensures (W32 * q + x) % W32 == x % W32
  {
    var p, r := x / W32, x % W32;
    assert W32 * q + x == W32 * (q + p) + r;
    Bits.DivUnique(W32 * q + x, W32, q + p, r);
  }

  lemma HalfIs(mem: Memory, a: int)
    ensures Half(mem, a % W32) == At16(mem, a)
  {
    hide Byte, At8, Add;
    ByteIs(mem, a % W32);
    ByteIs(mem, Add(a % W32, 1));
    At8Wraps(mem, a, 1);
    At8Same(mem, a);
  }

  lemma At8Same(mem: Memory, a: int)
    ensures At8(mem, a % W32) == At8(mem, a)
  {
  }

  lemma LoadIs(mem: Memory, a: int)
    ensures Load(mem, a % W32) == At32(mem, a)
  {
    hide Half, At8;
    HalfIs(mem, a);
    SumWraps(a, 2);
    HalfIs(mem, a + 2);
  }

  /** Byte i of a word. */
  function Digit(v: int, i: int): int {
    if i <= 0 then v % 256 else if i == 1 then v / 0x100 % 256 else if i == 2 then v / 0x1_0000 % 256 else v / 0x100_0000 % 256
  }

  /** How far an address lies behind another, around all addresses. */
  function Behind(b: int, a: int): int {
    (b - a) % W32
  }

  /** The bytes from address a on are bs, and no other byte has changed. */
  ghost predicate Filled(mem: Memory, mem': Memory, a: int, bs: seq<int>) {
    forall b: Word :: At8(mem', b) == (var i := Behind(b, a); if i < |bs| then bs[i] else At8(mem, b))
  }

  /** The low bytes of a word, as they are stored. */
  function Low1(v: int): seq<int> { [Digit(v, 0)] }

  function Low2(v: int): seq<int> { [Digit(v, 0), Digit(v, 1)] }

  function Low4(v: int): seq<int> { [Digit(v, 0), Digit(v, 1), Digit(v, 2), Digit(v, 3)] }

  lemma BehindOn(b: int, a: int, k: int)
    requires 0 <= k <= W32
    ensures var i := Behind(b, a); Behind(b, a + k) == if i >= k then i - k else i - k + W32
  {
    var q, i := (b - a) / W32, (b - a) % W32;
    assert b - a == W32 * q + i;
    if i >= k {
      Bits.DivUnique(b - (a + k), W32, q, i - k);
    } else {
      assert b - (a + k) == W32 * (q - 1) + (i - k + W32);
      Bits.DivUnique(b - (a + k), W32, q - 1, i - k + W32);
    }
  }

  /** Two runs of bytes one after the other. */
  lemma FilledOn(mem: Memory, mid: Memory, mem': Memory, a: int, xs: seq<int>, ys: seq<int>)
    requires Filled(mem, mid, a, xs) && Filled(mid, mem', a + |xs|, ys) && |xs| + |ys| <= W32
    ensures Filled(mem, mem', a, xs + ys)
  {
    hide At8;
    forall b: Word
      ensures At8(mem', b) == var i := Behind(b, a); if i < |xs + ys| then (xs + ys)[i] else At8(mem, b)
    {
      BehindOn(b, a, |xs|);
    }
  }

  lemma FilledNone(mem: Memory, a: int)
    ensures Filled(mem, mem, a, [])
  {
  }

  lemma ByteFilled(mem: Memory, a: int, v: Word)
    ensures Filled(mem, StoreByte(mem, a % W32, v), a, [v % 256])
  {
    forall b: Word
      ensures Behind(b, a) < 1 <==> b == a % W32
    {
      SamePlace(b, a);
    }
  }

  lemma SamePlace(b: Word, a: int)
    ensures Behind(b, a) == 0 <==> b == a % W32
  {
    var q, r := a / W32, a % W32;
    if b == r {
      Bits.DivUnique(b - a, W32, -q, 0);
    } else if (b - a) % W32 == 0 {
      var k := (b - a) / W32;
      assert b == W32 * (q + k) + r;
      Bits.DivUnique(b, W32, q + k, r);
      Bits.DivUnique(b, W32, 0, b);
    }
  }

  lemma HalfFilled(mem: Memory, a: int, v: Word)
    ensures Filled(mem, StoreHalf(mem, a % W32, v), a, Low2(v))
  {
    hide Filled, StoreByte;
    var mid := StoreByte(mem, a % W32, v);
    ByteFilled(mem, a, v);
    SumWraps(a, 1);
    ByteFilled(mid, a + 1, v / 0x100);
    FilledOn(mem, mid, StoreHalf(mem, a % W32, v), a, [v % 256], [v / 0x100 % 256]);
    assert [v % 256] + [v / 0x100 % 256] == Low2(v);
  }

  lemma WordFilled(mem: Memory, a: int, v: Word)
    ensures Filled(mem, Store(mem, a % W32, v), a, Low4(v))
  {
    hide Filled, StoreHalf;
    var mid := StoreHalf(mem, a % W32, v);
    HalfFilled(mem, a, v);
    SumWraps(a, 2);
    HalfFilled(mid, a + 2, v / 0x1_0000);
    HighDigits(v);
    FilledOn(mem, mid, Store(mem, a % W32, v), a, Low2(v), Low2(v / 0x1_0000));
    assert Low2(v) + Low2(v / 0x1_0000) == Low4(v);
  }

  lemma HighDigits(v: Word)
    ensures Digit(v / 0x1_0000, 0) == Digit(v, 2) && Digit(v / 0x1_0000, 1) == Digit(v, 3)
  {
    assert v / 0x1_0000 / 0x100 == v / 0x100_0000;
  }

  // ---------- one code ----------

  /** The machine is at a code, switched on. */
  ghost predicate Ready(l: List, m: Machine) {
    GoodList(l) && WellFormed(l, At(l, m)) && m.r8 == 0
  }

  lemma Executed(l: List, e: Env, m: Machine)
    requires Ready(l, m)
    requires var p := At(l, m); !IsEnd(l, p) && !HasInline(l, p) && !IsCloser(l, p)
    ensures m.r12 + 8 < W32 && Step(l, e, m) == Execute(l, e, m.(r12 := m.r12 + 8), At(l, m))
  {
    hide Execute, WellFormed, Inlined, Close;
    InList(l, m);
  }

  lemma InList(l: List, m: Machine)
    requires GoodList(l) && WellFormed(l, At(l, m))
    ensures Here(l, At(l, m)) && m.r12 + 8 < W32
  {
  }

  /** The address of codes 3 to A: op without its first digit and lowest bit; that bit adds r9; r9 takes the place of 0. */
  function Place(op: Word, r9: Word): int {
    var a := op % 0x1000_0000 - op % 2;
    var b := if op % 2 == 1 then (a + r9) % W32 else a;
    if b == 0 then r9 else b
  }

  lemma PlaceIs(op: Word, r9: Word)
    ensures CondAddress(op, r9) == Place(op, r9)
  {
    var q := op / 0x1000_0000;
    assert op % 0x1000_0000 % 2 == op % 2;
  }

  /** Codes 3 to 6 compare the argument with a word; only the status and the code pointer change. */
  lemma WordCondition(l: List, e: Env, m: Machine)
    requires Ready(l, m) && 3 <= Kind(l, At(l, m)) <= 6
    ensures var p, m' := At(l, m), Step(l, e, m);
      var kind, arg, v := Kind(l, p), Arg(l, p), At32(m.mem, Place(Op(l, p), m.r9));
      && m.r12 + 8 < W32 && m' == m.(r12 := m.r12 + 8, r8 := m'.r8) && m'.r8 <= 1
      && (kind == 3 ==> (m'.r8 == 0 <==> arg > v)) && (kind == 4 ==> (m'.r8 == 0 <==> arg < v))
      && (kind == 5 ==> (m'.r8 == 0 <==> arg == v)) && (kind == 6 ==> (m'.r8 == 0 <==> arg != v))
  {
    hide Load, At32, CondAddress, Place, WellFormed, Step;
    InList(l, m);
    Executed(l, e, m);
    PlaceIs(Op(l, At(l, m)), m.r9);
    LoadIs(m.mem, Place(Op(l, At(l, m)), m.r9));
  }

  /** The halfword without the bits that the upper half of the argument sets. */
  ghost predicate Unmasked(v: int, half: int, arg: Word) {
    && 0 <= v < 0x1_0000
    && forall k: nat :: k < 16 ==> Bits.BitAt(v, k) == if Bits.BitAt(arg, 16 + k) == 1 then 0 else Bits.BitAt(half, k)
  }

  lemma AndUnmasked(half: Word, arg: Word)
    requires half < 0x1_0000
    ensures Unmasked(MachineWords.AndWord(half, 0xFFFF_FFFF - arg / 0x1_0000), half, arg)
  {
    hide Bits.BitAt, Bits.Two, Bits.And;
    var mask, rest := arg / 0x1_0000, 0xFFFF_FFFF - arg / 0x1_0000;
    Bits.AndBelow(half, rest);
    Bits.Two32();
    forall k: nat | k < 16
      ensures Bits.BitAt(Bits.And(half, rest), k) == if Bits.BitAt(arg, 16 + k) == 1 then 0 else Bits.BitAt(half, k)
    {
      Bits.AndBit(half, rest, k);
      Bits.OppositeBit(mask, rest, 32, k);
      Bits.BitShift(arg, 16, k);
      OneOrZero(half, k);
      OneOrZero(arg, 16 + k);
    }
  }

  lemma OneOrZero(x: nat, k: nat)
    ensures Bits.BitAt(x, k) == 0 || Bits.BitAt(x, k) == 1
  {
  }

  lemma HalfBelow(mem: Memory, a: int)
    ensures 0 <= At16(mem, a) < 0x1_0000
  {
  }

  /** Codes 7 to A compare the lower half of the argument with a halfword, masked by the upper half. */
  lemma HalfCondition(l: List, e: Env, m: Machine) returns (v: int)
    requires Ready(l, m) && 7 <= Kind(l, At(l, m)) <= 0xA
    ensures Unmasked(v, At16(m.mem, Place(Op(l, At(l, m)), m.r9)), Arg(l, At(l, m)))
    ensures var p, m' := At(l, m), Step(l, e, m);
      var kind, c := Kind(l, p), Arg(l, p) % 0x1_0000;
      && m.r12 + 8 < W32 && m' == m.(r12 := m.r12 + 8, r8 := m'.r8) && m'.r8 <= 1
      && (kind == 7 ==> (m'.r8 == 0 <==> c > v)) && (kind == 8 ==> (m'.r8 == 0 <==> c < v))
      && (kind == 9 ==> (m'.r8 == 0 <==> c == v)) && (kind == 0xA ==> (m'.r8 == 0 <==> c != v))
  {
    hide Half, At16, CondAddress, Place, WellFormed, Step, Unmasked, MachineWords.AndWord;
    InList(l, m);
    Executed(l, e, m);
    var p := At(l, m);
    var a := Place(Op(l, p), m.r9);
    PlaceIs(Op(l, p), m.r9);
    HalfIs(m.mem, a);
    HalfBelow(m.mem, a);
    AndUnmasked(Half(m.mem, a % W32), Arg(l, p));
    v := MachineWords.AndWord(Half(m.mem, a % W32), 0xFFFF_FFFF - Arg(l, p) / 0x1_0000);
  }

  /** Code C5: the frame counter, masked by the lower half of the argument, against the upper half. */
  lemma CounterCondition(l: List, e: Env, m: Machine)
    requires Ready(l, m) && Kind8(l, At(l, m)) == 0xC5
    ensures var p, m' := At(l, m), Step(l, e, m);
      && m.r12 + 8 < W32 && m' == m.(r12 := m.r12 + 8, r8 := m'.r8) && m'.r8 <= 1
      && (m'.r8 == 0 <==> CounterMatches(e.counter, Arg(l, p)))
  {
    hide WellFormed, Step, MachineWords.AndWord, CounterMatches;
    InList(l, m);
    Executed(l, e, m);
    AndMatches(e.counter, Arg(l, At(l, m)));
  }

  ghost predicate CounterMatches(counter: Word, arg: Word) {
    forall k: nat :: k < 16 ==>
      (Bits.BitAt(counter, k) == 1 && Bits.BitAt(arg, k) == 1 <==> Bits.BitAt(arg, 16 + k) == 1)
  }

  lemma AndMatches(counter: Word, arg: Word)
    ensures MachineWords.AndWord(counter, arg % 0x1_0000) == arg / 0x1_0000 <==> CounterMatches(counter, arg)
  {
    hide Bits.BitAt, Bits.Two, Bits.And;
    var x, y := MachineWords.AndWord(counter, arg % 0x1_0000), arg / 0x1_0000;
    Bits.Two32();
    AndShort(counter, arg % 0x1_0000);
    forall k: nat | k < 16
      ensures Bits.BitAt(x, k) == 1 <==> Bits.BitAt(counter, k) == 1 && Bits.BitAt(arg, k) == 1
      ensures Bits.BitAt(y, k) == Bits.BitAt(arg, 16 + k)
    {
      Bits.AndBit(counter, arg % 0x1_0000, k);
      Bits.LowBit(arg, arg / 0x1_0000, arg % 0x1_0000, 16, k);
      Bits.BitShift(arg, 16, k);
    }
    if CounterMatches(counter, arg) {
      forall k: nat | k < 16
        ensures Bits.BitAt(x, k) == Bits.BitAt(y, k)
      {
        OneOrZero(x, k);
        OneOrZero(y, k);
        MatchAt(counter, arg, k);
      }
      Bits.SameBits(x, y, 16);
    }
  }

  lemma MatchAt(counter: Word, arg: Word, k: nat)
    requires CounterMatches(counter, arg) && k < 16
    ensures Bits.BitAt(counter, k) == 1 && Bits.BitAt(arg, k) == 1 <==> Bits.BitAt(arg, 16 + k) == 1
  {
    hide Bits.BitAt;
    OneOrZero(counter, k);
  }

  lemma AndShort(a: Word, b: Word)
    ensures MachineWords.AndWord(a, b) <= b
  {
    hide Bits.And;
    AndComm(a, b);
    Bits.AndBelow(b, a);
  }

  lemma {:induction false} AndComm(a: nat, b: nat)
    ensures Bits.And(a, b) == Bits.And(b, a)
  {
    if a > 0 && b > 0 {
      AndComm(a / 2, b / 2);
    }
  }

  // ---------- writes ----------

  /** Codes 0 to 2 write the argument, in 4, 2 or 1 bytes, to the address with the offset added. */
  lemma RawWrites(l: List, e: Env, m: Machine)
    requires Ready(l, m) && Kind(l, At(l, m)) <= 2
    ensures var p, m' := At(l, m), Step(l, e, m);
      var kind, a, arg := Kind(l, p), Op(l, p) % 0x1000_0000 + m.r9, Arg(l, p);
      && m.r12 + 8 < W32 && m' == m.(r12 := m.r12 + 8, mem := m'.mem)
      && Filled(m.mem, m'.mem, a, if kind == 0 then Low4(arg) else if kind == 1 then Low2(arg) else Low1(arg))
  {
    hide WellFormed, Step, Store, StoreHalf, StoreByte, Filled;
    InList(l, m);
    Executed(l, e, m);
    var p := At(l, m);
    var a, arg := Op(l, p) % 0x1000_0000 + m.r9, Arg(l, p);
    WordFilled(m.mem, a, arg);
    HalfFilled(m.mem, a, arg);
    ByteFilled(m.mem, a, arg);
  }

  /** Codes D6 to D8 write the data register the same way and move the offset behind what they wrote. */
  lemma DataWrites(l: List, e: Env, m: Machine)
    requires Ready(l, m) && 0xD6 <= Kind8(l, At(l, m)) <= 0xD8
    ensures var p, m' := At(l, m), Step(l, e, m);
      var bs := if Kind8(l, p) == 0xD6 then Low4(m.r5) else if Kind8(l, p) == 0xD7 then Low2(m.r5) else Low1(m.r5);
      && m.r12 + 8 < W32 && m' == m.(r12 := m.r12 + 8, mem := m'.mem, r9 := (m.r9 + |bs|) % W32)
      && Filled(m.mem, m'.mem, Arg(l, p) + m.r9, bs)
  {
    hide WellFormed, Step, Store, StoreHalf, StoreByte, Filled;
    InList(l, m);
    Executed(l, e, m);
    var a := Arg(l, At(l, m)) + m.r9;
    WordFilled(m.mem, a, m.r5);
    HalfFilled(m.mem, a, m.r5);
    ByteFilled(m.mem, a, m.r5);
  }

  /** The C codes behind C5 write the offset to the argument. */
  lemma OffsetWrite(l: List, e: Env, m: Machine)
    requires Ready(l, m) && Kind(l, At(l, m)) == 0xC && Kind8(l, At(l, m)) > 0xC5 && !IsEnd(l, At(l, m))
    ensures var p, m' := At(l, m), Step(l, e, m);
      && m.r12 + 8 < W32 && m' == m.(r12 := m.r12 + 8, mem := m'.mem)
      && Filled(m.mem, m'.mem, Arg(l, p), Low4(m.r9))
  {
    hide WellFormed, Step, Store, Filled;
    InList(l, m);
    Executed(l, e, m);
    WordFilled(m.mem, Arg(l, At(l, m)), m.r9);
  }

  // ---------- loads and registers ----------

  /** Codes B, D9, DA and DB load the offset or the data register. */
  lemma Loads(l: List, e: Env, m: Machine)
    requires Ready(l, m) && (Kind(l, At(l, m)) == 0xB || 0xD9 <= Kind8(l, At(l, m)) <= 0xDB)
    ensures var p, m' := At(l, m), Step(l, e, m);
      var a, b := Op(l, p) % 0x1000_0000 + m.r9, Arg(l, p) + m.r9;
      && m.r12 + 8 < W32
      && (Kind(l, p) == 0xB ==> m' == m.(r12 := m.r12 + 8, r9 := m'.r9) && m'.r9 == At32(m.mem, a))
      && (Kind(l, p) == 0xD ==> m' == m.(r12 := m.r12 + 8, r5 := m'.r5))
      && (Kind8(l, p) == 0xD9 ==> m'.r5 == At32(m.mem, b)) && (Kind8(l, p) == 0xDA ==> m'.r5 == At16(m.mem, b))
      && (Kind8(l, p) == 0xDB ==> m'.r5 == At8(m.mem, b))
  {
    hide WellFormed, Step, Load, Half, Byte, At32, At16, At8;
    InList(l, m);
    Executed(l, e, m);
    var p := At(l, m);
    var a, b := Op(l, p) % 0x1000_0000 + m.r9, Arg(l, p) + m.r9;
    LoadIs(m.mem, a);
    LoadIs(m.mem, b);
    HalfIs(m.mem, b);
    ByteIs(m.mem, b % W32);
    At8Same(m.mem, b);
  }

  /** The codes that only set registers: C0, C3, C4, D3, D5 and those behind DB. */
  lemma Settings(l: List, e: Env, m: Machine)
    requires Ready(l, m)
    requires var k := Kind8(l, At(l, m)); k == 0xC0 || k == 0xC3 || k == 0xC4 || k == 0xD3 || k == 0xD5 || 0xDC <= k <= 0xDF
    ensures var p, m' := At(l, m), Step(l, e, m);
      var k, arg := Kind8(l, p), Arg(l, p);
      && m.r12 + 8 < W32
      && (k == 0xC0 ==> m' == m.(r12 := m.r12 + 8, r4 := 0, r6 := arg, r7 := m.r12 + 8))
      && (k == 0xC3 || k == 0xC4 ==> m' == m.(r12 := m.r12 + 8, r9 := m.r12))
      && (k == 0xD3 ==> m' == m.(r12 := m.r12 + 8, r9 := arg))
      && (k == 0xD5 ==> m' == m.(r12 := m.r12 + 8, r5 := arg))
      && (k >= 0xDC ==> m' == m.(r12 := m.r12 + 8, r9 := (m.r9 + arg) % W32))
  {
    hide WellFormed, Step;
    InList(l, m);
    Executed(l, e, m);
  }

  // ---------- D4: arithmetic on the data register ----------

  /** D4 changes the data register and nothing else; behind selector 8 not even that. */
  lemma DataArithmetic(l: List, e: Env, m: Machine)
    requires Ready(l, m) && Kind8(l, At(l, m)) == 0xD4
    ensures var p, m' := At(l, m), Step(l, e, m);
      var sel, arg := Op(l, p) % 256, Arg(l, p);
      && m.r12 + 8 < W32 && m' == m.(r12 := m.r12 + 8, r5 := m'.r5)
      && (sel == 0 ==> m'.r5 == (m.r5 + arg) % W32) && (sel == 8 ==> m'.r5 == m.r5 * arg % W32)
      && (sel > 8 ==> m'.r5 == m.r5)
  {
    hide WellFormed, Step, Lsl, Lsr, Asr, Ror, MachineWords.AndWord, MachineWords.OrWord, MachineWords.XorWord;
    InList(l, m);
    Executed(l, e, m);
    Limbs.MulSwap(m.r5, Arg(l, At(l, m)), 1);
  }

  /** Selectors 1 to 3: or, and, exclusive or, digit by digit. */
  lemma DataBits(l: List, e: Env, m: Machine, k: nat)
    requires Ready(l, m) && Kind8(l, At(l, m)) == 0xD4
    ensures var p, m' := At(l, m), Step(l, e, m);
      var sel, x, y := Op(l, p) % 256, Bits.BitAt(m.r5, k) == 1, Bits.BitAt(Arg(l, p), k) == 1;
      && (sel == 1 ==> (Bits.BitAt(m'.r5, k) == 1 <==> x || y))
      && (sel == 2 ==> (Bits.BitAt(m'.r5, k) == 1 <==> x && y))
      && (sel == 3 ==> (Bits.BitAt(m'.r5, k) == 1 <==> x != y))
  {
    hide WellFormed, Step, Lsl, Lsr, Asr, Ror, Bits.BitAt;
    InList(l, m);
    Executed(l, e, m);
    BitOps(m.r5, Arg(l, At(l, m)), k);
  }

  lemma BitOps(a: Word, b: Word, k: nat)
    ensures var x, y := Bits.BitAt(a, k) == 1, Bits.BitAt(b, k) == 1;
      && (Bits.BitAt(MachineWords.OrWord(a, b), k) == 1 <==> x || y)
      && (Bits.BitAt(MachineWords.AndWord(a, b), k) == 1 <==> x && y)
      && (Bits.BitAt(MachineWords.XorWord(a, b), k) == 1 <==> x != y)
  {
    hide Bits.BitAt;
    Bits.OrBit(a, b, k);
    Bits.AndBit(a, b, k);
    MachineWords.XorBit(a, b, k);
    OneOrZero(a, k);
    OneOrZero(b, k);
  }

  /** Selectors 4 to 7: digit j of the shifted register; arithmetic shifts keep the sign. */
  lemma DataShifts(l: List, e: Env, m: Machine, j: nat)
    requires Ready(l, m) && Kind8(l, At(l, m)) == 0xD4 && j < 32
    ensures var p, m' := At(l, m), Step(l, e, m);
      var sel, n, b := Op(l, p) % 256, Arg(l, p) % 256, Bits.BitAt(m'.r5, j);
      && (sel == 4 ==> b == if n <= j then Bits.BitAt(m.r5, j - n) else 0)
      && (sel == 5 ==> b == if j + n < 32 then Bits.BitAt(m.r5, j + n) else 0)
      && (sel == 6 ==> b == Bits.BitAt(m.r5, (j + n) % 32))
      && (sel == 7 ==> b == Bits.BitAt(m.r5, if j + n < 32 then j + n else 31))
  {
    hide WellFormed, Step, Lsl, Lsr, Asr, Ror, Bits.BitAt;
    InList(l, m);
    Executed(l, e, m);
    var n := Arg(l, At(l, m));
    LeftBit(m.r5, n, j);
    RightBit(m.r5, n, j);
    TurnedBit(m.r5, n, j);
    SignedBit(m.r5, n, j);
  }

  /** No digit of a word lies at 32 or above. */
  lemma NoHighBit(a: Word, k: nat)
    requires k >= 32
    ensures Bits.BitAt(a, k) == 0
  {
    hide Bits.Two;
    Bits.Two32();
    Bits.TwoMono(32, k);
    Bits.DivUnique(a, Bits.Two(k), 0, a);
  }

  lemma ZeroBit(k: nat)
    ensures Bits.BitAt(0, k) == 0
  {
    Bits.DivUnique(0, Bits.Two(k), 0, 0);
  }

  lemma LeftBit(a: Word, n: Word, j: nat)
    requires j < 32
    ensures Bits.BitAt(Lsl(a, n), j) == if n % 256 <= j then Bits.BitAt(a, j - n % 256) else 0
  {
    hide Bits.BitAt, Bits.Two;
    var k := n % 256;
    ZeroBit(j);
    if k < 32 {
      var y := a * Bits.Two(k);
      Limbs.MulMono(0, a, Bits.Two(k));
      Bits.Two32();
      Bits.DivBounds(y, W32);
      Limbs.MulSwap(W32, y / W32, 1);
      Bits.LowBit(y, y / W32, y % W32, 32, j);
      if k <= j {
        Bits.HighBit(y, a, 0, k, j - k);
      } else {
        Bits.LowBit(y, a, 0, k, j);
      }
    }
  }

  lemma RightBit(a: Word, n: Word, j: nat)
    requires j < 32
    ensures Bits.BitAt(Lsr(a, n), j) == if j + n % 256 < 32 then Bits.BitAt(a, j + n % 256) else 0
  {
    hide Bits.BitAt, Bits.Two;
    var k := n % 256;
    ZeroBit(j);
    if k < 32 {
      Bits.BitShift(a, k, j);
      if j + k >= 32 {
        NoHighBit(a, j + k);
      }
    }
  }

  lemma TurnedBit(a: Word, n: Word, j: nat)
    requires j < 32
    ensures Bits.BitAt(Ror(a, n), j) == Bits.BitAt(a, (j + n % 256) % 32)
  {
    hide Bits.BitAt, Bits.Two, Dropped;
    var k := n % 32;
    TurnAmount(n, j);
    var x, y := a % Bits.Two(k), Ror(a, n);
    DroppedIs(a, k);
    Bits.DivBounds(a, Bits.Two(k));
    if j < 32 - k {
      Bits.LowBit(y, x, Dropped(a, k), 32 - k, j);
      Bits.BitShift(a, k, j);
    } else {
      Bits.HighBit(y, x, Dropped(a, k), 32 - k, j - (32 - k));
      Limbs.MulSwap(a / Bits.Two(k), Bits.Two(k), 1);
      Bits.LowBit(a, a / Bits.Two(k), x, k, j + k - 32);
    }
  }

  lemma DroppedIs(a: Word, k: nat)
    requires k <= 32
    ensures Dropped(a, k) == a / Bits.Two(k) < Bits.Two(32 - k)
  {
    hide Bits.Two;
    var _ := Dropped(a, k);
  }

  lemma TurnAmount(n: Word, j: nat)
    requires j < 32
    ensures var k := n % 32; (j + n % 256) % 32 == if j < 32 - k then j + k else j + k - 32
  {
    var q, r := n % 256 / 32, n % 256 % 32;
    assert r == n % 32;
    if j < 32 - r {
      Bits.DivUnique(j + n % 256, 32, q, j + r);
    } else {
      Bits.DivUnique(j + n % 256, 32, q + 1, j + r - 32);
    }
  }

  lemma SignedBit(a: Word, n: Word, j: nat)
    requires j < 32
    ensures Bits.BitAt(Asr(a, n), j) == Bits.BitAt(a, if j + n % 256 < 32 then j + n % 256 else 31)
  {
    hide Bits.BitAt, Bits.Two, Asr;
    var k := if n % 256 >= 32 then 31 else n % 256;
    SignBit(a);
    Bits.BitShift(a, k, j);
    if a < 0x8000_0000 {
      PositiveShift(a, n);
      if j + k >= 32 {
        NoHighBit(a, j + k);
      }
    } else {
      NegativeShift(a, n);
      DroppedIs(a, k);
      var q := Bits.Two(k) - 1;
      if j < 32 - k {
        Bits.LowBit(Asr(a, n), q, a / Bits.Two(k), 32 - k, j);
      } else {
        Bits.HighBit(Asr(a, n), q, a / Bits.Two(k), 32 - k, j - (32 - k));
        OnesBit(k, j - (32 - k));
      }
    }
  }

  lemma SignBit(a: Word)
    ensures Bits.BitAt(a, 31) == if a < 0x8000_0000 then 0 else 1
  {
    hide Bits.Two;
    Bits.Two32();
    if a < 0x8000_0000 {
      Bits.DivUnique(a, Bits.Two(31), 0, a);
    } else {
      Bits.DivUnique(a, Bits.Two(31), 1, a - 0x8000_0000);
    }
  }

  lemma OnesBit(k: nat, j: nat)
    requires j < k
    ensures Bits.BitAt(Bits.Two(k) - 1, j) == 1
  {
    hide Bits.Two, Bits.BitAt;
    ZeroBit(j);
    Bits.OppositeBit(Bits.Two(k) - 1, 0, k, j);
  }

  lemma PositiveShift(a: Word, n: Word)
    requires a < 0x8000_0000
    ensures Asr(a, n) == a / Bits.Two(if n % 256 >= 32 then 31 else n % 256)
  {
    hide Bits.Two;
    var k := if n % 256 >= 32 then 31 else n % 256;
    DroppedIs(a, k);
    Quotient(a, k);
  }

  /** The quotient of a negative number: ones come in from above. */
  lemma NegativeShift(a: Word, n: Word)
    requires a >= 0x8000_0000
    ensures var k := if n % 256 >= 32 then 31 else n % 256;
      Asr(a, n) == (Bits.Two(k) - 1) * Bits.Two(32 - k) + a / Bits.Two(k)
  {
    hide Bits.Two;
    var k := if n % 256 >= 32 then 31 else n % 256;
    DroppedIs(a, k);
    NegativeQuotient(a, k);
    Limbs.DistSum(Bits.Two(32 - k), Bits.Two(k), -1);
    Bits.TwoSplit(k);
    Limbs.MulSwap(Bits.Two(k), Bits.Two(32 - k), 1);
    OneTurn(a / Bits.Two(k) - Bits.Two(32 - k));
  }

  lemma NegativeQuotient(a: Word, k: nat)
    requires k < 32
    ensures (a - W32) / Bits.Two(k) == a / Bits.Two(k) - Bits.Two(32 - k)
  {
    hide Bits.Two;
    var d, h := Bits.Two(k), Bits.Two(32 - k);
    Bits.TwoSplit(k);
    Bits.DivBounds(a, d);
    Limbs.DistSum(d, a / d, -h);
    Bits.DivUnique(a - W32, d, a / d - h, a % d);
  }

  lemma OneTurn(x: int)
    requires -W32 <= x < 0
    ensures x % W32 == x + W32
  {
  }

  // ---------- closing codes and calls ----------

  /** D0 drops a status digit; D1 and D2 repeat while repeats are left; then D2 clears both registers and D1 neither. */
  lemma Closers(l: List, e: Env, m: Machine)
    requires GoodList(l) && WellFormed(l, At(l, m)) && IsCloser(l, At(l, m))
    ensures var p, m' := At(l, m), Step(l, e, m);
      && m.r12 + 8 < W32
      && (Kind8(l, p) == 0xD0 ==> m' == m.(r8 := m.r8 / 2, r12 := m.r12 + 8))
      && (Kind8(l, p) > 0xD0 && 0 < m.r6 < 0x8000_0000 ==> m' == m.(r8 := m.r4, r6 := m.r6 - 1, r12 := m.r7))
      && (Kind8(l, p) == 0xD1 && !(0 < m.r6 < 0x8000_0000) ==> m' == m.(r8 := m.r4, r12 := m.r12 + 8))
      && (Kind8(l, p) == 0xD2 && !(0 < m.r6 < 0x8000_0000) ==> m' == m.(r5 := 0, r8 := 0, r9 := 0, r12 := m.r12 + 8))
  {
    hide WellFormed, Execute, Inlined;
    InList(l, m);
  }

  ghost predicate NextEight(a: int, b: int) {
    b % 8 == 0 && a <= b < a + 8
  }

  lemma RoundedUp(l: List, p: int, b: int)
    requires GoodList(l) && WellFormed(l, p) && !IsEnd(l, p) && NextEight(l.base + p + 8 + Inline(l, p), b)
    ensures b == l.base + Next(l, p) && Next(l, p) <= 4 * |l.words|
  {
    hide Align, WellFormed, Inline, NextEight;
    WholeCode(l, p);
    FetchRoom(l, p);
    AlignUp(p + 8 + Inline(l, p));
    assert NextEight(l.base + p + 8 + Inline(l, p), l.base + Next(l, p)) by {
      Eights(l.base, p + 8 + Inline(l, p), Next(l, p));
    }
    SameEight(l.base + p + 8 + Inline(l, p), b, l.base + Next(l, p));
  }

  lemma Eights(base: int, a: int, b: int)
    requires base % 8 == 0 && b % 8 == 0 && a <= b < a + 8
    ensures NextEight(base + a, base + b)
  {
  }

  lemma SameEight(a: int, b: int, c: int)
    requires NextEight(a, b) && NextEight(a, c)
    ensures b == c
  {
  }

  /** C1 calls the function at the argument and goes on behind 0 to 7 bytes of it, rounded up. */
  lemma RemoteCall(l: List, e: Env, m: Machine, b: Word)
    requires Ready(l, m) && Kind8(l, At(l, m)) == 0xC1 && NextEight(m.r12 + 8 + Op(l, At(l, m)) % 8, b)
    ensures Step(l, e, m) == m.(mem := e.call(Arg(l, At(l, m)), m.mem), r12 := b)
  {
    hide WellFormed, Execute, Next;
    InList(l, m);
    RoundedUp(l, At(l, m), b);
  }

  /** C2 calls the function that follows in the list, in the mode that the lowest bit picks, and goes on behind it. */
  lemma InlineCall(l: List, e: Env, m: Machine, b: Word)
    requires Ready(l, m) && Kind8(l, At(l, m)) == 0xC2 && NextEight(m.r12 + 8 + Arg(l, At(l, m)), b)
    ensures m.r12 + 9 < W32
    ensures Step(l, e, m) == m.(mem := e.call(m.r12 + 8 + Op(l, At(l, m)) % 2, m.mem), r12 := b)
  {
    hide WellFormed, Execute, Next;
    InList(l, m);
    RoundedUp(l, At(l, m), b);
  }

  // ---------- copies ----------

  /** n bytes of the list from its byte q on. */
  function CodeBytes(l: List, q: nat, n: nat): seq<int>
    requires q + n <= 4 * |l.words|
  {
    seq(n, i requires 0 <= i < n => Digit(l.words[(q + i) / 4], (q + i) % 4))
  }

  lemma ListByteIs(l: List, q: nat)
    requires q < 4 * |l.words|
    ensures ListByte(l, q) == Digit(l.words[q / 4], q % 4)
  {
  }

  lemma {:induction false} CopyInFilled(l: List, mem: Memory, q: nat, a: int, n: nat)
    requires q + n <= 4 * |l.words| && n <= W32
    ensures Filled(mem, CopyIn(l, mem, q, a % W32, n), a, CodeBytes(l, q, n))
    decreases n
  {
    hide Filled, StoreByte, ListByte, Digit, CopyIn, Add;
    if n == 0 {
      FilledNone(mem, a);
      CopyNone(l, mem, q, a % W32);
      assert CodeBytes(l, q, 0) == [];
    } else {
      CopyByte(l, mem, q, a % W32, n);
      AddIs(a);
      var mid := StoreByte(mem, a % W32, ListByte(l, q));
      ByteFilled(mem, a, ListByte(l, q));
      SumWraps(a, 1);
      CopyInFilled(l, mid, q + 1, a + 1, n - 1);
      ListByteIs(l, q);
      ListByteRange(l, q);
      FilledOn(mem, mid, CopyIn(l, mem, q, a % W32, n), a, [ListByte(l, q)], CodeBytes(l, q + 1, n - 1));
      assert [ListByte(l, q)] + CodeBytes(l, q + 1, n - 1) == CodeBytes(l, q, n);
    }
  }

  lemma AddIs(a: int)
    ensures Add(a % W32, 1) == (a + 1) % W32
  {
    SumWraps(a, 1);
  }

  lemma ListByteRange(l: List, q: nat)
    requires q < 4 * |l.words|
    ensures ListByte(l, q) % 256 == ListByte(l, q)
  {
  }

  /** Code E copies the bytes that follow it to its address with the offset added, and goes on behind them, rounded up. */
  lemma Patch(l: List, e: Env, m: Machine, b: Word)
    requires Ready(l, m) && Kind(l, At(l, m)) == 0xE && NextEight(m.r12 + 8 + Arg(l, At(l, m)), b)
    ensures var p, m' := At(l, m), Step(l, e, m);
      && m' == m.(r12 := b, mem := m'.mem) && p + 8 + Arg(l, p) <= 4 * |l.words|
      && Filled(m.mem, m'.mem, Op(l, p) % 0x1000_0000 + m.r9, CodeBytes(l, p + 8, Arg(l, p)))
  {
    hide WellFormed, Execute, Next, Filled, CopyIn, CodeBytes;
    var p := At(l, m);
    InList(l, m);
    RoundedUp(l, p, b);
    PatchEnd(l, p);
    CopyInFilled(l, m.mem, p + 8, Op(l, p) % 0x1000_0000 + m.r9, Arg(l, p));
  }

  lemma PatchEnd(l: List, p: int)
    requires GoodList(l) && WellFormed(l, p) && !IsEnd(l, p) && Kind(l, p) == 0xE
    ensures p + 8 + Arg(l, p) <= 4 * |l.words|
  {
    PatchRoom(l, p);
  }

  /** n bytes of memory. */
  ghost function SourceBytes(mem: Memory, a: int, n: nat): seq<int> {
    seq(n, i requires 0 <= i < n => At8(mem, a + i))
  }

  /** Neither of two ranges of n bytes begins inside the other. */
  ghost predicate Apart(a: int, b: int, n: int) {
    Behind(b, a) >= n && Behind(a, b) >= n
  }

  lemma ApartOn(a: int, b: int, n: int, k: nat)
    requires Apart(a, b, n) && k <= n
    ensures Apart(a + k, b + k, n - k)
  {
    BehindShifted(a, b, k);
    BehindShifted(b, a, k);
  }

  lemma BehindShifted(a: int, b: int, k: int)
    ensures Behind(b + k, a + k) == Behind(b, a)
  {
    assert (b + k) - (a + k) == b - a;
  }

  /** A place in the range behind b lies outside the first k bytes behind a. */
  lemma Outside(a: int, b: int, n: int, i: nat)
    requires Apart(a, b, n) && i < n
    ensures Behind(b + i, a) >= n
  {
    var s := Behind(b, a);
    TwoWays(a, b);
    var q := (b - a) / W32;
    assert b - a == W32 * q + s;
    Bits.DivUnique(b + i - a, W32, q, s + i);
  }

  lemma TwoWays(a: int, b: int)
    ensures Behind(b, a) > 0 ==> Behind(a, b) == W32 - Behind(b, a)
  {
    var q, s := (b - a) / W32, Behind(b, a);
    assert b - a == W32 * q + s;
    if s > 0 {
      assert a - b == W32 * (-q - 1) + (W32 - s);
      Bits.DivUnique(a - b, W32, -q - 1, W32 - s);
    }
  }

  lemma FilledAt(mem: Memory, mem': Memory, a: int, bs: seq<int>, x: int)
    requires Filled(mem, mem', a, bs) && Behind(x, a) >= |bs|
    ensures At8(mem', x) == At8(mem, x)
  {
    hide At8;
    var b: Word := x % W32;
    At8Same(mem, x);
    At8Same(mem', x);
    SameBehind(x, a);
  }

  lemma SameBehind(x: int, a: int)
    ensures Behind(x % W32, a) == Behind(x, a)
  {
    var q, r := x / W32, x % W32;
    assert x - a == W32 * q + (r - a);
    SkipTurns(r - a, q);
  }

  /** What is read after a write elsewhere. */
  lemma SourceKept(mem: Memory, mid: Memory, src: int, dst: int, n: int, bs: seq<int>)
    requires Apart(dst, src, n) && |bs| <= n && Filled(mem, mid, dst, bs)
    ensures SourceBytes(mid, src + |bs|, n - |bs|) == SourceBytes(mem, src + |bs|, n - |bs|)
  {
    hide At8, Filled, Apart;
    var xs, ys := SourceBytes(mid, src + |bs|, n - |bs|), SourceBytes(mem, src + |bs|, n - |bs|);
    forall i | 0 <= i < n - |bs|
      ensures xs[i] == ys[i]
    {
      Outside(dst, src, n, |bs| + i);
      FilledAt(mem, mid, dst, bs, src + (|bs| + i));
    }
  }

  lemma WordBytes(mem: Memory, a: int)
    ensures Low4(At32(mem, a)) == SourceBytes(mem, a, 4)
  {
    ByteDigits(At8(mem, a), At8(mem, a + 1), At8(mem, a + 2), At8(mem, a + 3));
  }

  lemma ByteDigits(b0: int, b1: int, b2: int, b3: int)
    requires 0 <= b0 < 256 && 0 <= b1 < 256 && 0 <= b2 < 256 && 0 <= b3 < 256
    ensures Low4(b0 + 0x100 * b1 + 0x1_0000 * b2 + 0x100_0000 * b3) == [b0, b1, b2, b3]
  {
    var v := b0 + 0x100 * b1 + 0x1_0000 * b2 + 0x100_0000 * b3;
    Bits.DivUnique(v, 0x100, b1 + 0x100 * b2 + 0x1_0000 * b3, b0);
    Bits.DivUnique(v, 0x1_0000, b2 + 0x100 * b3, b0 + 0x100 * b1);
    Bits.DivUnique(v, 0x100_0000, b3, b0 + 0x100 * b1 + 0x1_0000 * b2);
    Bits.DivUnique(b1 + 0x100 * b2 + 0x1_0000 * b3, 0x100, b2 + 0x100 * b3, b1);
    Bits.DivUnique(b2 + 0x100 * b3, 0x100, b3, b2);
  }

  lemma {:induction false} CopyMemFilled(mem: Memory, src: int, dst: int, n: nat)
    requires n <= W32 && Apart(dst, src, n)
    ensures Filled(mem, CopyMem(mem, src % W32, dst % W32, n), dst, SourceBytes(mem, src, n))
    decreases n
  {
    hide Filled, Apart, At8, At32, Load, Store, StoreByte, Byte, Low4, SourceBytes;
    var s, d := src % W32, dst % W32;
    if n == 0 {
      FilledNone(mem, dst);
      NoSource(mem, src);
    } else {
      var k := if n >= 4 then 4 else 1;
      var mid := if n >= 4 then Store(mem, d, Load(mem, s)) else StoreByte(mem, d, Byte(mem, s));
      PartFilled(mem, src, dst, k);
      SumWraps(src, k);
      SumWraps(dst, k);
      ApartOn(dst, src, n, k);
      CopyMemFilled(mid, src + k, dst + k, n - k);
      SourceLength(mem, src, k);
      SourceLength(mem, src + k, n - k);
      SourceKept(mem, mid, src, dst, n, SourceBytes(mem, src, k));
      FilledOn(mem, mid, CopyMem(mem, s, d, n), dst, SourceBytes(mem, src, k), SourceBytes(mem, src + k, n - k));
      SourceOn(mem, src, k, n);
    }
  }

  lemma NoSource(mem: Memory, a: int)
    ensures SourceBytes(mem, a, 0) == []
  {
  }

  lemma SourceLength(mem: Memory, a: int, n: nat)
    ensures |SourceBytes(mem, a, n)| == n
  {
  }

  lemma SourceOn(mem: Memory, a: int, k: nat, n: nat)
    requires k <= n
    ensures SourceBytes(mem, a, k) + SourceBytes(mem, a + k, n - k) == SourceBytes(mem, a, n)
  {
    hide At8;
    var xs, ys, zs := SourceBytes(mem, a, k), SourceBytes(mem, a + k, n - k), SourceBytes(mem, a, n);
    forall i | 0 <= i < n
      ensures (xs + ys)[i] == zs[i]
    {
      if i >= k {
        assert a + k + (i - k) == a + i;
      }
    }
  }

  /** One word or one byte copied. */
  lemma PartFilled(mem: Memory, src: int, dst: int, k: nat)
    requires k == 4 || k == 1
    ensures var s, d := src % W32, dst % W32;
      var mid := if k == 4 then Store(mem, d, Load(mem, s)) else StoreByte(mem, d, Byte(mem, s));
      Filled(mem, mid, dst, SourceBytes(mem, src, k))
  {
    hide Filled, Load, Store, StoreByte, Byte, At32;
    if k == 4 {
      LoadIs(mem, src);
      WordFilled(mem, dst, Load(mem, src % W32));
      WordBytes(mem, src);
    } else {
      ByteIs(mem, src % W32);
      At8Same(mem, src);
      ByteFilled(mem, dst, Byte(mem, src % W32));
      assert SourceBytes(mem, src, 1) == [At8(mem, src)];
    }
  }

  /** Code F copies as many bytes as the signed argument says from the offset to its address, when the ranges lie apart. */
  lemma MemoryCopy(l: List, e: Env, m: Machine)
    requires Ready(l, m) && Kind(l, At(l, m)) == 0xF
    requires var n := Arg(l, At(l, m)); n < 0x8000_0000 ==> Apart(Op(l, At(l, m)) % 0x1000_0000, m.r9, n)
    ensures var p, m' := At(l, m), Step(l, e, m);
      var n := Arg(l, p);
      && m.r12 + 8 < W32 && m' == m.(r12 := m.r12 + 8, mem := m'.mem)
      && (n < 0x8000_0000 ==> Filled(m.mem, m'.mem, Op(l, p) % 0x1000_0000, SourceBytes(m.mem, m.r9, n)))
      && (n >= 0x8000_0000 ==> m'.mem == m.mem)
  {
    hide WellFormed, Step, Filled, CopyMem, SourceBytes, Apart;
    InList(l, m);
    Executed(l, e, m);
    var p := At(l, m);
    if Arg(l, p) < 0x8000_0000 {
      CopyMemFilled(m.mem, m.r9, Op(l, p) % 0x1000_0000, Arg(l, p));
    } else {
      NothingCopied(m.mem, m.r9, Op(l, p) % 0x1000_0000, Signed(Arg(l, p)));
    }
  }

  lemma NothingCopied(mem: Memory, src: Word, dst: Word, n: int)
    requires n <= 0
    ensures CopyMem(mem, src, dst, n) == mem
  {
  }

  // ---------- a list that shows it ----------

  /** When 5 exceeds the word at 0x100, the word 7 is written to 0x200; D0, the end. */
  const GREATER := List(8, [0x3000_0100, 5, 0x200, 7, 0xD000_0000, 0, 0xCF00_0000, 0])

  lemma GreaterCodes()
    ensures var l := GREATER;
      && Here(l, 0) && Here(l, 8) && Here(l, 16) && Here(l, 24) && |l.words| == 8 && l.base == 8
      && Op(l, 0) == 0x3000_0100 && Op(l, 8) == 0x200 && Op(l, 16) == 0xD000_0000 && Op(l, 24) == 0xCF00_0000
      && Arg(l, 0) == 5 && Arg(l, 8) == 7
  {
  }

  lemma GreaterParse()
    ensures WellFormed(GREATER, 24) && WellFormed(GREATER, 16) && WellFormed(GREATER, 8) && GoodList(GREATER)
    ensures WellFormed(GREATER, 0) && Next(GREATER, 0) == 8 && Next(GREATER, 8) == 16 && Next(GREATER, 16) == 24
  {
    hide WellFormed, Next, Op, Arg, Here, GREATER;
    GreaterCodes();
    CheatNesting.Last(GREATER, 24);
    CheatNesting.Short(GREATER, 16);
    CheatNesting.Short(GREATER, 8);
    CheatNesting.Short(GREATER, 0);
  }

  function Paused(p: nat, r8: Word, mem: Memory): Machine
    requires p <= 24
  {
    Machine(0, 0, 0, 0, r8, 0, 8 + p, mem)
  }

  lemma GreaterCompared(e: Env, mem: Memory)
    requires GoodList(GREATER) && WellFormed(GREATER, 0)
    ensures Step(GREATER, e, Paused(0, 0, mem)) == Paused(8, if At32(mem, 0x100) < 5 then 0 else 1, mem)
  {
    hide WellFormed, Op, Arg, Here, Step, At32, GoodList, GREATER;
    GreaterCodes();
    WordCondition(GREATER, e, Paused(0, 0, mem));
    assert Place(0x3000_0100, 0) == 0x100;
  }

  lemma GreaterWritten(e: Env, mem: Memory)
    requires GoodList(GREATER) && WellFormed(GREATER, 8)
    ensures var m' := Step(GREATER, e, Paused(8, 0, mem));
      m' == Paused(16, 0, m'.mem) && Filled(mem, m'.mem, 0x200, [7, 0, 0, 0])
  {
    hide WellFormed, Op, Arg, Here, Step, Filled, GoodList, GREATER;
    GreaterCodes();
    RawWrites(GREATER, e, Paused(8, 0, mem));
    assert Low4(7) == [7, 0, 0, 0];
  }

  lemma GreaterSkipped(e: Env, mem: Memory)
    requires GoodList(GREATER) && WellFormed(GREATER, 8)
    ensures Step(GREATER, e, Paused(8, 1, mem)) == Paused(16, 1, mem)
  {
    hide WellFormed, Op, Arg, Here, Execute, Inlined, Close, GoodList, GREATER;
    GreaterCodes();
  }

  lemma GreaterClosed(e: Env, r8: Word, mem: Memory)
    requires GoodList(GREATER) && WellFormed(GREATER, 16) && r8 <= 1
    ensures Step(GREATER, e, Paused(16, r8, mem)) == Paused(24, 0, mem)
  {
    hide WellFormed, Op, Arg, Here, Step, GoodList, GREATER;
    GreaterCodes();
    Closers(GREATER, e, Paused(16, r8, mem));
  }

  /** The run from the closing code on. */
  lemma GreaterEnds(e: Env, r8: Word, mem: Memory)
    requires Inv(GREATER, Paused(16, r8, mem)) && r8 <= 1
    ensures Final(GREATER, e, Paused(16, r8, mem)).mem == mem
  {
    hide WellFormed, Step, Inv, Op, Arg, Here, Next, Final, GoodList, GREATER;
    GreaterCodes();
    GreaterParse();
    GreaterClosed(e, r8, mem);
    CheatNesting.FinalStep(GREATER, e, Paused(16, r8, mem));
    CheatNesting.AtEnd(GREATER, e, Paused(24, 0, mem));
  }

  /** In every memory: the list writes 7 to 0x200 exactly when the word at 0x100 is below 5, and nothing else. */
  lemma GreaterWrites(e: Env, mem: Memory)
    ensures Inv(GREATER, Start(GREATER, mem))
    ensures var after := Final(GREATER, e, Start(GREATER, mem)).mem;
      if At32(mem, 0x100) < 5 then Filled(mem, after, 0x200, [7, 0, 0, 0]) else after == mem
  {
    hide WellFormed, Step, Inv, Op, Arg, Here, Next, Final, GoodList, Filled, At32, GREATER;
    GreaterCodes();
    GreaterParse();
    StartInv(GREATER, mem);
    GreaterCompared(e, mem);
    CheatNesting.FinalStep(GREATER, e, Paused(0, 0, mem));
    if At32(mem, 0x100) < 5 {
      GreaterWritten(e, mem);
      CheatNesting.FinalStep(GREATER, e, Paused(8, 0, mem));
      GreaterEnds(e, 0, Step(GREATER, e, Paused(8, 0, mem)).mem);
    } else {
      GreaterSkipped(e, mem);
      CheatNesting.FinalStep(GREATER, e, Paused(8, 1, mem));
      GreaterEnds(e, 1, mem);
    }
  }
}
