/**
 * The cheat-code interpreter: a register machine over a list of two-word codes, with conditions,
 * one repeat loop, inline data and an offset register.
 */
module CheatEngine {
  import Bits
  import Limbs
  import MachineWords

  const W32 := Limbs.BASE

  type Word = MachineWords.Word

  // ---------- 32-bit register arithmetic ----------

  function Add(a: Word, b: Word): Word {
    (a + b) % W32
  }

  function Signed(a: Word): int {
    if a < 0x8000_0000 then a else a - W32
  }

  /** Register shifts use the low byte of the amount; from 32 on nothing of the register is left. */
  function Lsl(a: Word, n: Word): Word {
    if n % 256 >= 32 then 0 else Shifted(a, n % 256)
  }

  function Shifted(a: Word, k: nat): Word {
    Limbs.MulMono(0, a, Bits.Two(k));
    a * Bits.Two(k) % W32
  }

  function Lsr(a: Word, n: Word): Word {
    if n % 256 >= 32 then 0 else Dropped(a, n % 256)
  }

  function Dropped(a: Word, k: nat): (r: Word)
    ensures k <= 32 ==> r < Bits.Two(32 - k)
  {
    Quotient(a, k);
    a / Bits.Two(k)
  }

  lemma Quotient(a: Word, k: nat)
    ensures 0 <= a / Bits.Two(k) <= a
    ensures k <= 32 ==> a / Bits.Two(k) < Bits.Two(32 - k)
  {
    hide Bits.Two;
    var d := Bits.Two(k);
    Bits.DivBounds(a, d);
    Limbs.MulMono(1, d, a / d);
    if k <= 32 {
      Bits.TwoSplit(k);
      if a / d >= Bits.Two(32 - k) {
        Limbs.MulMono(Bits.Two(32 - k), a / d, d);
      }
    }
  }

  /** Downwards in signed arithmetic; a shift by 31 leaves nothing but the sign. */
  function Asr(a: Word, n: Word): Word {
    var k := if n % 256 >= 32 then 31 else n % 256;
    Signed(a) / Bits.Two(k) % W32
  }

  function Ror(a: Word, n: Word): Word {
    Turned(a, n % 32)
  }

  /** The low k digits of a word moved above the others. */
  function Turned(a: Word, k: nat): Word
    requires k < 32
  {
    TurnRoom(a, k);
    a % Bits.Two(k) * Bits.Two(32 - k) + Dropped(a, k)
  }

  lemma TurnRoom(a: Word, k: nat)
    requires k < 32
    ensures 0 <= a % Bits.Two(k) * Bits.Two(32 - k) + Dropped(a, k) < W32
  {
    hide Bits.Two;
    var d, h := Bits.Two(k), Bits.Two(32 - k);
    Bits.TwoSplit(k);
    Bits.DivBounds(a, d);
    Limbs.MulMono(0, a % d, h);
    Limbs.MulMono(a % d + 1, d, h);
    Limbs.DistSum(a % d, 1, h);
  }

  // ---------- memory ----------

  type Memory = map<Word, Word>

  function Byte(m: Memory, a: Word): Word {
    if a in m then m[a] % 256 else 0
  }

  function Half(m: Memory, a: Word): Word {
    Byte(m, a) + 0x100 * Byte(m, Add(a, 1))
  }

  function Load(m: Memory, a: Word): Word {
    Half(m, a) + 0x1_0000 * Half(m, Add(a, 2))
  }

  function StoreByte(m: Memory, a: Word, v: Word): Memory {
    m[a := v % 256]
  }

  function StoreHalf(m: Memory, a: Word, v: Word): Memory {
    StoreByte(StoreByte(m, a, v), Add(a, 1), v / 0x100)
  }

  function Store(m: Memory, a: Word, v: Word): Memory {
    StoreHalf(StoreHalf(m, a, v), Add(a, 2), v / 0x1_0000)
  }

  // ---------- the code list ----------

  /** The list sits at a base address that is a multiple of eight and ends below 2^31. */
  datatype List = List(base: Word, words: seq<Word>)

  /** Byte i of the list. */
  function ListByte(l: List, i: nat): Word
    requires i < 4 * |l.words|
  {
    var w := l.words[i / 4];
    var k := i % 4;
    (if k == 0 then w else if k == 1 then w / 0x100 else if k == 2 then w / 0x1_0000 else w / 0x100_0000) % 256
  }

  /** There is a whole code at offset p. */
  predicate Here(l: List, p: int) {
    0 <= p && p % 8 == 0 && p + 8 <= 4 * |l.words|
  }

  function Op(l: List, p: int): Word
    requires Here(l, p)
  {
    l.words[p / 4]
  }

  function Arg(l: List, p: int): Word
    requires Here(l, p)
  {
    l.words[p / 4 + 1]
  }

  function Kind(l: List, p: int): int
    requires Here(l, p)
  {
    Op(l, p) / 0x1000_0000
  }

  function Kind8(l: List, p: int): int
    requires Here(l, p)
  {
    Op(l, p) / 0x100_0000
  }

  predicate IsEnd(l: List, p: int)
    requires Here(l, p)
  {
    Op(l, p) == 0xCF00_0000
  }

  /** D0, D1 and D2 act even while execution is switched off. */
  predicate IsCloser(l: List, p: int)
    requires Here(l, p)
  {
    0xD0 <= Kind8(l, p) <= 0xD2
  }

  function Align(a: int): int {
    (a + 7) / 8 * 8
  }

  /** Inline data after the code word, in bytes. */
  function Inline(l: List, p: int): int
    requires Here(l, p)
  {
    if Kind(l, p) == 0xE || Kind8(l, p) == 0xC2 then Arg(l, p)
    else if Kind8(l, p) == 0xC1 then Op(l, p) % 8
    else 0
  }

  /** The static parse: where the next code starts, whatever the run does. */
  function Next(l: List, p: int): int
    requires Here(l, p)
  {
    Align(p + 8 + Inline(l, p))
  }

  /** From p the parse runs over whole codes with sensible inline sizes to a CF code. */
  ghost predicate WellFormed(l: List, p: int)
    decreases 4 * |l.words| - p
  {
    && Here(l, p)
    && (IsEnd(l, p) || (Inline(l, p) < 0x8000_0000 && Next(l, p) > p && WellFormed(l, Next(l, p))))
  }

  ghost predicate GoodList(l: List) {
    l.base % 8 == 0 && 0 < l.base && l.base + 4 * |l.words| < 0x8000_0000 && WellFormed(l, 0)
  }

  lemma AlignUp(a: int)
    ensures a <= Align(a) < a + 8 && Align(a) % 8 == 0
    ensures a % 8 == 0 ==> Align(a) == a
  {
  }

  lemma AlignBase(base: int, a: int)
    requires base % 8 == 0
    ensures Align(base + a) == base + Align(a)
  {
  }

  // ---------- the machine ----------

  datatype Machine = Machine(
    r4: Word,   // loop: saved execution status
    r5: Word,   // data register
    r6: Word,   // loop: remaining repeats
    r7: Word,   // loop: start
    r8: Word,   // execution status; bit 0 set means skip
    r9: Word,   // offset register
    r12: Word,  // code pointer
    mem: Memory)

  /** What the interpreter cannot see: the frame counter and the functions that C1 and C2 call. */
  datatype Env = Env(counter: Word, call: (Word, Memory) -> Memory)

  function Start(l: List, mem: Memory): Machine {
    Machine(0, 0, 0, 0, 0, 0, l.base, mem)
  }

  predicate Running(m: Machine) {
    m.r8 % 2 == 0
  }

  /** Pushing a condition: the status moves up one bit, a failed condition sets the lowest. */
  function Push(r8: Word, pass: bool): Word {
    var s := r8 * 2 % W32;
    if pass then s else s + 1
  }

  /** The address of a conditional code. */
  function CondAddress(op: Word, r9: Word): Word {
    var a := op % 0x1000_0000 / 2 * 2;
    var b := if op % 2 == 1 then Add(a, r9) else a;
    if b == 0 then r9 else b
  }

  function Condition(m: Machine, kind: int, op: Word, arg: Word): bool {
    if kind <= 6 then
      var v := Load(m.mem, CondAddress(op, m.r9));
      if kind == 3 then arg > v else if kind == 4 then arg < v else if kind == 5 then arg == v else arg != v
    else
      var v := MachineWords.AndWord(Half(m.mem, CondAddress(op, m.r9)), 0xFFFF_FFFF - arg / 0x1_0000);
      var c := arg % 0x1_0000;
      if kind == 7 then c > v else if kind == 8 then c < v else if kind == 9 then c == v else c != v
  }

  /** D4: the data register combined with the argument. */
  function DataOp(r5: Word, sel: int, arg: Word): Word {
    if sel == 0 then Add(r5, arg)
    else if sel == 1 then MachineWords.OrWord(r5, arg)
    else if sel == 2 then MachineWords.AndWord(r5, arg)
    else if sel == 3 then MachineWords.XorWord(r5, arg)
    else if sel == 4 then Lsl(r5, arg)
    else if sel == 5 then Lsr(r5, arg)
    else if sel == 6 then Ror(r5, arg)
    else if sel == 7 then Asr(r5, arg)
    else if sel == 8 then arg * r5 % W32
    else r5
  }

  /** Copies n bytes of the list, starting at offset p, to address a. */
  function CopyIn(l: List, mem: Memory, p: nat, a: Word, n: nat): Memory
    requires p + n <= 4 * |l.words|
    decreases n
  {
    if n == 0 then mem
    else CopyIn(l, StoreByte(mem, a, ListByte(l, p)), p + 1, Add(a, 1), n - 1)
  }

  /** Copies bytes within memory as the F code does: whole words first, then single bytes. */
  function CopyMem(mem: Memory, src: Word, dst: Word, n: int): Memory
    decreases n
  {
    if n >= 4 then CopyMem(Store(mem, dst, Load(mem, src)), Add(src, 4), Add(dst, 4), n - 4)
    else if n >= 1 then CopyMem(StoreByte(mem, dst, Byte(mem, src)), Add(src, 1), Add(dst, 1), n - 1)
    else mem
  }

  /** Codes 0 to B and F, and the plain C and D codes, while running. */
  function Execute(l: List, e: Env, m: Machine, p: int): Machine
    requires Here(l, p) && l.base + 4 * |l.words| < W32
  {
    var op, arg, kind, kind8 := Op(l, p), Arg(l, p), Kind(l, p), Kind8(l, p);
    var a: Word := op % 0x1000_0000;
    if kind == 0 then m.(mem := Store(m.mem, Add(a, m.r9), arg))
    else if kind == 1 then m.(mem := StoreHalf(m.mem, Add(a, m.r9), arg))
    else if kind == 2 then m.(mem := StoreByte(m.mem, Add(a, m.r9), arg))
    else if kind <= 0xA then m.(r8 := Push(m.r8, Condition(m, kind, op, arg)))
    else if kind == 0xB then m.(r9 := Load(m.mem, Add(a, m.r9)))
    else if kind == 0xC then
      if kind8 == 0xC0 then m.(r4 := m.r8, r6 := arg, r7 := (l.base + p + 8))
      else if kind8 == 0xC5 then
        m.(r8 := Push(m.r8, MachineWords.AndWord(e.counter, arg % 0x1_0000) == arg / 0x1_0000))
      else if kind8 < 0xC5 then m.(r9 := l.base + p)
      else m.(mem := Store(m.mem, arg, m.r9))
    else if kind == 0xD then
      if kind8 == 0xD3 then m.(r9 := arg)
      else if kind8 == 0xD4 then m.(r5 := DataOp(m.r5, op % 256, arg))
      else if kind8 == 0xD5 then m.(r5 := arg)
      else if kind8 == 0xD6 then m.(mem := Store(m.mem, Add(arg, m.r9), m.r5), r9 := Add(m.r9, 4))
      else if kind8 == 0xD7 then m.(mem := StoreHalf(m.mem, Add(arg, m.r9), m.r5), r9 := Add(m.r9, 2))
      else if kind8 == 0xD8 then m.(mem := StoreByte(m.mem, Add(arg, m.r9), m.r5), r9 := Add(m.r9, 1))
      else if kind8 == 0xD9 then m.(r5 := Load(m.mem, Add(arg, m.r9)))
      else if kind8 == 0xDA then m.(r5 := Half(m.mem, Add(arg, m.r9)))
      else if kind8 == 0xDB then m.(r5 := Byte(m.mem, Add(arg, m.r9)))
      else m.(r9 := Add(m.r9, arg))
    else if kind == 0xF then m.(mem := CopyMem(m.mem, m.r9, a, Signed(arg)))
    else m
  }

  /** The closing codes, which act whether or not execution is switched on. */
  function Close(m: Machine, kind8: int, after: Word): Machine {
    if kind8 == 0xD0 then m.(r8 := m.r8 / 2, r12 := after)
    else if Signed(m.r6) > 0 then m.(r8 := m.r4, r6 := m.r6 - 1, r12 := m.r7)
    else if kind8 == 0xD1 then m.(r8 := m.r4, r12 := after)
    else m.(r8 := 0, r5 := 0, r9 := 0, r12 := after)
  }

  /** Inline-data codes: E copies its data, C1 and C2 call; switched off, they only move the pointer. */
  function Inlined(l: List, e: Env, m: Machine, p: int): Machine
    requires Here(l, p) && l.base + 4 * |l.words| < W32
    requires 0 <= Inline(l, p) && Next(l, p) <= 4 * |l.words|
  {
    var op, arg := Op(l, p), Arg(l, p);
    AlignUp(p + 8 + Inline(l, p));
    var m' := m.(r12 := l.base + Next(l, p));
    if !Running(m) then m'
    else if Kind(l, p) == 0xE then
      m'.(mem := CopyIn(l, m.mem, p + 8, Add(op % 0x1000_0000, m.r9), arg))
    else if Kind8(l, p) == 0xC1 then m'.(mem := e.call(arg, m.mem))
    else m'.(mem := e.call(Add(l.base + p + 8, op % 2), m.mem))
  }

  predicate HasInline(l: List, p: int)
    requires Here(l, p)
  {
    Kind(l, p) == 0xE || Kind8(l, p) == 0xC1 || Kind8(l, p) == 0xC2
  }

  /** The offset in the list of the next fetch. */
  function At(l: List, m: Machine): int {
    m.r12 - l.base
  }

  /** One code. The machine stops at a CF code. */
  function Step(l: List, e: Env, m: Machine): Machine
    requires GoodList(l) && WellFormed(l, At(l, m))
  {
    var p := At(l, m);
    if IsEnd(l, p) then m
    else if HasInline(l, p) then
      FetchRoom(l, p);
      Inlined(l, e, m, p)
    else if IsCloser(l, p) then Close(m, Kind8(l, p), l.base + p + 8)
    else
      var m' := m.(r12 := l.base + p + 8);
      if Running(m) then Execute(l, e, m', p) else m'
  }

  lemma WholeCode(l: List, p: int)
    requires WellFormed(l, p)
    ensures Here(l, p)
  {
  }

  lemma FetchRoom(l: List, p: int)
    requires WellFormed(l, p) && !IsEnd(l, p)
    ensures Next(l, p) <= 4 * |l.words| && Next(l, p) > p
    ensures !HasInline(l, p) ==> Next(l, p) == p + 8
  {
    AlignUp(p + 8 + Inline(l, p));
  }

  // ---------- the static parse ----------

  /** The parse that starts at q comes by p. */
  ghost predicate Reach(l: List, q: int, p: int)
    decreases 4 * |l.words| - q
  {
    q == p || (Here(l, q) && !IsEnd(l, q) && Next(l, q) > q && Reach(l, Next(l, q), p))
  }

  /** Offset p is one of the places where the parse of the whole list fetches a code. */
  ghost predicate OnParse(l: List, p: int) {
    Reach(l, 0, p) && WellFormed(l, p)
  }

  lemma {:induction false} ReachNext(l: List, q: int, p: int)
    requires Reach(l, q, p) && WellFormed(l, p) && !IsEnd(l, p)
    ensures Reach(l, q, Next(l, p))
    decreases 4 * |l.words| - q
  {
    if q != p {
      ReachNext(l, Next(l, q), p);
    }
  }

  lemma NextOnParse(l: List, p: int)
    requires OnParse(l, p) && !IsEnd(l, p)
    ensures OnParse(l, Next(l, p)) && p < Next(l, p) <= 4 * |l.words|
  {
    ReachNext(l, 0, p);
    FetchRoom(l, p);
  }

  /** The k-th fetch of the parse that starts at p. */
  ghost function ParseAt(l: List, p: int, k: nat): int
    requires WellFormed(l, p)
    ensures WellFormed(l, ParseAt(l, p, k))
    decreases k
  {
    if k == 0 || IsEnd(l, p) then p else ParseAt(l, Next(l, p), k - 1)
  }

  // ---------- what every step keeps ----------

  ghost predicate Inv(l: List, m: Machine) {
    && GoodList(l)
    && OnParse(l, At(l, m))
    && (m.r8 == 0 || m.r8 == 1)
    && m.r4 == 0
    && m.r7 <= m.r12
    && (Signed(m.r6) > 0 ==> OnParse(l, m.r7 - l.base))
  }

  lemma StartInv(l: List, mem: Memory)
    requires GoodList(l)
    ensures Inv(l, Start(l, mem))
  {
  }

  /** A code without inline data, executed: only C0 touches the loop registers, only conditions the status. */
  lemma ExecuteKeeps(l: List, e: Env, m: Machine, p: int)
    requires Here(l, p) && l.base + 4 * |l.words| < W32 && m.r8 == 0
    ensures var m' := Execute(l, e, m, p);
      && m'.r12 == m.r12
      && (m'.r8 == 0 || m'.r8 == 1)
      && (Kind8(l, p) == 0xC0 ==> m' == m.(r4 := 0, r6 := Arg(l, p), r7 := (l.base + p + 8)))
      && (Kind8(l, p) != 0xC0 ==> m'.r4 == m.r4 && m'.r6 == m.r6 && m'.r7 == m.r7)
  {
    hide Store, StoreHalf, StoreByte, Load, Half, Byte, CopyMem, DataOp, Condition, MachineWords.AndWord, Add;
  }

  /** A code that is no end and neither opens nor closes a loop: the run moves on along the parse. */
  ghost predicate Plain(l: List, p: int)
    requires Here(l, p)
  {
    !IsEnd(l, p) && Kind8(l, p) != 0xC0 && Kind8(l, p) != 0xD1 && Kind8(l, p) != 0xD2
  }

  lemma StraightStep(l: List, e: Env, m: Machine)
    requires Inv(l, m) && Plain(l, At(l, m))
    ensures var m' := Step(l, e, m);
      && Inv(l, m')
      && At(l, m') == Next(l, At(l, m))
      && m'.r4 == m.r4 && m'.r6 == m.r6 && m'.r7 == m.r7
  {
    hide Execute, Next, CopyIn, Store;
    var p := At(l, m);
    NextOnParse(l, p);
    FetchRoom(l, p);
    if !HasInline(l, p) && !IsCloser(l, p) && Running(m) {
      ExecuteKeeps(l, e, m.(r12 := l.base + p + 8), p);
    }
  }

  /** C0 while switched on starts a loop here; while switched off it is skipped. */
  lemma LoopStep(l: List, e: Env, m: Machine)
    requires Inv(l, m) && Kind8(l, At(l, m)) == 0xC0
    ensures var m', p := Step(l, e, m), At(l, m);
      && Inv(l, m')
      && m' == if m.r8 == 0 then m.(r4 := 0, r6 := Arg(l, p), r7 := (l.base + p + 8), r12 := l.base + p + 8)
               else m.(r12 := l.base + p + 8)
  {
    hide Execute, Next, CopyIn, Store;
    var p := At(l, m);
    NextOnParse(l, p);
    FetchRoom(l, p);
    if Running(m) {
      ExecuteKeeps(l, e, m.(r12 := l.base + p + 8), p);
    }
  }

  /** D1 and D2 while repeats are left go back to the loop start; otherwise they move on. */
  lemma CloseStep(l: List, e: Env, m: Machine)
    requires Inv(l, m) && 0xD1 <= Kind8(l, At(l, m)) <= 0xD2
    ensures var m', p := Step(l, e, m), At(l, m);
      && Inv(l, m')
      && m'.r8 == 0 && m'.r7 == m.r7 && m'.mem == m.mem
      && (if Signed(m.r6) > 0
          then m'.r12 == m.r7 && m'.r6 == m.r6 - 1
          else m'.r12 == l.base + p + 8 && m'.r6 == m.r6 && Next(l, p) == p + 8)
  {
    hide Execute, Next, CopyIn, Store;
    var p := At(l, m);
    NextOnParse(l, p);
    FetchRoom(l, p);
  }

  function Repeats(m: Machine): nat {
    if Signed(m.r6) > 0 then Signed(m.r6) else 0
  }

  /** The measure: what is left after the loop start, then the repeats, then what is left after the code pointer. */
  ghost predicate Below(l: List, m': Machine, m: Machine) {
    || m'.r7 > m.r7
    || (m'.r7 == m.r7 && Repeats(m') < Repeats(m))
    || (m'.r7 == m.r7 && Repeats(m') == Repeats(m) && m'.r12 > m.r12)
  }

  /** Every step that is not the end keeps the invariant and goes down in the measure. */
  lemma StepKeeps(l: List, e: Env, m: Machine)
    requires Inv(l, m) && !IsEnd(l, At(l, m))
    ensures Inv(l, Step(l, e, m)) && Below(l, Step(l, e, m), m)
  {
    hide Step, Next, Reach;
    var p := At(l, m);
    NextOnParse(l, p);
    if Kind8(l, p) == 0xC0 {
      LoopStep(l, e, m);
    } else if Kind8(l, p) == 0xD1 || Kind8(l, p) == 0xD2 {
      CloseStep(l, e, m);
    } else {
      StraightStep(l, e, m);
    }
  }

  // ---------- whole runs ----------

  /** n codes of a run. */
  ghost function Iterate(l: List, e: Env, m: Machine, n: nat): (r: Machine)
    requires Inv(l, m)
    ensures Inv(l, r)
    decreases n
  {
    if n == 0 || IsEnd(l, At(l, m)) then m
    else
      StepKeeps(l, e, m);
      Iterate(l, e, Step(l, e, m), n - 1)
  }

  /** The run to its end. That this function is total is the termination theorem. */
  ghost function Final(l: List, e: Env, m: Machine): (r: Machine)
    requires Inv(l, m)
    ensures Inv(l, r) && IsEnd(l, At(l, r))
    decreases l.base + 4 * |l.words| - m.r7, Repeats(m), l.base + 4 * |l.words| - m.r12
  {
    hide Step, Reach;
    if IsEnd(l, At(l, m)) then m
    else
      StepKeeps(l, e, m);
      FetchesInside(l, m);
      FetchesInside(l, Step(l, e, m));
      Final(l, e, Step(l, e, m))
  }

  /** Every fetch lies inside the list. */
  lemma FetchesInside(l: List, m: Machine)
    requires Inv(l, m)
    ensures l.base <= m.r12 && m.r12 + 8 <= l.base + 4 * |l.words| && m.r12 % 8 == 0
  {
  }

  /** The run reaches its end after a finite number of codes. */
  lemma {:induction false} Terminates(l: List, e: Env, m: Machine) returns (n: nat)
    requires Inv(l, m)
    ensures Iterate(l, e, m, n) == Final(l, e, m) && IsEnd(l, At(l, Iterate(l, e, m, n)))
    decreases l.base + 4 * |l.words| - m.r7, Repeats(m), l.base + 4 * |l.words| - m.r12
  {
    hide Step, Reach;
    if IsEnd(l, At(l, m)) {
      n := 0;
    } else {
      StepKeeps(l, e, m);
      FetchesInside(l, m);
      FetchesInside(l, Step(l, e, m));
      var k := Terminates(l, e, Step(l, e, m));
      n := k + 1;
    }
  }

  /** In every state of every run the status is 0 or 1, the saved status is 0 and the fetch is on the static parse. */
  lemma EveryState(l: List, e: Env, mem: Memory, n: nat)
    requires GoodList(l)
    ensures Inv(l, Start(l, mem))
    ensures var m := Iterate(l, e, Start(l, mem), n);
      && (m.r8 == 0 || m.r8 == 1) && m.r4 == 0 && OnParse(l, At(l, m))
  {
    StartInv(l, mem);
  }

  lemma {:induction false} IterateAdd(l: List, e: Env, m: Machine, a: nat, b: nat)
    requires Inv(l, m)
    ensures Iterate(l, e, m, a + b) == Iterate(l, e, Iterate(l, e, m, a), b)
    decreases a
  {
    hide Step, Reach;
    if a != 0 && !IsEnd(l, At(l, m)) {
      StepKeeps(l, e, m);
      IterateAdd(l, e, Step(l, e, m), a - 1, b);
    }
  }

  // ---------- skipping ----------

  /** How many codes lie before the next D0, D1, D2 or end on the parse. */
  ghost function Distance(l: List, p: int): nat
    requires WellFormed(l, p)
    decreases 4 * |l.words| - p
  {
    if IsEnd(l, p) || IsCloser(l, p) then 0 else 1 + Distance(l, Next(l, p))
  }

  lemma SkipStep(l: List, e: Env, m: Machine)
    requires Inv(l, m) && m.r8 == 1 && !IsEnd(l, At(l, m)) && !IsCloser(l, At(l, m))
    ensures var p := At(l, m);
      && p < Next(l, p) <= 4 * |l.words|
      && Step(l, e, m) == m.(r12 := l.base + Next(l, p))
      && Inv(l, m.(r12 := l.base + Next(l, p)))
  {
    hide Execute, Next, CopyIn, Reach;
    var p := At(l, m);
    NextOnParse(l, p);
    FetchRoom(l, p);
    StepKeeps(l, e, m);
  }

  /** After a false condition the run does nothing but move along the parse to the next D0, D1, D2 or end. */
  lemma {:induction false} SkipTo(l: List, e: Env, m: Machine, k: nat)
    requires Inv(l, m) && m.r8 == 1 && k <= Distance(l, At(l, m))
    ensures 0 <= ParseAt(l, At(l, m), k) <= 4 * |l.words|
    ensures Iterate(l, e, m, k) == m.(r12 := l.base + ParseAt(l, At(l, m), k))
    ensures var q := ParseAt(l, At(l, m), Distance(l, At(l, m))); IsEnd(l, q) || IsCloser(l, q)
    decreases 4 * |l.words| - At(l, m), k
  {
    hide Step, Reach, Next;
    var p := At(l, m);
    if IsEnd(l, p) || IsCloser(l, p) {
    } else {
      SkipStep(l, e, m);
      StepKeeps(l, e, m);
      var m' := Step(l, e, m);
      SkipTo(l, e, m', if k == 0 then 0 else k - 1);
    }
  }

  /** The next D0, D1 or D2, whichever it is, switches execution on again: conditions do not nest. */
  lemma CloserResumes(l: List, e: Env, m: Machine)
    requires Inv(l, m) && IsCloser(l, At(l, m))
    ensures Step(l, e, m).r8 == 0
  {
    hide Execute, Next, CopyIn, Reach;
  }

  // ---------- loops ----------

  /** From p, d codes that are all plain lead to a D1 or D2. */
  ghost predicate LoopBody(l: List, p: int, d: nat)
    requires WellFormed(l, p)
    decreases d
  {
    if d == 0 then 0xD1 <= Kind8(l, p) <= 0xD2 && !IsEnd(l, p)
    else Plain(l, p) && LoopBody(l, Next(l, p), d - 1)
  }

  /** Within a loop body the run takes one code after the other, whatever conditions say. */
  lemma {:induction false} BodyPass(l: List, e: Env, m: Machine, d: nat, j: nat)
    requires Inv(l, m) && LoopBody(l, At(l, m), d) && j <= d
    ensures var m' := Iterate(l, e, m, j);
      && At(l, m') == ParseAt(l, At(l, m), j)
      && m'.r6 == m.r6 && m'.r7 == m.r7
      && (j == d ==> 0xD1 <= Kind8(l, At(l, m')) <= 0xD2)
    decreases j
  {
    hide Step, Reach, Next;
    if j != 0 {
      StraightStep(l, e, m);
      BodyPass(l, e, Step(l, e, m), d - 1, j - 1);
    }
  }

  /** One pass: the d codes of the body and the closing code. */
  lemma OnePass(l: List, e: Env, m: Machine, d: nat)
    requires Inv(l, m) && LoopBody(l, At(l, m), d) && m.r12 == m.r7
    ensures var m', q := Iterate(l, e, m, d + 1), ParseAt(l, At(l, m), d);
      && m'.r7 == m.r7
      && (if Signed(m.r6) > 0 then m'.r12 == m.r7 && m'.r6 == m.r6 - 1
          else At(l, m') == Next(l, q))
  {
    hide Step, Reach, Next, WellFormed, ParseAt, LoopBody;
    BodyPass(l, e, m, d, d);
    var c := Iterate(l, e, m, d);
    IterateAdd(l, e, m, d, 1);
    assert Iterate(l, e, c, 1) == Step(l, e, c) by { IterateOne(l, e, c); }
    CloseStep(l, e, c);
  }

  lemma IterateOne(l: List, e: Env, m: Machine)
    requires Inv(l, m) && !IsEnd(l, At(l, m))
    ensures Iterate(l, e, m, 1) == Step(l, e, m)
  {
    hide Step, Reach;
    StepKeeps(l, e, m);
    assert Iterate(l, e, Step(l, e, m), 0) == Step(l, e, m);
  }

  /** The number of codes in k passes. */
  ghost function Span(d: nat, k: nat): nat {
    if k == 0 then 0 else Span(d, k - 1) + (d + 1)
  }

  /** After k passes, k up to the repeat count, the run is back at the loop start with k repeats used. */
  lemma {:induction false} ManyPasses(l: List, e: Env, m: Machine, d: nat, k: nat)
    requires Inv(l, m) && LoopBody(l, At(l, m), d) && m.r12 == m.r7 && k <= Repeats(m)
    ensures var m' := Iterate(l, e, m, Span(d, k));
      m'.r7 == m.r7 && m'.r12 == m.r7 && Repeats(m') == Repeats(m) - k
    decreases k
  {
    hide Step, Reach, Next, WellFormed, ParseAt, Iterate, LoopBody;
    if k == 0 {
      assert Iterate(l, e, m, 0) == m by { IterateZero(l, e, m); }
    } else {
      ManyPasses(l, e, m, d, k - 1);
      var c := Iterate(l, e, m, Span(d, k - 1));
      OnePass(l, e, c, d);
      IterateAdd(l, e, m, Span(d, k - 1), d + 1);
    }
  }

  lemma IterateZero(l: List, e: Env, m: Machine)
    requires Inv(l, m)
    ensures Iterate(l, e, m, 0) == m
  {
  }

  /**
   * A loop C0 n ... D1/D2 without an inner C0, D1 or D2 makes exactly max(n, 0) + 1 passes: pass number i starts at
   * the code after the C0 for every i up to that, fetches each code of the body once, and the last one goes on behind
   * the closing code.
   */
  lemma LoopTheorem(l: List, e: Env, m: Machine, d: nat, i: nat, j: nat)
    requires Inv(l, m) && m.r8 == 0 && Kind8(l, At(l, m)) == 0xC0
    requires WellFormed(l, At(l, m) + 8) && LoopBody(l, At(l, m) + 8, d)
    requires j <= d
    ensures var n := if Signed(Arg(l, At(l, m))) > 0 then Signed(Arg(l, At(l, m))) else 0;
      var start := At(l, m) + 8;
      && (i <= n ==> At(l, Iterate(l, e, m, 1 + Span(d, i) + j)) == ParseAt(l, start, j))
      && At(l, Iterate(l, e, m, 1 + Span(d, n + 1))) == Next(l, ParseAt(l, start, d))
  {
    hide Step, Reach, Next, WellFormed, ParseAt, Iterate, LoopBody, Span;
    LoopStep(l, e, m);
    var s := Step(l, e, m);
    var n := Repeats(s);
    IterateOne(l, e, m);
    if i <= n {
      ManyPasses(l, e, s, d, i);
      var c := Iterate(l, e, s, Span(d, i));
      BodyPass(l, e, c, d, j);
      IterateAdd(l, e, s, Span(d, i), j);
      IterateAdd(l, e, m, 1, Span(d, i) + j);
    }
    ManyPasses(l, e, s, d, n);
    var c := Iterate(l, e, s, Span(d, n));
    OnePass(l, e, c, d);
    IterateAdd(l, e, s, Span(d, n), d + 1);
    IterateAdd(l, e, m, 1, Span(d, n) + (d + 1));
    assert Span(d, n + 1) == Span(d, n) + (d + 1) by { SpanNext(d, n); }
  }

  lemma SpanNext(d: nat, n: nat)
    ensures Span(d, n + 1) == Span(d, n) + (d + 1)
  {
  }

  // ---------- the interpreter itself ----------

  /** Four bytes of the list are one aligned word of it. */
  lemma CopyWord(l: List, mem: Memory, p: nat, a: Word, n: nat)
    requires p % 4 == 0 && 4 <= n && p + n <= 4 * |l.words|
    ensures CopyIn(l, mem, p, a, n) == CopyIn(l, Store(mem, a, l.words[p / 4]), p + 4, Add(a, 4), n - 4)
  {
    hide CopyIn, StoreByte, Store, Add, ListByte;
    var w := l.words[p / 4];
    var m1 := StoreByte(mem, a, w);
    var m2 := StoreByte(m1, Add(a, 1), w / 0x100);
    var m3 := StoreByte(m2, Add(a, 2), w / 0x1_0000);
    CopyByte(l, mem, p, a, n);
    CopyByte(l, m1, p + 1, Add(a, 1), n - 1);
    CopyByte(l, m2, p + 2, Add(a, 2), n - 2);
    CopyByte(l, m3, p + 3, Add(a, 3), n - 3);
    ByteOfWord(l, mem, p, a);
    ByteOfWord(l, m1, p + 1, Add(a, 1));
    ByteOfWord(l, m2, p + 2, Add(a, 2));
    ByteOfWord(l, m3, p + 3, Add(a, 3));
    StoreIsFour(mem, a, w);
    AddAdd(a, 1, 1);
    AddAdd(a, 2, 1);
    AddAdd(a, 3, 1);
  }

  lemma StoreIsFour(mem: Memory, a: Word, w: Word)
    ensures Store(mem, a, w) ==
      StoreByte(StoreByte(StoreByte(StoreByte(mem, a, w), Add(a, 1), w / 0x100), Add(a, 2), w / 0x1_0000),
                Add(a, 3), w / 0x1_0000 / 0x100)
  {
    AddAdd(a, 2, 1);
  }

  /** Storing the low byte of a shifted word is storing that byte of the list. */
  lemma ByteOfWord(l: List, mem: Memory, p: nat, a: Word)
    requires p < 4 * |l.words|
    ensures var w, k := l.words[p / 4], p % 4;
      StoreByte(mem, a, ListByte(l, p)) ==
      StoreByte(mem, a, if k == 0 then w else if k == 1 then w / 0x100 else if k == 2 then w / 0x1_0000
                        else w / 0x1_0000 / 0x100)
  {
  }

  lemma CopyByte(l: List, mem: Memory, p: nat, a: Word, n: nat)
    requires 1 <= n && p + n <= 4 * |l.words|
    ensures CopyIn(l, mem, p, a, n) == CopyIn(l, StoreByte(mem, a, ListByte(l, p)), p + 1, Add(a, 1), n - 1)
  {
  }

  lemma AddAdd(a: Word, b: Word, c: Word)
    requires b + c < W32
    ensures Add(Add(a, b), c) == Add(a, b + c)
  {
  }

  lemma RoundUp(a: int)
    ensures (a + 7) / 8 * 8 == Align(a)
  {
  }

  lemma PatchRoom(l: List, p: int)
    requires GoodList(l) && WellFormed(l, p) && !IsEnd(l, p) && Kind(l, p) == 0xE
    ensures Here(l, p) && Arg(l, p) < 0x8000_0000 && Next(l, p) == Align(p + 8 + Arg(l, p))
    ensures p + 8 + Arg(l, p) <= Next(l, p) <= 4 * |l.words| && l.base + 4 * |l.words| < W32 && l.base % 8 == 0
    ensures 0 <= p && (p + 8) % 4 == 0
  {
    hide Align;
    FetchRoom(l, p);
    AlignUp(p + 8 + Arg(l, p));
    WordOfCode(p);
  }

  lemma WordOfCode(p: int)
    requires p % 8 == 0
    ensures (p + 8) % 4 == 0
  {
    var k := p / 8;
    assert p + 8 == 4 * (2 * k + 2);
  }

  /** Code E while switched on. */
  lemma PatchMeans(l: List, e: Env, m: Machine, p: int)
    requires Here(l, p) && Kind(l, p) == 0xE && m.r8 % 2 == 0 && l.base + 4 * |l.words| < W32
    requires p + 8 + Arg(l, p) <= Next(l, p) <= 4 * |l.words|
    ensures Inlined(l, e, m, p)
      == m.(r12 := l.base + Next(l, p), mem := CopyIn(l, m.mem, p + 8, Add(Op(l, p) % 0x1000_0000, m.r9), Arg(l, p)))
  {
    hide CopyIn, Add;
  }

  class Engine {
    var r4: Word
    var r5: Word
    var r6: Word
    var r7: Word
    var r8: Word
    var r9: Word
    var r12: Word
    var mem: Memory

    ghost function State(): Machine
      reads this
    {
      Machine(r4, r5, r6, r7, r8, r9, r12, mem)
    }

    constructor (base: Word, memory: Memory)
      ensures State() == Machine(0, 0, 0, 0, 0, 0, base, memory)
    {
      r4, r5, r6, r7, r8, r9 := 0, 0, 0, 0, 0, 0;
      r12, mem := base, memory;
    }

    /** Codes 0 to 2. */
    method RawWrite(l: List, e: Env, p: int, r10: Word, r11: Word)
      requires Here(l, p) && r10 == Op(l, p) && r11 == Arg(l, p) && Kind(l, p) < 3
      requires l.base + 4 * |l.words| < W32
      modifies this`mem
      ensures State() == Execute(l, e, old(State()), p)
    {
      var a: Word := r10 % 0x1000_0000;
      if r10 / 0x1000_0000 < 1 {
        mem := Store(mem, Add(a, r9), r11);
      } else if r10 / 0x1000_0000 == 1 {
        mem := StoreHalf(mem, Add(a, r9), r11);
      } else {
        mem := StoreByte(mem, Add(a, r9), r11);
      }
    }

    /** Codes 3 to A. */
    method Conditional(l: List, e: Env, p: int, r10: Word, r11: Word)
      requires Here(l, p) && r10 == Op(l, p) && r11 == Arg(l, p) && 3 <= Kind(l, p) <= 0xA
      requires l.base + 4 * |l.words| < W32
      modifies this`r8
      ensures State() == Execute(l, e, old(State()), p)
    {
      hide MachineWords.AndWord, Load, Half, Add;
      var kind := r10 / 0x1000_0000;
      var a: Word := r10 % 0x1000_0000 / 2 * 2;
      if r10 % 2 == 1 {
        a := Add(a, r9);
      }
      if a == 0 {
        a := r9;
      }
      var v: Word, c: Word := 0, r11;
      if kind <= 6 {
        v := Load(mem, a);
      } else {
        v := MachineWords.AndWord(Half(mem, a), 0xFFFF_FFFF - r11 / 0x1_0000);
        c := r11 % 0x1_0000;
      }
      r8 := r8 * 2 % W32;
      if kind == 3 || kind == 7 {
        if c <= v { r8 := r8 + 1; }
      } else if kind == 4 || kind == 8 {
        if c >= v { r8 := r8 + 1; }
      } else if kind == 5 || kind == 9 {
        if c != v { r8 := r8 + 1; }
      } else {
        if c == v { r8 := r8 + 1; }
      }
    }

    /** Codes D3 to DF. */
    method Data(l: List, e: Env, p: int, r10: Word, r11: Word)
      requires Here(l, p) && r10 == Op(l, p) && r11 == Arg(l, p) && Kind(l, p) == 0xD && 0xD3 <= Kind8(l, p)
      requires l.base + 4 * |l.words| < W32
      modifies this`r5, this`r9, this`mem
      ensures State() == Execute(l, e, old(State()), p)
    {
      hide DataOp, Store, StoreHalf, StoreByte, Load, Half, Byte, Add;
      var r0 := r10 / 0x100_0000;
      if r0 < 0xD4 {
        r9 := r11;
      } else if r0 == 0xD4 {
        r5 := DataOp(r5, r10 % 256, r11);
      } else if r0 < 0xD6 {
        r5 := r11;
      } else if r0 < 0xD9 {
        if r0 < 0xD7 {
          mem := Store(mem, Add(r11, r9), r5);
          r9 := Add(r9, 4);
        } else if r0 == 0xD7 {
          mem := StoreHalf(mem, Add(r11, r9), r5);
          r9 := Add(r9, 2);
        } else {
          mem := StoreByte(mem, Add(r11, r9), r5);
          r9 := Add(r9, 1);
        }
      } else if r0 < 0xDA {
        r5 := Load(mem, Add(r11, r9));
      } else if r0 == 0xDA {
        r5 := Half(mem, Add(r11, r9));
      } else if r0 < 0xDC {
        r5 := Byte(mem, Add(r11, r9));
      } else {
        r9 := Add(r9, r11);
      }
    }

    /** Copies the data behind the code pointer to dst: words first, then the bytes that are left. */
    method CopyData(l: List, dst: Word, n: nat)
      requires l.base + 4 * |l.words| < W32 && l.base <= r12 && (r12 - l.base) % 4 == 0
      requires r12 - l.base + n <= 4 * |l.words|
      modifies this`r12, this`mem
      ensures mem == CopyIn(l, old(mem), old(r12) - l.base, dst, n) && r12 == old(r12) + n
    {
      hide CopyIn, Store, ListByte, StoreByte, Add;
      var r10: Word, left: nat := dst, n;
      ghost var all := CopyIn(l, mem, r12 - l.base, dst, n);
      while left >= 4
        invariant left <= n && r12 == old(r12) + (n - left) && (r12 - l.base) % 4 == 0
        invariant CopyIn(l, mem, r12 - l.base, r10, left) == all
      {
        CopyWord(l, mem, r12 - l.base, r10, left);
        mem := Store(mem, r10, l.words[(r12 - l.base) / 4]);
        r12, r10, left := r12 + 4, Add(r10, 4), left - 4;
      }
      while left >= 1
        invariant left <= n && r12 == old(r12) + (n - left)
        invariant CopyIn(l, mem, r12 - l.base, r10, left) == all
      {
        CopyByte(l, mem, r12 - l.base, r10, left);
        mem := StoreByte(mem, r10, ListByte(l, r12 - l.base));
        r12, r10, left := r12 + 1, Add(r10, 1), left - 1;
      }
      CopyNone(l, mem, r12 - l.base, r10);
    }

    /** Code E while switched on: the data is copied, then the pointer is rounded up to a multiple of eight. */
    method PatchCode(l: List, e: Env, p: int, r10: Word, r11: Word)
      requires GoodList(l) && WellFormed(l, p) && !IsEnd(l, p)
      requires r10 == Op(l, p) && r11 == Arg(l, p) && Kind(l, p) == 0xE
      requires r8 % 2 == 0 && r12 == l.base + p + 8
      modifies this`r12, this`mem
      ensures Next(l, p) <= 4 * |l.words|
      ensures State() == Inlined(l, e, old(State()), p)
    {
      hide CopyIn, Add, Inlined, WellFormed, Align, Here, Next, GoodList;
      ghost var m := State();
      PatchRoom(l, p);
      PatchMeans(l, e, m, p);
      CopyData(l, Add(r10 % 0x1000_0000, r9), r11);
      AlignBase(l.base, p + 8 + r11);
      RoundUp(r12);
      r12 := (r12 + 7) / 8 * 8;
    }

    /** Code F. */
    method MemCopy(l: List, e: Env, p: int, r10: Word, r11: Word)
      requires Here(l, p) && r10 == Op(l, p) && r11 == Arg(l, p) && Kind(l, p) == 0xF
      requires l.base + 4 * |l.words| < W32
      modifies this`mem
      ensures State() == Execute(l, e, old(State()), p)
    {
      hide Store, StoreByte, Load, Byte, Add;
      var src: Word, dst: Word, left: int := r9, r10 % 0x1000_0000, Signed(r11);
      ghost var all := CopyMem(mem, src, dst, left);
      while left >= 4
        invariant CopyMem(mem, src, dst, left) == all
      {
        mem := Store(mem, dst, Load(mem, src));
        src, dst, left := Add(src, 4), Add(dst, 4), left - 4;
      }
      while left >= 1
        invariant left < 4
        invariant CopyMem(mem, src, dst, left) == all
      {
        mem := StoreByte(mem, dst, Byte(mem, src));
        src, dst, left := Add(src, 1), Add(dst, 1), left - 1;
      }
    }

    /** The C codes other than C1, C2 and the end, while switched on. */
    method TypeC(l: List, e: Env, p: int, r10: Word, r11: Word)
      requires Here(l, p) && r10 == Op(l, p) && r11 == Arg(l, p) && Kind(l, p) == 0xC
      requires l.base + 4 * |l.words| < W32 && r12 == l.base + p + 8
      modifies this`r4, this`r6, this`r7, this`r8, this`r9, this`mem
      ensures State() == Execute(l, e, old(State()), p)
    {
      hide MachineWords.AndWord, Store;
      var r0 := r10 / 0x100_0000;
      if r0 == 0xC0 {
        r4, r6, r7 := r8, r11, r12;
      } else if r0 == 0xC5 {
        r8 := r8 * 2 % W32;
        if MachineWords.AndWord(e.counter, r11 % 0x1_0000) != r11 / 0x1_0000 { r8 := r8 + 1; }
      } else if r0 < 0xC5 {
        r9 := r12 - 8;
      } else {
        mem := Store(mem, r11, r9);
      }
    }

    /** D0, D1 and D2. */
    method Closing(r0: int)
      requires 0xD0 <= r0 <= 0xD2
      modifies this
      ensures State() == Close(old(State()), r0, old(r12))
    {
      if r0 > 0xD1 {
        r8 := r4;
        if Signed(r6) > 0 {
          r6, r12 := r6 - 1, r7;
        } else {
          r5, r8, r9 := 0, 0, 0;
        }
      } else if r0 == 0xD1 {
        r8 := r4;
        if Signed(r6) > 0 {
          r6, r12 := r6 - 1, r7;
        }
      } else {
        r8 := r8 / 2;
      }
    }

    /** C1 and C2. */
    method Call(l: List, e: Env, p: int, r10: Word, r11: Word)
      requires GoodList(l) && WellFormed(l, p) && !IsEnd(l, p)
      requires r10 == Op(l, p) && r11 == Arg(l, p) && (Kind8(l, p) == 0xC1 || Kind8(l, p) == 0xC2)
      requires r12 == l.base + p + 8
      modifies this`r12, this`mem
      ensures Next(l, p) <= 4 * |l.words|
      ensures State() == Inlined(l, e, old(State()), p)
    {
      FetchRoom(l, p);
      AlignUp(p + 8 + Inline(l, p));
      AlignBase(l.base, p + 8 + Inline(l, p));
      if r10 / 0x100_0000 == 0xC1 {
        r12 := r12 + r10 % 8;
        if r8 % 2 == 0 { mem := e.call(r11, mem); }
      } else {
        var r0: Word := Add(r12, r10 % 2);
        r12 := r12 + r11;
        if r8 % 2 == 0 { mem := e.call(r0, mem); }
      }
      r12 := (r12 + 7) / 8 * 8;
    }

    /** One turn of the main loop after the fetch of a code that is not the end. */
    method Cycle(l: List, e: Env)
      requires Inv(l, State()) && !IsEnd(l, At(l, State()))
      modifies this
      ensures State() == Step(l, e, old(State()))
    {
      hide Execute, Next, CopyIn, Reach, Add;
      ghost var m := State();
      var p := r12 - l.base;
      FetchRoom(l, p);
      var r10, r11 := Op(l, p), Arg(l, p);
      r12 := r12 + 8;
      var r0 := r10 / 0x1000_0000;
      if r0 == 0xE {
        if r8 % 2 == 0 {
          PatchCode(l, e, p, r10, r11);
        } else {
          AlignBase(l.base, p + 8 + r11);
          AlignedNext(l, p);
          r12 := (r12 + r11 + 7) / 8 * 8;
        }
      } else if r0 == 0xD {
        if r10 / 0x100_0000 < 0xD3 {
          Closing(r10 / 0x100_0000);
        } else if r8 % 2 == 0 {
          Data(l, e, p, r10, r11);
        }
      } else if r0 == 0xC {
        if r10 / 0x100_0000 == 0xC1 || r10 / 0x100_0000 == 0xC2 {
          Call(l, e, p, r10, r11);
        } else if r8 % 2 == 0 {
          TypeC(l, e, p, r10, r11);
        }
      } else if r8 % 2 == 0 {
        if r0 < 3 {
          RawWrite(l, e, p, r10, r11);
        } else if r0 < 0xB {
          Conditional(l, e, p, r10, r11);
        } else if r0 == 0xB {
          OffsetLoad(l, e, p, r10);
        } else {
          MemCopy(l, e, p, r10, r11);
        }
      }
    }

    /** Code B. */
    method OffsetLoad(l: List, e: Env, p: int, r10: Word)
      requires Here(l, p) && r10 == Op(l, p) && Kind(l, p) == 0xB
      requires l.base + 4 * |l.words| < W32
      modifies this`r9
      ensures State() == Execute(l, e, old(State()), p)
    {
      hide Load, Add;
      r9 := Load(mem, Add(r10 % 0x1000_0000, r9));
    }

    /** The main loop: it ends, in the state of the specification, at the end code. */
    method Run(l: List, e: Env)
      requires Inv(l, State())
      modifies this
      ensures State() == Final(l, e, old(State()))
    {
      hide Step, Reach;
      while !(l.words[(r12 - l.base) / 4] == 0xCF00_0000)
        invariant Inv(l, State()) && Final(l, e, State()) == Final(l, e, old(State()))
        decreases l.base + 4 * |l.words| - r7, Repeats(State()), l.base + 4 * |l.words| - r12
      {
        ghost var m := State();
        StepKeeps(l, e, m);
        FetchesInside(l, m);
        FetchesInside(l, Step(l, e, m));
        Cycle(l, e);
      }
    }
  }

  lemma CopyNone(l: List, mem: Memory, p: nat, a: Word)
    requires p <= 4 * |l.words|
    ensures CopyIn(l, mem, p, a, 0) == mem
  {
  }

  lemma AlignedNext(l: List, p: int)
    requires Here(l, p) && Kind(l, p) == 0xE
    ensures Next(l, p) == Align(p + 8 + Arg(l, p))
  {
  }
}
