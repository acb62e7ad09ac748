/** The in-place backward LZ decoder, against a decoder that reads a frozen copy of the stream. */
module Decompress {
  import Bits
  import opened Bytes
  import opened Wrappers

  // ---------- the decoder on a frozen copy ----------

  /** What decoding comes to: the text and the final read cursor, an access outside memory, or a write over unread bytes. */
  datatype Outcome = Done(text: seq<Byte>, cursor: nat) | OutOfRange | Overrun

  /** n bytes in front of text, each the one off + 1 places behind it; behind the text lies rest. */
  function CopyBack(text: seq<Byte>, rest: seq<Byte>, off: nat, n: nat): (t: seq<Byte>)
    requires off < |text| + |rest|
    ensures |t| == |text| + n
    decreases n
  {
    if n == 0 then text else CopyBack([(text + rest)[off]] + text, rest, off, n - 1)
  }

  /** How far behind the write cursor a reference reads. */
  function Offset(hi: Byte, lo: Byte): nat {
    hi % 16 * 256 + lo + 2
  }

  /** How many bytes a reference copies. */
  function Count(hi: Byte): nat {
    hi / 16 + 3
  }

  /** Between flag bytes: the frozen memory f, the end of the text, the lowest byte of the stream, the cursor, the text so far. */
  function Decode(f: seq<Byte>, end: nat, stop: int, r: nat, text: seq<Byte>): Outcome
    requires end <= |f| && r <= |f|
    decreases r, 0
  {
    if r <= stop then Done(text, r)
    else if r == 0 then OutOfRange
    else Flags(f, end, stop, r - 1, text, f[r - 1], 8)
  }

  /** With n flags left, the next one the highest bit of mark. */
  function Flags(f: seq<Byte>, end: nat, stop: int, r: nat, text: seq<Byte>, mark: Byte, n: nat): Outcome
    requires end <= |f| && r <= |f| && n <= 8
    decreases r, n + 1
  {
    if n == 0 then Decode(f, end, stop, r, text)
    else if mark < 0x80 then
      if r == 0 then OutOfRange
      else Onward(f, end, stop, r - 1, [f[r - 1]] + text, mark, n)
    else if r < 2 || |text| + |f[end..]| <= Offset(f[r - 1], f[r - 2]) then OutOfRange
    else Onward(f, end, stop, r - 2, CopyBack(text, f[end..], Offset(f[r - 1], f[r - 2]), Count(f[r - 1])), mark, n)
  }

  /** After a flag: the text must not have grown down past the read cursor. */
  function Onward(f: seq<Byte>, end: nat, stop: int, r: nat, text: seq<Byte>, mark: Byte, n: nat): Outcome
    requires end <= |f| && r <= |f| && 0 < n <= 8
    decreases r, n + 1
  {
    if end < |text| then OutOfRange
    else if end - |text| < r then Overrun
    else if r <= stop then Done(text, r)
    else Flags(f, end, stop, r, text, mark * 2 % 256, n - 1)
  }

  /** A reference repeats what lies off + 1 behind, also where it overlaps the bytes it writes. */
  lemma {:induction false} CopyRepeats(text: seq<Byte>, rest: seq<Byte>, off: nat, n: nat)
    requires off < |text| + |rest|
    ensures var t := CopyBack(text, rest, off, n);
      && t[n..] == text
      && forall i :: 0 <= i < n ==> t[i] == (t + rest)[i + off + 1]
    decreases n
  {
    if n != 0 {
      var b := (text + rest)[off];
      CopyRepeats([b] + text, rest, off, n - 1);
      var t := CopyBack(text, rest, off, n);
      assert t[n - 1..] == [b] + text;
      assert t[n..] == t[n - 1..][1..] == text;
      assert t + rest == t[..n - 1] + (([b] + text) + rest);
      assert ([b] + text + rest)[1 + off] == b;
    }
  }

  /** The text t is n new bytes in front of text, each repeating the one d places behind it. */
  ghost predicate Repeats(n: nat, d: nat, text: seq<Byte>, t: seq<Byte>, rest: seq<Byte>) {
    && |t| == |text| + n && t[n..] == text && d <= |text| + |rest|
    && forall i :: 0 <= i < n ==> t[i] == (t + rest)[i + d]
  }

  /** What the two bytes of a reference say, as numbers: 3 to 18 new bytes, each from 3 to 4098 places behind. */
  ghost predicate Referred(hi: Byte, lo: Byte, text: seq<Byte>, t: seq<Byte>, rest: seq<Byte>) {
    Repeats(hi / 16 + 3, 256 * (hi % 16) + lo + 3, text, t, rest)
  }

  lemma ReferredBy(hi: Byte, lo: Byte, text: seq<Byte>, rest: seq<Byte>)
    requires Offset(hi, lo) < |text| + |rest|
    ensures Referred(hi, lo, text, CopyBack(text, rest, Offset(hi, lo), Count(hi)), rest)
  {
    hide CopyBack, Repeats;
    CopyIsRepeat(text, rest, Offset(hi, lo), Count(hi));
  }

  lemma CopyIsRepeat(text: seq<Byte>, rest: seq<Byte>, off: nat, n: nat)
    requires off < |text| + |rest|
    ensures Repeats(n, off + 1, text, CopyBack(text, rest, off, n), rest)
  {
    hide CopyBack;
    CopyRepeats(text, rest, off, n);
  }

  /** The text of a run only grows in front, and the cursor only goes down. */
  lemma {:induction false} DecodeGrows(f: seq<Byte>, end: nat, stop: int, r: nat, text: seq<Byte>)
    requires end <= |f| && r <= |f| && Decode(f, end, stop, r, text).Done?
    ensures var d := Decode(f, end, stop, r, text);
      |text| <= |d.text| && d.text[|d.text| - |text|..] == text && d.cursor <= r && d.cursor <= stop
    ensures var d := Decode(f, end, stop, r, text); end - |text| >= r ==> end - |d.text| >= d.cursor
    decreases r, 0
  {
    if r > stop {
      FlagsGrow(f, end, stop, r - 1, text, f[r - 1], 8);
    }
  }

  lemma {:induction false} FlagsGrow(f: seq<Byte>, end: nat, stop: int, r: nat, text: seq<Byte>, mark: Byte, n: nat)
    requires end <= |f| && r <= |f| && n <= 8 && Flags(f, end, stop, r, text, mark, n).Done?
    ensures var d := Flags(f, end, stop, r, text, mark, n);
      |text| <= |d.text| && d.text[|d.text| - |text|..] == text && d.cursor <= r && d.cursor <= stop
    ensures var d := Flags(f, end, stop, r, text, mark, n); end - |text| >= r ==> end - |d.text| >= d.cursor
    decreases r, n + 1
  {
    hide CopyBack, Offset, Count, Decode, Onward;
    if n == 0 {
      DecodeGrows(f, end, stop, r, text);
    } else if mark < 0x80 {
      OnwardGrows(f, end, stop, r - 1, [f[r - 1]] + text, mark, n);
      Deeper(Flags(f, end, stop, r, text, mark, n).text, [f[r - 1]] + text, text);
    } else {
      var off, k := Offset(f[r - 1], f[r - 2]), Count(f[r - 1]);
      var t := CopyBack(text, f[end..], off, k);
      OnwardGrows(f, end, stop, r - 2, t, mark, n);
      CopyRepeats(text, f[end..], off, k);
      Deeper(Flags(f, end, stop, r, text, mark, n).text, t, text);
    }
  }

  lemma {:induction false} OnwardGrows(f: seq<Byte>, end: nat, stop: int, r: nat, text: seq<Byte>, mark: Byte, n: nat)
    requires end <= |f| && r <= |f| && 0 < n <= 8 && Onward(f, end, stop, r, text, mark, n).Done?
    ensures var d := Onward(f, end, stop, r, text, mark, n);
      |text| <= |d.text| && d.text[|d.text| - |text|..] == text && d.cursor <= r && d.cursor <= stop
    ensures var d := Onward(f, end, stop, r, text, mark, n); end - |d.text| >= d.cursor
    decreases r, n + 1
  {
    if r > stop {
      FlagsGrow(f, end, stop, r, text, mark * 2 % 256, n - 1);
    }
  }

  lemma Deeper(d: seq<Byte>, t: seq<Byte>, u: seq<Byte>)
    requires |u| <= |t| <= |d| && d[|d| - |t|..] == t && t[|t| - |u|..] == u
    ensures d[|d| - |u|..] == u
  {
    assert d[|d| - |u|..] == d[|d| - |t|..][|t| - |u|..];
  }

  // ---------- memory while decoding ----------

  /** The frozen memory with the text put where it ends. */
  function View(f: seq<Byte>, end: nat, text: seq<Byte>): (v: seq<Byte>)
    requires |text| <= end <= |f|
    ensures |v| == |f|
  {
    f[..end - |text|] + text + f[end..]
  }

  lemma ViewNothing(f: seq<Byte>, end: nat)
    requires end <= |f|
    ensures View(f, end, []) == f
  {
  }

  lemma ViewParts(f: seq<Byte>, end: nat, text: seq<Byte>)
    requires end <= |f|
    ensures |text| <= end ==> var v, e := View(f, end, text), end - |text|;
      v[..e] == f[..e] && v[e..end] == text && v[end..] == f[end..]
  {
  }

  lemma ViewWrite(f: seq<Byte>, end: nat, text: seq<Byte>, b: Byte)
    requires |text| < end <= |f|
    ensures View(f, end, text)[end - |text| - 1 := b] == View(f, end, [b] + text)
  {
    var v, w := View(f, end, text)[end - |text| - 1 := b], View(f, end, [b] + text);
    forall i | 0 <= i < |f|
      ensures v[i] == w[i]
    {
    }
  }

  lemma ViewBelow(f: seq<Byte>, end: nat, text: seq<Byte>, i: nat)
    requires |text| <= end <= |f| && i < end - |text|
    ensures View(f, end, text)[i] == f[i]
  {
  }

  lemma ViewFrom(f: seq<Byte>, end: nat, text: seq<Byte>, off: nat)
    requires |text| <= end <= |f| && off < |text| + |f[end..]|
    ensures end - |text| + off < |f| && View(f, end, text)[end - |text| + off] == (text + f[end..])[off]
  {
  }

  // ---------- the decoder in place ----------

  /** The state of a run that goes well: memory is the view, and nothing unread has been overwritten. */
  ghost predicate Good(f: seq<Byte>, now: seq<Byte>, end: nat, e: int, r: int, text: seq<Byte>) {
    && |text| <= end <= |f| && e == end - |text| && 0 <= r <= e && now == View(f, end, text)
  }

  /**
   * The loop: whenever the frozen decoder succeeds, memory ends up with its text below end, unchanged everywhere else,
   * and the cursors agree.
   */
  method Run(mem: array<Byte>, end: nat, start: nat, stop: int) returns (e: nat, r: nat)
    requires start <= end <= mem.Length
    requires Decode(mem[..], end, stop, start, []).Done?
    modifies mem
    ensures var d := Decode(old(mem[..]), end, stop, start, []);
      |d.text| <= end && mem[..] == View(old(mem[..]), end, d.text) && e == end - |d.text| && r == d.cursor
  {
    hide Decode, Flags, View;
    ghost var f, text := mem[..], [];
    ViewNothing(f, end);
    e, r := end, start;
    while !(r <= stop)
      invariant Good(f, mem[..], end, e, r, text)
      invariant Decode(f, end, stop, r, text) == Decode(f, end, stop, start, [])
      decreases r
    {
      DecodeStep(f, end, stop, r, text);
      ViewBelow(f, end, text, r - 1);
      var mark := mem[r - 1];
      r := r - 1;
      ghost var after;
      e, r, after := Group(mem, end, stop, e, r, mark, f, text);
      text := after;
    }
    DecodeEnd(f, end, stop, r, text);
  }

  /** Up to eight flags. */
  method Group(mem: array<Byte>, end: nat, stop: int, e0: nat, r0: nat, mark0: Byte, ghost f: seq<Byte>,
               ghost text0: seq<Byte>)
    returns (e: nat, r: nat, ghost text: seq<Byte>)
    requires Good(f, mem[..], end, e0, r0, text0) && Flags(f, end, stop, r0, text0, mark0, 8).Done?
    modifies mem
    ensures Good(f, mem[..], end, e, r, text) && r <= r0
    ensures Decode(f, end, stop, r, text) == Flags(f, end, stop, r0, text0, mark0, 8)
  {
    hide Decode, Flags, View;
    e, r, text := e0, r0, text0;
    var mark: Byte, count: nat := mark0, 8;
    while count > 0
      invariant Good(f, mem[..], end, e, r, text) && r <= r0 && count <= 8
      invariant Flags(f, end, stop, r, text, mark, count) == Flags(f, end, stop, r0, text0, mark0, 8)
    {
      FlagStep(f, end, stop, r, text, mark, count);
      if mark < 0x80 {
        e, r, text := Literal(mem, end, e, r, f, text);
      } else {
        e, r, text := Reference(mem, end, e, r, f, text);
      }
      OnwardStep(f, end, stop, r, text, mark, count);
      count := count - 1;
      mark := (mark as int) * 2 % 256;
      if r <= stop {
        DecodeEnd(f, end, stop, r, text);
        return;
      }
    }
    NoFlags(f, end, stop, r, text, mark);
  }

  /** One byte as it is. */
  method Literal(mem: array<Byte>, end: nat, e0: nat, r0: nat, ghost f: seq<Byte>, ghost text0: seq<Byte>)
    returns (e: nat, r: nat, ghost text: seq<Byte>)
    requires Good(f, mem[..], end, e0, r0, text0) && 0 < r0
    requires end - |text0| - 1 >= r0 - 1
    modifies mem
    ensures text == [f[r0 - 1]] + text0 && r == r0 - 1 && Good(f, mem[..], end, e, r, text)
  {
    hide View;
    ViewBelow(f, end, text0, r0 - 1);
    r, e := r0 - 1, e0 - 1;
    ViewWrite(f, end, text0, mem[r]);
    mem[e] := mem[r];
    text := [f[r0 - 1]] + text0;
  }

  /** A reference: two bytes give distance and length, and the copy may overlap itself. */
  method Reference(mem: array<Byte>, end: nat, e0: nat, r0: nat, ghost f: seq<Byte>, ghost text0: seq<Byte>)
    returns (e: nat, r: nat, ghost text: seq<Byte>)
    requires Good(f, mem[..], end, e0, r0, text0) && 2 <= r0
    requires Offset(f[r0 - 1], f[r0 - 2]) < |text0| + |f[end..]|
    requires end - |text0| - Count(f[r0 - 1]) >= r0 - 2
    modifies mem
    ensures text == CopyBack(text0, f[end..], Offset(f[r0 - 1], f[r0 - 2]), Count(f[r0 - 1]))
    ensures Referred(f[r0 - 1], f[r0 - 2], text0, text, f[end..])
    ensures r == r0 - 2 && Good(f, mem[..], end, e, r, text)
  {
    hide View, CopyBack, Referred;
    ReferredBy(f[r0 - 1], f[r0 - 2], text0, f[end..]);
    ViewBelow(f, end, text0, r0 - 1);
    ViewBelow(f, end, text0, r0 - 2);
    var hi, lo := mem[r0 - 1], mem[r0 - 2];
    e, r, text := e0, r0 - 2, text0;
    var off := Offset(hi, lo);
    var u: int := (hi as int) + 0x20;
    ghost var left: nat := Count(hi);
    while u >= 0
      invariant left == if u >= 0 then u / 16 + 1 else 0
      invariant |text| + left == |text0| + Count(hi) && off < |text| + |f[end..]|
      invariant Good(f, mem[..], end, e, r, text)
      invariant CopyBack(text, f[end..], off, left) == CopyBack(text0, f[end..], off, Count(hi))
    {
      ViewFrom(f, end, text, off);
      CopyStep(text, f[end..], off, left);
      var copied := mem[e + off];
      ViewWrite(f, end, text, copied);
      e := e - 1;
      mem[e] := copied;
      text := [copied] + text;
      u, left := u - 0x10, left - 1;
    }
    CopyNone(text, f[end..], off);
  }

  lemma CopyStep(text: seq<Byte>, rest: seq<Byte>, off: nat, n: nat)
    requires off < |text| + |rest| && n > 0
    ensures CopyBack(text, rest, off, n) == CopyBack([(text + rest)[off]] + text, rest, off, n - 1)
  {
  }

  lemma CopyNone(text: seq<Byte>, rest: seq<Byte>, off: nat)
    requires off < |text| + |rest|
    ensures CopyBack(text, rest, off, 0) == text
  {
  }

  lemma DecodeStep(f: seq<Byte>, end: nat, stop: int, r: nat, text: seq<Byte>)
    requires end <= |f| && r <= |f| && r > stop && Decode(f, end, stop, r, text).Done?
    ensures r > 0 && Decode(f, end, stop, r, text) == Flags(f, end, stop, r - 1, text, f[r - 1], 8)
  {
  }

  lemma DecodeEnd(f: seq<Byte>, end: nat, stop: int, r: nat, text: seq<Byte>)
    requires end <= |f| && r <= |f| && r <= stop
    ensures Decode(f, end, stop, r, text) == Done(text, r)
  {
  }

  lemma NoFlags(f: seq<Byte>, end: nat, stop: int, r: nat, text: seq<Byte>, mark: Byte)
    requires end <= |f| && r <= |f|
    ensures Flags(f, end, stop, r, text, mark, 0) == Decode(f, end, stop, r, text)
  {
  }

  lemma FlagStep(f: seq<Byte>, end: nat, stop: int, r: nat, text: seq<Byte>, mark: Byte, n: nat)
    requires end <= |f| && r <= |f| && 0 < n <= 8 && Flags(f, end, stop, r, text, mark, n).Done?
    ensures mark < 0x80 ==> r > 0 && end - |text| - 1 >= r - 1
    ensures mark < 0x80 ==>
      Flags(f, end, stop, r, text, mark, n) == Onward(f, end, stop, r - 1, [f[r - 1]] + text, mark, n)
    ensures mark >= 0x80 ==> r >= 2 && Offset(f[r - 1], f[r - 2]) < |text| + |f[end..]|
    ensures mark >= 0x80 ==> end - |text| - Count(f[r - 1]) >= r - 2
    ensures mark >= 0x80 ==> Flags(f, end, stop, r, text, mark, n) == Onward(f, end, stop, r - 2,
      CopyBack(text, f[end..], Offset(f[r - 1], f[r - 2]), Count(f[r - 1])), mark, n)
  {
    hide CopyBack, Offset, Count, Decode;
  }

  lemma OnwardStep(f: seq<Byte>, end: nat, stop: int, r: nat, text: seq<Byte>, mark: Byte, n: nat)
    requires end <= |f| && r <= |f| && 0 < n <= 8 && Onward(f, end, stop, r, text, mark, n).Done?
    ensures Onward(f, end, stop, r, text, mark, n)
      == if r <= stop then Done(text, r) else Flags(f, end, stop, r, text, mark * 2 % 256, n - 1)
  {
    hide Flags;
  }

  // ---------- the whole binary ----------

  /** Where the text ends, where the stream starts and where it stops, from the two words below addr. */
  datatype Footer = Footer(end: nat, start: nat, stop: int)

  function ReadFooter(s: seq<Byte>, addr: nat): Footer
    requires 0x100_0000 <= addr <= |s|
  {
    var a, b := WordLe(s, addr - 4), WordLe(s, addr - 8);
    Footer(addr + a, addr - b / 0x100_0000, addr - b % 0x100_0000)
  }

  /** The same from the single bytes: 32, 24 and 8 bits. */
  lemma FooterBytes(s: seq<Byte>, addr: nat)
    requires 0x100_0000 <= addr <= |s|
    ensures var k := ReadFooter(s, addr);
      var a0: int, a1: int, a2: int, a3: int := s[addr - 4], s[addr - 3], s[addr - 2], s[addr - 1];
      var b0: int, b1: int, b2: int := s[addr - 8], s[addr - 7], s[addr - 6];
      && k.end == addr + a0 + 0x100 * a1 + 0x1_0000 * a2 + 0x100_0000 * a3
      && k.start == addr - s[addr - 5] && k.stop == addr - (b0 + 0x100 * b1 + 0x1_0000 * b2)
  {
    var b0: int, b1: int, b2: int, b3: int := s[addr - 8], s[addr - 7], s[addr - 6], s[addr - 5];
    HighByte(b0 + 0x100 * b1 + 0x1_0000 * b2, b3);
  }

  lemma HighByte(low: int, high: int)
    requires 0 <= low < 0x100_0000
    ensures (low + 0x100_0000 * high) / 0x100_0000 == high && (low + 0x100_0000 * high) % 0x100_0000 == low
  {
  }

  /** The two words that mark the module parameters. */
  predicate Marked(s: seq<Byte>, p: nat)
    requires p + 8 <= |s|
  {
    WordLe(s, p) == 0xDEC0_0621 && WordLe(s, p + 4) == 0x2106_C0DE
  }

  lemma MarkBytes(s: seq<Byte>, p: nat)
    requires p + 8 <= |s|
    ensures Marked(s, p) <==> s[p..p + 8] == [0x21, 0x06, 0xC0, 0xDE, 0xDE, 0xC0, 0x06, 0x21]
  {
    WordBytes(s, p, 0x21, 0x06, 0xC0, 0xDE);
    WordBytes(s, p + 4, 0xDE, 0xC0, 0x06, 0x21);
    hide WordLe;
  }

  lemma WordBytes(s: seq<Byte>, p: nat, b0: Byte, b1: Byte, b2: Byte, b3: Byte)
    requires p + 4 <= |s|
    ensures WordLe(s, p) == b0 + 0x100 * b1 + 0x1_0000 * b2 + 0x100_0000 * b3
      <==> s[p] == b0 && s[p + 1] == b1 && s[p + 2] == b2 && s[p + 3] == b3
  {
    var a3: int, c3: int := s[p + 3], b3;
    var a2: int, c2: int := s[p + 2] + 0x100 * a3, b2 + 0x100 * c3;
    var a1: int, c1: int := s[p + 1] + 0x100 * a2, b1 + 0x100 * c2;
    OneByte(s[p], b0, a1, c1);
    OneByte(s[p + 1], b1, a2, c2);
    OneByte(s[p + 2], b2, a3, c3);
  }

  lemma OneByte(a: Byte, b: Byte, x: int, y: int)
    ensures a + 0x100 * x == b + 0x100 * y <==> a == b && x == y
  {
  }

  /** The first marked word from p on, in steps of a word. */
  function FirstMark(s: seq<Byte>, p: nat, stop: nat): Option<nat>
    requires stop + 7 <= |s|
    decreases stop - p
  {
    if p >= stop then None else if Marked(s, p) then Some(p) else FirstMark(s, p + 4, stop)
  }

  /** The search finds a mark exactly when there is one, and then the lowest. */
  lemma {:induction false} FirstMarkMeans(s: seq<Byte>, p: nat, stop: nat, k: nat)
    requires stop + 7 <= |s| && p + 4 * k < stop && Marked(s, p + 4 * k)
    ensures var m := FirstMark(s, p, stop);
      m.Some? && p <= m.value <= p + 4 * k && m.value + 8 <= |s| && Marked(s, m.value) && (m.value - p) % 4 == 0
    decreases stop - p
  {
    hide Marked;
    if !Marked(s, p) {
      FirstMarkMeans(s, p + 4, stop, k - 1);
    }
  }

  /** The address of the end of the compressed part, in the word two below the mark. */
  function Parameter(s: seq<Byte>, main: nat, stop: nat): Option<nat>
    requires 8 <= main && stop + 7 <= |s|
  {
    MarkRange(s, main, stop);
    var m := FirstMark(s, main, stop);
    if m.Some? then Some(WordLe(s, m.value - 8)) else None
  }

  lemma {:induction false} MarkRange(s: seq<Byte>, p: nat, stop: nat)
    requires stop + 7 <= |s|
    ensures var m := FirstMark(s, p, stop); m.Some? ==> p <= m.value < stop && m.value + 8 <= |s|
    decreases stop - p
  {
    hide Marked;
    if p < stop && !Marked(s, p) {
      MarkRange(s, p + 4, stop);
    }
  }

  /** Memory with that word cleared. */
  function Cleared(s: seq<Byte>, main: nat, stop: nat): (t: seq<Byte>)
    requires 8 <= main && stop + 7 <= |s|
    ensures |t| == |s|
  {
    MarkRange(s, main, stop);
    var m := FirstMark(s, main, stop);
    if m.Some? then Splice(s, m.value - 8, [0, 0, 0, 0]) else s
  }

  /** A binary that can be decompressed where it lies: its footer lies in memory and its stream decodes. */
  ghost predicate Decodable(s: seq<Byte>, addr: nat) {
    0x100_0000 <= addr <= |s| &&
    var k := ReadFooter(s, addr);
    k.end <= |s| && Decode(s, k.end, k.stop, k.start, []).Done?
  }

  /** Memory after the compressed part that ends at addr is decompressed. */
  ghost function Decompressed(s: seq<Byte>, addr: nat): seq<Byte>
    requires Decodable(s, addr)
  {
    var k := ReadFooter(s, addr);
    DecodeGrows(s, k.end, k.stop, k.start, []);
    View(s, k.end, Decode(s, k.end, k.stop, k.start, []).text)
  }

  class Decompressor {
    var fixedAddr: nat
    var fixedData: int

    /** Looks for the mark, remembers and clears the word two below it; the word, or zero when there is no mark. */
    method Search(mem: array<Byte>, main: nat, length: nat) returns (addr: int)
      requires 8 <= main && main + length + 7 <= mem.Length
      modifies this, mem
      ensures var p := Parameter(old(mem[..]), main, main + length);
        && addr == (if p.Some? then p.value else 0)
        && fixedData == (if p.Some? then p.value else old(fixedData))
      ensures mem[..] == Cleared(old(mem[..]), main, main + length)
      ensures var m := FirstMark(old(mem[..]), main, main + length); m.Some? ==> fixedAddr == m.value - 8
    {
      hide WordLe, Splice;
      ghost var s := mem[..];
      var p, stop := main, main + length;
      addr := 0;
      while p < stop
        invariant main <= p && addr == 0 && mem[..] == s && fixedData == old(fixedData)
        invariant FirstMark(s, p, stop) == FirstMark(s, main, stop)
      {
        if Marked(mem[..], p) {
          addr := WordLe(mem[..], p - 8);
          fixedAddr, fixedData := p - 8, addr;
          ClearWord(mem, p - 8);
          return;
        }
        p := p + 4;
      }
    }

    /** Decompression of the binary at main, of the given length; the length after it, or zero when there is none to do. */
    method DecompressBinary(mem: array<Byte>, main: nat, length: nat) returns (r: int)
      requires 8 <= main && main + length + 7 <= mem.Length
      requires var p := Parameter(mem[..], main, main + length);
        p.Some? && p.value != 0 ==> Decodable(Cleared(mem[..], main, main + length), p.value)
      modifies this, mem
      ensures var s := old(mem[..]); var p, t := Parameter(s, main, main + length), Cleared(s, main, main + length);
        if p.Some? && p.value != 0 then
          && mem[..] == Decompressed(t, p.value) && r == ReadFooter(t, p.value).end - main
          && fixedData == p.value && Some(fixedAddr + 8) == FirstMark(s, main, main + length)
        else mem[..] == s && r == 0 && fixedAddr == 0
    {
      hide Decode, View, WordLe, FirstMark, Splice;
      ghost var s := mem[..];
      var addr := Search(mem, main, length);
      if addr == 0 {
        fixedAddr := 0;
        NothingCleared(s, main, main + length);
        return 0;
      }
      var k := ReadFooter(mem[..], addr);
      var _, _ := Run(mem, k.end, k.start, k.stop);
      r := k.end - main;
    }
  }

  method ClearWord(mem: array<Byte>, i: nat)
    requires i + 4 <= mem.Length
    modifies mem
    ensures mem[..] == Splice(old(mem[..]), i, [0, 0, 0, 0])
  {
    mem[i], mem[i + 1], mem[i + 2], mem[i + 3] := 0, 0, 0, 0;
  }

  /** Clearing a zero word changes nothing. */
  lemma NothingCleared(s: seq<Byte>, main: nat, stop: nat)
    requires 8 <= main && stop + 7 <= |s|
    requires var p := Parameter(s, main, stop); p.Some? ==> p.value == 0
    ensures Cleared(s, main, stop) == s
  {
    MarkRange(s, main, stop);
    var m := FirstMark(s, main, stop);
    if m.Some? {
      ZeroWord(s, m.value - 8);
    }
  }

  lemma ZeroWord(s: seq<Byte>, i: nat)
    requires i + 4 <= |s| && WordLe(s, i) == 0
    ensures Splice(s, i, [0, 0, 0, 0]) == s
  {
  }

  // ---------- streams ----------

  /** What a stream says: bytes as they are, and copies of so many bytes from so far behind. */
  datatype Piece = Plain(b: Byte) | Ref(distance: nat, length: nat)

  /** The distances and lengths that two bytes can hold. */
  predicate Encodable(p: Piece) {
    p.Ref? ==> 3 <= p.distance <= 4098 && 3 <= p.length <= 18
  }

  type Token = p: Piece | Encodable(p) witness Plain(0)

  /** The bytes of a token in the order of reading: length less 3 in four bits, distance less 3 in twelve. */
  function TokenBytes(t: Token): seq<Byte> {
    match t
    case Plain(b) => [b]
    case Ref(distance, length) => [16 * (length - 3) + (distance - 3) / 256, (distance - 3) % 256]
  }

  lemma Encoded(distance: nat, length: nat)
    requires Encodable(Ref(distance, length))
    ensures var s := TokenBytes(Ref(distance, length)); Offset(s[0], s[1]) == distance - 1 && Count(s[0]) == length
  {
    var q, r := (distance - 3) / 256, (distance - 3) % 256;
    Bits.DivUnique(16 * (length - 3) + q, 16, length - 3, q);
  }

  function TokensBytes(ts: seq<Token>): seq<Byte> {
    if |ts| == 0 then [] else TokenBytes(ts[0]) + TokensBytes(ts[1..])
  }

  function Rest(ts: seq<Token>): seq<Token> {
    if |ts| == 0 then [] else ts[1..]
  }

  function Digit(ts: seq<Token>): nat {
    if |ts| > 0 && ts[0].Ref? then 1 else 0
  }

  /** The flags of the next n tokens, the first one highest. */
  function Marks(ts: seq<Token>, n: nat): (m: nat)
    requires n <= 8
    ensures m < Bits.Two(n)
    decreases n
  {
    if n == 0 then 0 else (if Digit(ts) == 1 then Bits.Two(n - 1) else 0) + Marks(Rest(ts), n - 1)
  }

  /** The flags as they stand in the flag byte when n of them are left. */
  function MarkByte(ts: seq<Token>, n: nat): Byte
    requires n <= 8
  {
    ShiftedMarks(Marks(ts, n), n);
    Marks(ts, n) * Bits.Two(8 - n)
  }

  lemma ShiftedMarks(m: nat, n: nat)
    requires n <= 8 && m < Bits.Two(n)
    ensures 0 <= m * Bits.Two(8 - n) < 256
  {
    hide Bits.Two;
    SmallPowers(n);
    SmallPowers(8 - n);
    if n <= 1 {
    } else if n <= 4 {
      if n == 2 {
      } else if n == 3 {
      }
    } else if n == 5 {
    } else if n == 6 {
    } else if n == 7 {
    }
  }

  lemma SmallPowers(n: nat)
    requires n <= 8
    ensures Bits.Two(n) == if n == 0 then 1 else if n == 1 then 2 else if n == 2 then 4 else if n == 3 then 8
      else if n == 4 then 16 else if n == 5 then 32 else if n == 6 then 64 else if n == 7 then 128 else 256
  {
    assert Bits.Two(1) == 2;
    assert Bits.Two(2) == 4;
    assert Bits.Two(3) == 8;
    assert Bits.Two(4) == 16;
    assert Bits.Two(5) == 32;
    assert Bits.Two(6) == 64;
    assert Bits.Two(7) == 128;
    assert Bits.Two(8) == 256;
  }

  /** The highest flag is the first token's; shifting it out leaves the flags of the others. */
  lemma MarkStep(ts: seq<Token>, n: nat)
    requires 0 < n <= 8
    ensures MarkByte(ts, n) >= 0x80 <==> Digit(ts) == 1
    ensures (MarkByte(ts, n) as int) * 2 % 256 == MarkByte(Rest(ts), n - 1)
  {
    hide Bits.Two, Marks, Digit;
    MarksFirst(ts, n);
    ShiftOut(if Digit(ts) == 1 then 1 else 0, Marks(Rest(ts), n - 1), n);
  }

  lemma MarksFirst(ts: seq<Token>, n: nat)
    requires 0 < n <= 8
    ensures Marks(ts, n) == (if Digit(ts) == 1 then Bits.Two(n - 1) else 0) + Marks(Rest(ts), n - 1)
  {
  }

  function DigitAt(ts: seq<Token>, i: nat): nat {
    if i < |ts| && ts[i].Ref? then 1 else 0
  }

  /** The flag byte of a group: bit 7 - i is the flag of token i, set for a reference. */
  lemma MarkNumber(ts: seq<Token>)
    ensures MarkByte(ts, 8) == 128 * DigitAt(ts, 0) + 64 * DigitAt(ts, 1) + 32 * DigitAt(ts, 2) + 16 * DigitAt(ts, 3)
      + 8 * DigitAt(ts, 4) + 4 * DigitAt(ts, 5) + 2 * DigitAt(ts, 6) + DigitAt(ts, 7)
  {
    hide Marks, Bits.Two, DigitAt;
    SmallPowers(0);
    HighMarks(ts);
    LowMarks(ts);
    assert From(ts, 0) == ts;
  }

  lemma HighMarks(ts: seq<Token>)
    ensures Marks(From(ts, 0), 8) == 128 * DigitAt(ts, 0) + 64 * DigitAt(ts, 1) + 32 * DigitAt(ts, 2)
      + 16 * DigitAt(ts, 3) + Marks(From(ts, 4), 4)
  {
    hide Marks, Bits.Two, DigitAt, From;
    MarksFrom(ts, 0);
    MarksFrom(ts, 1);
    MarksFrom(ts, 2);
    MarksFrom(ts, 3);
  }

  lemma LowMarks(ts: seq<Token>)
    ensures Marks(From(ts, 4), 4) == 8 * DigitAt(ts, 4) + 4 * DigitAt(ts, 5) + 2 * DigitAt(ts, 6) + DigitAt(ts, 7)
  {
    hide Marks, Bits.Two, DigitAt, From;
    MarksFrom(ts, 4);
    MarksFrom(ts, 5);
    MarksFrom(ts, 6);
    MarksFrom(ts, 7);
    NoMarks(From(ts, 8));
  }

  function From(ts: seq<Token>, i: nat): seq<Token> {
    if i <= |ts| then ts[i..] else []
  }

  lemma NoMarks(ts: seq<Token>)
    ensures Marks(ts, 0) == 0
  {
  }

  lemma MarksFrom(ts: seq<Token>, i: nat)
    requires i < 8
    ensures Marks(From(ts, i), 8 - i) == Bits.Two(7 - i) * DigitAt(ts, i) + Marks(From(ts, i + 1), 7 - i)
    ensures Bits.Two(7 - i) == if i == 0 then 128 else if i == 1 then 64 else if i == 2 then 32 else if i == 3 then 16
      else if i == 4 then 8 else if i == 5 then 4 else if i == 6 then 2 else 1
  {
    hide Bits.Two;
    SmallPowers(7 - i);
    assert Rest(From(ts, i)) == From(ts, i + 1);
  }

  lemma ShiftOut(d: nat, m: nat, n: nat)
    requires 0 < n <= 8 && m < Bits.Two(n - 1) && d <= 1
    ensures var k := (if d == 1 then Bits.Two(n - 1) else 0) + m;
      (k * Bits.Two(8 - n) >= 0x80 <==> d == 1) && k * Bits.Two(8 - n) * 2 % 256 == m * Bits.Two(9 - n)
  {
    hide Bits.Two;
    SmallPowers(n - 1);
    SmallPowers(8 - n);
    SmallPowers(9 - n);
    if n <= 4 {
      if n == 1 {
      } else if n == 2 {
      } else if n == 3 {
      }
    } else if n == 5 {
    } else if n == 6 {
    } else if n == 7 {
    }
  }

  /** The stream of a token list in the order of reading: groups of a flag byte and up to eight tokens. */
  function Stream(ts: seq<Token>): seq<Byte> {
    if |ts| == 0 then []
    else if |ts| <= 8 then [MarkByte(ts, 8)] + TokensBytes(ts)
    else [MarkByte(ts, 8)] + TokensBytes(ts[..8]) + Stream(ts[8..])
  }

  /** Memory below r, read downwards, is the given bytes. */
  ghost predicate Holds(f: seq<Byte>, r: nat, s: seq<Byte>) {
    |s| <= r <= |f| && forall i :: 0 <= i < |s| ==> f[r - 1 - i] == s[i]
  }

  /** How many bytes a token makes. */
  function Makes(t: Token): nat {
    if t.Ref? then t.length else 1
  }

  /** A reference of this distance lands in size bytes. */
  predicate Reaches(t: Token, size: nat) {
    t.Ref? ==> t.distance <= size
  }

  /** The text in front of text once a token is done. */
  function Grown(t: Token, text: seq<Byte>, rest: seq<Byte>): (u: seq<Byte>)
    requires Reaches(t, |text| + |rest|)
    ensures |u| == |text| + Makes(t)
  {
    match t
    case Plain(b) => [b] + text
    case Ref(distance, length) => CopyBack(text, rest, distance - 1, length)
  }

  /** The text of a token list. */
  function Apply(ts: seq<Token>, text: seq<Byte>, rest: seq<Byte>): seq<Byte>
    decreases |ts|
  {
    if |ts| == 0 || !Reaches(ts[0], |text| + |rest|) then text else Apply(ts[1..], Grown(ts[0], text, rest), rest)
  }

  /** What is left of a stream when n flags of its current group are left. */
  function After(ts: seq<Token>, n: nat): seq<Byte> {
    if |ts| <= n then TokensBytes(ts) else TokensBytes(ts[..n]) + Stream(ts[n..])
  }

  lemma AfterStep(ts: seq<Token>, n: nat)
    requires |ts| > 0 && n > 0
    ensures After(ts, n) == TokenBytes(ts[0]) + After(ts[1..], n - 1)
  {
    hide TokenBytes, Stream;
    if |ts| > n {
      assert ts[n..] == ts[1..][n - 1..];
      TokensHead(ts, n);
      Assoc(TokenBytes(ts[0]), TokensBytes(ts[1..][..n - 1]), Stream(ts[n..]));
    }
  }

  lemma TokensHead(ts: seq<Token>, n: nat)
    requires 0 < n <= |ts|
    ensures TokensBytes(ts[..n]) == TokenBytes(ts[0]) + TokensBytes(ts[1..][..n - 1])
  {
    hide TokenBytes;
    assert ts[..n][1..] == ts[1..][..n - 1];
  }

  lemma Assoc(a: seq<Byte>, b: seq<Byte>, c: seq<Byte>)
    ensures (a + b) + c == a + (b + c)
  {
  }

  lemma StreamParts(ts: seq<Token>)
    requires |ts| > 0
    ensures Stream(ts) == [MarkByte(ts, 8)] + After(ts, 8)
  {
    hide MarkByte, TokensBytes;
    if |ts| > 8 {
      Assoc([MarkByte(ts, 8)], TokensBytes(ts[..8]), Stream(ts[8..]));
    }
  }

  lemma AfterNone(ts: seq<Token>)
    ensures After(ts, 0) == Stream(ts)
  {
    if |ts| > 0 {
      assert ts[..0] == [] && ts[0..] == ts;
      assert TokensBytes([]) + Stream(ts) == Stream(ts);
    }
  }

  lemma HoldsSplit(f: seq<Byte>, r: nat, a: seq<Byte>, b: seq<Byte>)
    requires Holds(f, r, a + b)
    ensures |a| <= r <= |f| && Holds(f, r - |a|, b) && forall i :: 0 <= i < |a| ==> f[r - 1 - i] == a[i]
  {
    forall i | 0 <= i < |b|
      ensures f[r - |a| - 1 - i] == b[i]
    {
      assert f[r - 1 - (|a| + i)] == (a + b)[|a| + i];
    }
    forall i | 0 <= i < |a|
      ensures f[r - 1 - i] == a[i]
    {
      assert (a + b)[i] == a[i];
    }
  }

  lemma AfterLonger(ts: seq<Token>, n: nat)
    requires |ts| > 0
    ensures |After(ts, n)| > 0
  {
    if n == 0 {
      AfterNone(ts);
      StreamParts(ts);
    } else {
      AfterStep(ts, n);
    }
  }

  // ---------- which streams decode in place ----------

  /** How many bytes of text the tokens make. */
  function Made(ts: seq<Token>): nat {
    if |ts| == 0 then 0 else Makes(ts[0]) + Made(ts[1..])
  }

  /** Flag bytes of the first n tokens. */
  function FlagBytes(n: nat): nat {
    (n + 7) / 8
  }

  /** The bytes of the stream that are unread once k tokens are done. */
  function Unread(ts: seq<Token>, k: nat): int
    requires k <= |ts|
  {
    |TokensBytes(ts[k..])| + FlagBytes(|ts|) - FlagBytes(k)
  }

  /**
   * Token k keeps off the unread bytes: of the room above the end of the stream, what the tokens up to it have made
   * leaves enough for the bytes still to be read, and a reference reaches back into the size bytes there or made.
   */
  ghost predicate TokenFits(ts: seq<Token>, k: nat, room: int, size: nat)
    requires k < |ts|
  {
    && Reaches(ts[k], size + Made(ts[..k]))
    && Made(ts[..k + 1]) + Unread(ts, k + 1) <= room
  }

  /** Every token from the k-th on does. */
  ghost predicate FitsOn(ts: seq<Token>, k: nat, room: int, size: nat) {
    forall j :: k <= j < |ts| ==> TokenFits(ts, j, room, size)
  }

  /** The same, token by token, with n flags of the current group left. */
  predicate FitsFrom(ts: seq<Token>, n: nat, room: int, size: nat)
    requires n <= 8
  {
    |ts| == 0 ||
    var left := (if n == 0 then 8 else n) - 1;
    var m := Makes(ts[0]);
    Reaches(ts[0], size) && m + |After(ts[1..], left)| <= room && FitsFrom(ts[1..], left, room - m, size + m)
  }

  lemma {:induction false} MadeSplit(ts: seq<Token>, k: nat)
    requires k < |ts|
    ensures Made(ts[..k + 1]) == Made(ts[..k]) + Makes(ts[k])
  {
    if k == 0 {
      assert ts[..1][1..] == [] && ts[..0] == [];
    } else {
      MadeSplit(ts[1..], k - 1);
      assert ts[..k + 1][1..] == ts[1..][..k] && ts[..k][1..] == ts[1..][..k - 1];
    }
  }

  /** The flag bytes and tokens of what is left of a stream. */
  lemma {:induction false} AfterLength(ts: seq<Token>, n: nat)
    requires n <= 8
    ensures |After(ts, n)| == |TokensBytes(ts)| + (if |ts| <= n then 0 else FlagBytes(|ts| - n))
  {
    hide MarkByte, TokenBytes;
    if |ts| == 0 {
      AfterEmpty(ts, n);
    } else {
      var m := if n == 0 then 8 else n;
      if n == 0 {
        AfterNone(ts);
        StreamParts(ts);
      }
      AfterStep(ts, m);
      AfterLength(ts[1..], m - 1);
      assert TokensBytes(ts) == TokenBytes(ts[0]) + TokensBytes(ts[1..]);
      hide After, Stream;
    }
  }

  /** In a stream read up to token k, the flags left are those of the group of k. */
  function FlagsLeft(k: nat): (n: nat)
    ensures n < 8
  {
    7 - (k + 7) % 8
  }

  lemma UnreadIsAfter(ts: seq<Token>, k: nat)
    requires k <= |ts|
    ensures |After(ts[k..], FlagsLeft(k))| == Unread(ts, k)
  {
    hide After, TokensBytes;
    var n, l := FlagsLeft(k), |ts| - k;
    AfterLength(ts[k..], n);
    var q := (k + 7) / 8;
    assert k == 8 * q - n;
    if l > n {
      assert (l - n + 7) / 8 + q == (|ts| + 7) / 8;
    }
  }

  lemma FitsHead(ts: seq<Token>, n: nat, left: nat, room: int, size: nat)
    requires n <= 8 && |ts| > 0 && left == (if n == 0 then 8 else n) - 1
    ensures FitsFrom(ts, n, room, size)
      == (Reaches(ts[0], size) && Makes(ts[0]) + |After(ts[1..], left)| <= room
          && FitsFrom(ts[1..], left, room - Makes(ts[0]), size + Makes(ts[0])))
  {
    hide Makes, Reaches, After;
  }

  lemma FitsNext(ts: seq<Token>, k: nat, room: int, size: nat)
    requires k < |ts|
    ensures FitsFrom(ts[k..], FlagsLeft(k), room - Made(ts[..k]), size + Made(ts[..k]))
      == (TokenFits(ts, k, room, size)
          && FitsFrom(ts[k + 1..], FlagsLeft(k + 1), room - Made(ts[..k + 1]), size + Made(ts[..k + 1])))
  {
    hide Made, Makes, After, Unread, Reaches, FitsFrom, FlagsLeft;
    FlagsNext(k);
    FitsHead(ts[k..], FlagsLeft(k), FlagsLeft(k + 1), room - Made(ts[..k]), size + Made(ts[..k]));
    MadeSplit(ts, k);
    UnreadIsAfter(ts, k + 1);
    assert ts[k..][0] == ts[k] && ts[k..][1..] == ts[k + 1..];
  }

  lemma FitsOnNext(ts: seq<Token>, k: nat, room: int, size: nat)
    requires k < |ts|
    ensures FitsOn(ts, k, room, size) == (TokenFits(ts, k, room, size) && FitsOn(ts, k + 1, room, size))
  {
    hide TokenFits;
  }

  lemma {:induction false} FitsSplit(ts: seq<Token>, k: nat, room: int, size: nat)
    requires k <= |ts|
    ensures FitsFrom(ts[k..], FlagsLeft(k), room - Made(ts[..k]), size + Made(ts[..k])) == FitsOn(ts, k, room, size)
    decreases |ts| - k
  {
    hide FitsFrom, TokenFits, Made, FlagsLeft, FitsOn;
    if k < |ts| {
      FitsNext(ts, k, room, size);
      FitsOnNext(ts, k, room, size);
      FitsSplit(ts, k + 1, room, size);
    } else {
      FitsEnd(ts, FlagsLeft(k), room - Made(ts[..k]), size + Made(ts[..k]));
      assert FitsOn(ts, k, room, size) by {
        NothingOn(ts, room, size);
      }
    }
  }

  lemma FitsEnd(ts: seq<Token>, n: nat, room: int, size: nat)
    requires n <= 8
    ensures FitsFrom(ts[|ts|..], n, room, size)
  {
  }

  lemma NothingOn(ts: seq<Token>, room: int, size: nat)
    ensures FitsOn(ts, |ts|, room, size)
  {
  }

  lemma FlagsNext(k: nat)
    ensures FlagsLeft(k + 1) == (if FlagsLeft(k) == 0 then 8 else FlagsLeft(k)) - 1
  {
  }

  lemma AfterEmpty(ts: seq<Token>, n: nat)
    requires |ts| == 0
    ensures After(ts, n) == []
  {
  }

  /** What the flags do with the next token, whether or not it goes well. */
  lemma TokenStep(f: seq<Byte>, end: nat, stop: int, r: nat, text: seq<Byte>, t: Token, mark: Byte, n: nat)
    requires end <= |f| && |TokenBytes(t)| <= r <= |f| && 0 < n <= 8 && (mark >= 0x80 <==> t.Ref?)
    requires t.Plain? ==> f[r - 1] == t.b
    requires t.Ref? ==> f[r - 1] == TokenBytes(t)[0] && f[r - 2] == TokenBytes(t)[1]
    ensures !Reaches(t, |text| + |f[end..]|) ==> Flags(f, end, stop, r, text, mark, n) == OutOfRange
    ensures Reaches(t, |text| + |f[end..]|) ==>
      Flags(f, end, stop, r, text, mark, n)
      == Onward(f, end, stop, r - |TokenBytes(t)|, Grown(t, text, f[end..]), mark, n)
  {
    hide CopyBack, Offset, Count, Onward, Decode, TokenBytes;
    if t.Ref? {
      Encoded(t.distance, t.length);
    }
    TwoBytes(t);
  }

  lemma TwoBytes(t: Token)
    ensures |TokenBytes(t)| == if t.Ref? then 2 else 1
  {
  }

  lemma OnwardSteps(f: seq<Byte>, end: nat, stop: nat, r: nat, text: seq<Byte>, mark: Byte, n: nat)
    requires end <= |f| && r <= |f| && 0 < n <= 8
    ensures end - |text| < r ==> !Onward(f, end, stop, r, text, mark, n).Done?
    ensures end - |text| >= r ==>
      Onward(f, end, stop, r, text, mark, n)
      == if r <= stop then Done(text, r) else Flags(f, end, stop, r, text, mark * 2 % 256, n - 1)
  {
    hide Flags;
  }

  /**
   * A stream laid out from tokens decodes in place if and only if every token keeps off the bytes still to be read;
   * then the text is what the tokens say, and the cursor ends where the stream ends.
   */
  lemma {:induction false} DecodeStream(f: seq<Byte>, end: nat, r: nat, text: seq<Byte>, ts: seq<Token>)
    requires end <= |f| && Holds(f, r, Stream(ts))
    ensures var stop := r - |Stream(ts)|; var d := Decode(f, end, stop, r, text);
      && (d.Done? <==> FitsOn(ts, 0, end - |text| - stop, |text| + |f[end..]|))
      && (d.Done? ==> d == Done(Apply(ts, text, f[end..]), stop))
  {
    hide Decode, Stream, FitsFrom, FitsOn, Apply, Made, FlagsLeft;
    var stop := r - |Stream(ts)|;
    DecodeTokens(f, end, r, text, ts);
    FitsSplit(ts, 0, end - |text| - stop, |text| + |f[end..]|);
    assert ts[0..] == ts && Made(ts[..0]) == 0 && FlagsLeft(0) == 0 by {
      NoneMade(ts);
    }
  }

  /**
   * What the tokens say, byte by byte: the bytes of token k lie in front of those of the tokens before it; a plain one is
   * its byte, and each byte of a reference repeats the one so far behind it, in the text or in what follows it.
   */
  ghost predicate Spelled(ts: seq<Token>, t: seq<Byte>, rest: seq<Byte>) {
    |t| == Made(ts) && forall k :: 0 <= k < |ts| ==> SpelledAt(ts, k, 0, t, rest)
  }

  /** Token k, when before bytes of the text were there before the tokens. */
  ghost predicate SpelledAt(ts: seq<Token>, k: nat, before: nat, t: seq<Byte>, rest: seq<Byte>)
    requires k < |ts|
  {
    var high := |t| - before - Made(ts[..k]);
    var low := |t| - before - Made(ts[..k + 1]);
    0 <= low <= high <= |t| && SpelledBetween(ts[k], low, high, t, rest)
  }

  ghost predicate SpelledBetween(p: Token, low: nat, high: nat, t: seq<Byte>, rest: seq<Byte>)
    requires low <= high <= |t|
  {
    match p
    case Plain(b) => high == low + 1 && t[low] == b
    case Ref(distance, length) =>
      high == low + length && RepeatsBetween(distance, low, high, t, rest)
  }

  ghost predicate RepeatsBetween(d: nat, low: nat, high: nat, t: seq<Byte>, rest: seq<Byte>)
    requires low <= high <= |t|
  {
    forall i :: low <= i < high ==> RepeatsAt(d, i, t, rest)
  }

  ghost predicate RepeatsAt(d: nat, i: nat, t: seq<Byte>, rest: seq<Byte>)
    requires i < |t|
  {
    i + d < |t| + |rest| && t[i] == (t + rest)[i + d]
  }

  lemma GrownSpelled(p: Token, text: seq<Byte>, rest: seq<Byte>)
    requires Reaches(p, |text| + |rest|)
    ensures var u := Grown(p, text, rest); u[Makes(p)..] == text && SpelledBetween(p, 0, Makes(p), u, rest)
  {
    hide CopyBack;
    if p.Ref? {
      CopyRepeats(text, rest, p.distance - 1, p.length);
    }
  }

  /** A token spelled in front of a text is spelled with more in front of it. */
  lemma SpelledDeeper(p: Token, n: nat, u: seq<Byte>, t: seq<Byte>, rest: seq<Byte>)
    requires n <= |u| <= |t| && t[|t| - |u|..] == u && SpelledBetween(p, 0, n, u, rest)
    ensures SpelledBetween(p, |t| - |u|, |t| - |u| + n, t, rest)
  {
    hide RepeatsBetween;
    match p
    case Plain(b) =>
      assert t[|t| - |u|] == t[|t| - |u|..][0];
    case Ref(distance, length) =>
      RepeatsDeeper(distance, n, u, t, rest);
  }

  lemma RepeatsDeeper(d: nat, n: nat, u: seq<Byte>, t: seq<Byte>, rest: seq<Byte>)
    requires n <= |u| <= |t| && t[|t| - |u|..] == u && RepeatsBetween(d, 0, n, u, rest)
    ensures RepeatsBetween(d, |t| - |u|, |t| - |u| + n, t, rest)
  {
    hide RepeatsAt;
    var at := |t| - |u|;
    forall i | at <= i < at + n
      ensures RepeatsAt(d, i, t, rest)
    {
      assert RepeatsAt(d, i - at, u, rest);
      RepeatDeeper(d, i - at, u, t, rest);
    }
  }

  lemma RepeatDeeper(d: nat, j: nat, u: seq<Byte>, t: seq<Byte>, rest: seq<Byte>)
    requires j < |u| <= |t| && t[|t| - |u|..] == u && RepeatsAt(d, j, u, rest)
    ensures RepeatsAt(d, |t| - |u| + j, t, rest)
  {
    var at := |t| - |u|;
    assert t == t[..at] + u;
    assert (t + rest)[at + j + d] == (u + rest)[j + d];
  }

  lemma {:induction false} ApplySpelled(ts: seq<Token>, text: seq<Byte>, rest: seq<Byte>)
    requires forall k :: 0 <= k < |ts| ==> Reaches(ts[k], |text| + |rest| + Made(ts[..k]))
    ensures var t := Apply(ts, text, rest);
      && |t| == |text| + Made(ts) && t[Made(ts)..] == text
      && forall k :: 0 <= k < |ts| ==> SpelledAt(ts, k, |text|, t, rest)
    decreases |ts|
  {
    hide Grown, Reaches, Makes, SpelledBetween, SpelledAt;
    if |ts| > 0 {
      assert Made(ts[..0]) == 0;
      assert Reaches(ts[0], |text| + |rest|);
      var u := Grown(ts[0], text, rest);
      GrownSpelled(ts[0], text, rest);
      MadeRest(ts);
      forall k | 0 <= k < |ts[1..]|
        ensures Reaches(ts[1..][k], |u| + |rest| + Made(ts[1..][..k]))
      {
        assert Reaches(ts[k + 1], |text| + |rest| + Made(ts[..k + 1]));
      }
      ApplySpelled(ts[1..], u, rest);
      AllSpelled(ts, text, u, Apply(ts, text, rest), rest);
    }
  }

  /** What the first k tokens make: the first one and k - 1 others. */
  lemma MadeRest(ts: seq<Token>)
    requires |ts| > 0
    ensures forall k :: 0 <= k < |ts| ==> Made(ts[..k + 1]) == Makes(ts[0]) + Made(ts[1..][..k])
  {
    hide Makes;
    forall k | 0 <= k < |ts|
      ensures Made(ts[..k + 1]) == Makes(ts[0]) + Made(ts[1..][..k])
    {
      assert ts[..k + 1][1..] == ts[1..][..k];
    }
  }

  lemma MadeFirst(ts: seq<Token>)
    requires |ts| > 0
    ensures Made(ts) == Makes(ts[0]) + Made(ts[1..])
  {
  }

  lemma AllSpelled(ts: seq<Token>, text: seq<Byte>, u: seq<Byte>, t: seq<Byte>, rest: seq<Byte>)
    requires |ts| > 0 && |u| == |text| + Makes(ts[0]) && u[Makes(ts[0])..] == text
    requires SpelledBetween(ts[0], 0, Makes(ts[0]), u, rest)
    requires |t| == |u| + Made(ts[1..]) && t[Made(ts[1..])..] == u
    requires forall k :: 0 <= k < |ts[1..]| ==> SpelledAt(ts[1..], k, |u|, t, rest)
    ensures |t| == |text| + Made(ts) && t[Made(ts)..] == text
    ensures forall k :: 0 <= k < |ts| ==> SpelledAt(ts, k, |text|, t, rest)
  {
    hide Made, Makes, SpelledBetween, SpelledAt;
    MadeFirst(ts);
    assert t[Made(ts)..] == t[Made(ts[1..])..][Makes(ts[0])..];
    forall k | 0 <= k < |ts|
      ensures SpelledAt(ts, k, |text|, t, rest)
    {
      if k == 0 {
        FirstSpelled(ts, text, u, t, rest);
      } else {
        assert SpelledAt(ts[1..], k - 1, |u|, t, rest);
        LaterSpelled(ts, k, |text|, t, rest);
      }
    }
  }

  lemma FirstSpelled(ts: seq<Token>, text: seq<Byte>, u: seq<Byte>, t: seq<Byte>, rest: seq<Byte>)
    requires |ts| > 0 && |u| == |text| + Makes(ts[0]) && SpelledBetween(ts[0], 0, Makes(ts[0]), u, rest)
    requires |u| <= |t| && t[|t| - |u|..] == u
    ensures SpelledAt(ts, 0, |text|, t, rest)
  {
    hide SpelledBetween, Makes;
    SpelledDeeper(ts[0], Makes(ts[0]), u, t, rest);
    MadeRest(ts);
    assert ts[..0] == [] && Made(ts[..1]) == Makes(ts[0]) + Made(ts[1..][..0]);
  }

  lemma LaterSpelled(ts: seq<Token>, k: nat, before: nat, t: seq<Byte>, rest: seq<Byte>)
    requires 0 < k < |ts| && SpelledAt(ts[1..], k - 1, before + Makes(ts[0]), t, rest)
    ensures SpelledAt(ts, k, before, t, rest)
  {
    hide SpelledBetween, Makes, Made;
    MadeRest(ts);
    assert Made(ts[..k]) == Makes(ts[0]) + Made(ts[1..][..k - 1]);
    assert Made(ts[..k + 1]) == Makes(ts[0]) + Made(ts[1..][..k]);
  }

  /** The text of a stream whose tokens fit is what they spell. */
  lemma FittingSpelled(ts: seq<Token>, room: int, rest: seq<Byte>)
    requires FitsOn(ts, 0, room, |rest|)
    ensures Spelled(ts, Apply(ts, [], rest), rest)
  {
    hide Reaches, SpelledAt, Apply, Made, Unread;
    forall k | 0 <= k < |ts|
      ensures Reaches(ts[k], |rest| + Made(ts[..k]))
    {
      assert TokenFits(ts, k, room, |rest|);
    }
    ApplySpelled(ts, [], rest);
  }

  /** The loop in place on a stream whose tokens fit: memory holds what they say, and no other byte has changed. */
  method RunStream(mem: array<Byte>, end: nat, start: nat, stop: nat, ghost ts: seq<Token>) returns (e: nat, r: nat)
    requires start <= end <= mem.Length && Holds(mem[..], start, Stream(ts)) && stop == start - |Stream(ts)|
    requires FitsOn(ts, 0, end - stop, mem.Length - end)
    modifies mem
    ensures var t := Apply(ts, [], old(mem[..])[end..]);
      |t| <= end && mem[..] == View(old(mem[..]), end, t) && e == end - |t| && r == stop
    ensures e <= end && mem[..e] == old(mem[..e]) && mem[end..] == old(mem[end..])
    ensures Spelled(ts, mem[e..end], mem[end..])
  {
    hide Decode, Stream, FitsOn, Apply, View, Holds, Spelled;
    ghost var t := Apply(ts, [], mem[end..]);
    DecodeStream(mem[..], end, start, [], ts);
    FittingSpelled(ts, end - stop, mem[end..]);
    ViewParts(mem[..], end, t);
    e, r := Run(mem, end, start, stop);
  }

  lemma NoneMade(ts: seq<Token>)
    ensures ts[0..] == ts && Made(ts[..0]) == 0 && FlagsLeft(0) == 0
  {
  }

  lemma {:induction false} DecodeTokens(f: seq<Byte>, end: nat, r: nat, text: seq<Byte>, ts: seq<Token>)
    requires end <= |f| && Holds(f, r, Stream(ts))
    ensures var stop := r - |Stream(ts)|; var d := Decode(f, end, stop, r, text);
      && (d.Done? <==> FitsFrom(ts, 0, end - |text| - stop, |text| + |f[end..]|))
      && (d.Done? ==> d == Done(Apply(ts, text, f[end..]), stop))
    decreases |ts|, 1, 0
  {
    hide Flags, Stream, MarkByte, After, Apply;
    if |ts| == 0 {
      EmptyTokens(f, end, r, text, ts);
    } else {
      FitsGroup(ts, end - |text| - (r - |Stream(ts)|), |text| + |f[end..]|);
      StreamParts(ts);
      HoldsSplit(f, r, [MarkByte(ts, 8)], After(ts, 8));
      assert f[r - 1 - 0] == [MarkByte(ts, 8)][0];
      FlagsStream(f, end, r - 1, text, ts, 8);
    }
  }

  lemma EmptyTokens(f: seq<Byte>, end: nat, r: nat, text: seq<Byte>, ts: seq<Token>)
    requires end <= |f| && r <= |f| && |ts| == 0
    ensures Stream(ts) == [] && Decode(f, end, r, r, text) == Done(Apply(ts, text, f[end..]), r)
  {
  }

  lemma FitsGroup(ts: seq<Token>, room: int, size: nat)
    ensures FitsFrom(ts, 0, room, size) == FitsFrom(ts, 8, room, size)
  {
  }

  lemma {:induction false} FlagsStream(f: seq<Byte>, end: nat, r: nat, text: seq<Byte>, ts: seq<Token>, n: nat)
    requires end <= |f| && 0 < n <= 8 && |ts| > 0 && Holds(f, r, After(ts, n))
    ensures var stop := r - |After(ts, n)|; var d := Flags(f, end, stop, r, text, MarkByte(ts, n), n);
      && (d.Done? <==> FitsFrom(ts, n, end - |text| - stop, |text| + |f[end..]|))
      && (d.Done? ==> d == Done(Apply(ts, text, f[end..]), stop))
    decreases |ts|, 0, n
  {
    hide Flags, Decode, After, MarkByte, CopyBack, Holds, Onward, Reaches, Grown;
    var stop, t, ts' := r - |After(ts, n)|, ts[0], ts[1..];
    AfterStep(ts, n);
    HoldsSplit(f, r, TokenBytes(t), After(ts', n - 1));
    MarkStep(ts, n);
    FirstBytes(f, r, t);
    TokenStep(f, end, stop, r, text, t, MarkByte(ts, n), n);
    if Reaches(t, |text| + |f[end..]|) {
      FlagsOnward(f, end, r - |TokenBytes(t)|, Grown(t, text, f[end..]), ts, n, stop);
    }
  }

  /** After the first token. */
  lemma {:induction false} FlagsOnward(f: seq<Byte>, end: nat, r: nat, text: seq<Byte>, ts: seq<Token>, n: nat, stop: nat)
    requires end <= |f| && 0 < n <= 8 && |ts| > 0 && Holds(f, r, After(ts[1..], n - 1))
    requires stop == r - |After(ts[1..], n - 1)|
    ensures var d := Onward(f, end, stop, r, text, MarkByte(ts, n), n); var room := end - |text| - stop;
      && (d.Done? <==> |After(ts[1..], n - 1)| <= room && FitsFrom(ts[1..], n - 1, room, |text| + |f[end..]|))
      && (d.Done? ==> d == Done(Apply(ts[1..], text, f[end..]), stop))
    decreases |ts| - 1, 2, 0
  {
    hide Flags, Decode, After, MarkByte, Onward, Reaches;
    var ts' := ts[1..];
    MarkStep(ts, n);
    OnwardSteps(f, end, stop, r, text, MarkByte(ts, n), n);
    if |ts'| == 0 {
      AfterEmpty(ts', n - 1);
    } else {
      AfterLonger(ts', n - 1);
      if n == 1 {
        AfterNone(ts');
        NoFlags(f, end, stop, r, text, MarkByte(ts', 0));
        DecodeTokens(f, end, r, text, ts');
      } else {
        FlagsStream(f, end, r, text, ts', n - 1);
      }
    }
  }

  lemma FirstBytes(f: seq<Byte>, r: nat, t: Token)
    requires |TokenBytes(t)| <= r <= |f| && forall i :: 0 <= i < |TokenBytes(t)| ==> f[r - 1 - i] == TokenBytes(t)[i]
    ensures t.Plain? ==> f[r - 1] == t.b
    ensures t.Ref? ==> f[r - 1] == TokenBytes(t)[0] && f[r - 2] == TokenBytes(t)[1]
  {
    assert f[r - 1 - 0] == TokenBytes(t)[0];
    if t.Ref? {
      assert f[r - 1 - 1] == TokenBytes(t)[1];
    }
  }
}
