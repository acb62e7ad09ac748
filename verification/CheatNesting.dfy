/**
 * Do conditions nest? A false condition is left at the next closing code, whatever conditions lie between. With nesting
 * it would be left at the closing code that matches it. Which lists make no difference can be read off the list.
 */
module CheatNesting {
  import opened CheatEngine
  import MachineWords

  /** Codes 3 to A and C5 open a condition. */
  predicate IsCondition(l: List, p: int)
    requires Here(l, p)
  {
    3 <= Kind(l, p) <= 0xA || Kind8(l, p) == 0xC5
  }

  /** Where a condition would be left if conditions nested, with open inner conditions still to be closed by a D0. */
  ghost function Matching(l: List, p: int, open: nat): int
    requires WellFormed(l, p)
    decreases 4 * |l.words| - p
  {
    if IsEnd(l, p) || Kind8(l, p) == 0xD1 || Kind8(l, p) == 0xD2 then p
    else if Kind8(l, p) == 0xD0 then if open == 0 then p else Matching(l, Next(l, p), open - 1)
    else Matching(l, Next(l, p), if IsCondition(l, p) then open + 1 else open)
  }

  /** Where it is left: the first D0, D1, D2 or end from p on. */
  ghost function NextCloser(l: List, p: int): (q: int)
    requires WellFormed(l, p)
    ensures WellFormed(l, q) && p <= q && (IsEnd(l, q) || IsCloser(l, q))
    decreases 4 * |l.words| - p
  {
    if IsEnd(l, p) || IsCloser(l, p) then p else NextCloser(l, Next(l, p))
  }

  /** How many conditions are opened before that. */
  ghost function Inner(l: List, p: int): nat
    requires WellFormed(l, p)
    decreases 4 * |l.words| - p
  {
    if IsEnd(l, p) || IsCloser(l, p) then 0
    else (if IsCondition(l, p) then 1 else 0) + Inner(l, Next(l, p))
  }

  lemma {:induction false} MatchingFrom(l: List, p: int, open: nat)
    requires WellFormed(l, p)
    ensures Matching(l, p, open) == Matching(l, NextCloser(l, p), open + Inner(l, p))
    decreases 4 * |l.words| - p
  {
    hide Next, IsCondition;
    if !IsEnd(l, p) && !IsCloser(l, p) {
      MatchingFrom(l, Next(l, p), if IsCondition(l, p) then open + 1 else open);
    }
  }

  lemma {:induction false} MatchingAhead(l: List, p: int, open: nat)
    requires WellFormed(l, p)
    ensures p <= Matching(l, p, open)
    decreases 4 * |l.words| - p
  {
    hide Next, IsCondition;
    if !IsEnd(l, p) && Kind8(l, p) != 0xD1 && Kind8(l, p) != 0xD2 {
      if Kind8(l, p) != 0xD0 {
        MatchingAhead(l, Next(l, p), if IsCondition(l, p) then open + 1 else open);
      } else if open > 0 {
        MatchingAhead(l, Next(l, p), open - 1);
      }
    }
  }

  /**
   * A condition whose codes start at p is left where nesting would leave it if and only if no other condition is opened
   * before its next closing code, or that code is no D0: the end, or a D1 or D2, which close everything.
   */
  lemma NestsExactlyWhen(l: List, p: int)
    requires WellFormed(l, p)
    ensures var q := NextCloser(l, p);
      Matching(l, p, 0) == q <==> Inner(l, p) == 0 || IsEnd(l, q) || Kind8(l, q) != 0xD0
  {
    hide Next, NextCloser, Inner;
    var q := NextCloser(l, p);
    MatchingFrom(l, p, 0);
    if Inner(l, p) > 0 && !IsEnd(l, q) && Kind8(l, q) == 0xD0 {
      MatchingAhead(l, Next(l, q), Inner(l, p) - 1);
    }
  }

  lemma {:induction false} CloserOnParse(l: List, p: int)
    requires WellFormed(l, p)
    ensures ParseAt(l, p, Distance(l, p)) == NextCloser(l, p)
    decreases 4 * |l.words| - p
  {
    hide Next;
    if !IsEnd(l, p) && !IsCloser(l, p) {
      CloserOnParse(l, Next(l, p));
    }
  }

  /**
   * In the run: after a false condition the machine is switched off up to the next closing code and on behind it, and
   * that is what nesting asks for exactly under the condition on the list.
   */
  lemma SkipsAsNested(l: List, e: Env, m: Machine)
    requires Inv(l, m) && m.r8 == 1
    ensures var p := At(l, m); var q, d := NextCloser(l, p), Distance(l, p);
      && (forall k :: 0 <= k <= d ==> Iterate(l, e, m, k).r8 == 1)
      && At(l, Iterate(l, e, m, d)) == q
      && (!IsEnd(l, q) ==> Iterate(l, e, m, d + 1).r8 == 0)
      && (q == Matching(l, p, 0) <==> Inner(l, p) == 0 || IsEnd(l, q) || Kind8(l, q) != 0xD0)
  {
    hide Next, NextCloser, Inner, Matching, Iterate, Step, Reach, WellFormed, Distance, ParseAt;
    var p := At(l, m);
    WholeCode(l, NextCloser(l, p));
    var q, d := NextCloser(l, p), Distance(l, p);
    forall k | 0 <= k <= d
      ensures Iterate(l, e, m, k).r8 == 1
    {
      SkipTo(l, e, m, k);
    }
    SkipTo(l, e, m, d);
    CloserOnParse(l, p);
    NestsExactlyWhen(l, p);
    if !IsEnd(l, q) {
      var c := Iterate(l, e, m, d);
      IterateAdd(l, e, m, d, 1);
      IterateOne(l, e, c);
      CloserResumes(l, e, c);
    }
  }

  // ---------- a list that shows it ----------

  /** A false condition, an inner condition, D0, a write of 7 to address 0x100, D0, the end. */
  const UNNESTED := List(8, [0x5000_0000, 1, 0x5000_0000, 0, 0xD000_0000, 0, 0x100, 7, 0xD000_0000, 0, 0xCF00_0000, 0])

  /** The codes of the list. */
  lemma UnnestedCodes()
    ensures var l := UNNESTED;
      && Here(l, 0) && Here(l, 8) && Here(l, 16) && Here(l, 24) && Here(l, 32) && Here(l, 40)
      && Op(l, 0) == Op(l, 8) == 0x5000_0000 && Op(l, 16) == Op(l, 32) == 0xD000_0000 && Op(l, 24) == 0x100
      && Op(l, 40) == 0xCF00_0000 && Arg(l, 0) == 1 && Arg(l, 24) == 7 && |l.words| == 12 && l.base == 8
  {
  }

  /** A code without inline data that is no end. */
  lemma Short(l: List, p: int)
    requires Here(l, p) && !HasInline(l, p) && !IsEnd(l, p) && WellFormed(l, p + 8)
    ensures Next(l, p) == p + 8 && WellFormed(l, p)
  {
    hide Align;
    AlignUp(p + 8);
  }

  lemma UnnestedParse()
    ensures WellFormed(UNNESTED, 40) && WellFormed(UNNESTED, 32) && WellFormed(UNNESTED, 24) && WellFormed(UNNESTED, 16)
    ensures WellFormed(UNNESTED, 8) && WellFormed(UNNESTED, 0) && GoodList(UNNESTED)
    ensures Next(UNNESTED, 0) == 8 && Next(UNNESTED, 8) == 16 && Next(UNNESTED, 16) == 24 && Next(UNNESTED, 24) == 32
    ensures Next(UNNESTED, 32) == 40
  {
    hide WellFormed, Next, Op, Arg, Here, UNNESTED;
    UnnestedCodes();
    Last(UNNESTED, 40);
    Short(UNNESTED, 32);
    Short(UNNESTED, 24);
    Short(UNNESTED, 16);
    Short(UNNESTED, 8);
    Short(UNNESTED, 0);
  }

  lemma Last(l: List, p: int)
    requires Here(l, p) && IsEnd(l, p)
    ensures WellFormed(l, p)
  {
  }

  /** The outer condition is left at the inner one's D0, where nesting would go on to the second D0. */
  lemma UnnestedCloser()
    ensures WellFormed(UNNESTED, 8) && NextCloser(UNNESTED, 8) == 16 && Matching(UNNESTED, 8, 0) == 32
  {
    hide WellFormed, Next, Op, Arg, Here, UNNESTED;
    UnnestedCodes();
    UnnestedParse();
    assert NextCloser(UNNESTED, 16) == 16;
    assert Matching(UNNESTED, 32, 0) == 32;
    assert Matching(UNNESTED, 24, 0) == 32;
    assert Matching(UNNESTED, 16, 1) == 32;
  }

  /** The machine at offset p of the list. */
  function Shown(p: nat, r8: Word, mem: Memory): Machine
    requires p < 1000
  {
    Machine(0, 0, 0, 0, r8, 0, 8 + p, mem)
  }

  lemma SkippedStep(e: Env)
    requires GoodList(UNNESTED) && WellFormed(UNNESTED, 8)
    ensures Step(UNNESTED, e, Shown(8, 1, map[])) == Shown(16, 1, map[])
  {
    hide WellFormed, Op, Arg, Here, Execute, Inlined, Close, UNNESTED;
    UnnestedCodes();
  }

  lemma FailedStep(e: Env)
    requires GoodList(UNNESTED) && WellFormed(UNNESTED, 0)
    ensures Step(UNNESTED, e, Shown(0, 0, map[])) == Shown(8, 1, map[])
  {
    hide WellFormed, Op, Arg, Here, Condition, Load, CondAddress, Inlined, Close, GoodList, UNNESTED;
    UnnestedCodes();
    NoAddress();
    ZeroMemory(0);
    Unequal(Shown(8, 0, map[]), 0x5000_0000, 1);
  }

  lemma Unequal(m: Machine, op: Word, arg: Word)
    requires Load(m.mem, CondAddress(op, m.r9)) != arg
    ensures !Condition(m, 5, op, arg)
  {
    hide Load, CondAddress, MachineWords.AndWord, Half;
  }

  lemma NoAddress()
    ensures CondAddress(0x5000_0000, 0) == 0
  {
    hide Add;
  }

  lemma ZeroMemory(a: Word)
    ensures Load(map[], a) == 0
  {
  }

  lemma ClosedStep(e: Env, p: nat, r8: Word, mem: Memory)
    requires GoodList(UNNESTED) && (p == 16 || p == 32) && WellFormed(UNNESTED, p) && r8 <= 1
    ensures Step(UNNESTED, e, Shown(p, r8, mem)) == Shown(p + 8, 0, mem)
  {
    hide WellFormed, Op, Arg, Here, Execute, Inlined, GoodList, UNNESTED;
    UnnestedCodes();
  }

  lemma WritingStep(e: Env)
    requires GoodList(UNNESTED) && WellFormed(UNNESTED, 24)
    ensures Step(UNNESTED, e, Shown(24, 0, map[])) == Shown(32, 0, Store(map[], 0x100, 7))
  {
    hide WellFormed, Op, Arg, Here, Store, Inlined, Close, GoodList, UNNESTED;
    UnnestedCodes();
  }

  /** A step that does not lead to the end is one of the run. */
  lemma FinalStep(l: List, e: Env, m: Machine)
    requires Inv(l, m) && !IsEnd(l, At(l, m))
    ensures Inv(l, Step(l, e, m)) && Final(l, e, m) == Final(l, e, Step(l, e, m))
  {
    hide Step, Inv;
    StepKeeps(l, e, m);
  }

  lemma RunToWrite(e: Env)
    ensures Inv(UNNESTED, Start(UNNESTED, map[])) && Inv(UNNESTED, Shown(24, 0, map[]))
    ensures Final(UNNESTED, e, Start(UNNESTED, map[])) == Final(UNNESTED, e, Shown(24, 0, map[]))
  {
    hide WellFormed, Step, Inv, Op, Arg, Here, Next, Final, GoodList, HasInline, IsCloser, UNNESTED;
    var l := UNNESTED;
    UnnestedParse();
    UnnestedCodes();
    StartInv(l, map[]);
    FailedStep(e);
    FinalStep(l, e, Shown(0, 0, map[]));
    SkippedStep(e);
    FinalStep(l, e, Shown(8, 1, map[]));
    ClosedStep(e, 16, 1, map[]);
    FinalStep(l, e, Shown(16, 1, map[]));
  }

  lemma RunFromWrite(e: Env)
    requires Inv(UNNESTED, Shown(24, 0, map[]))
    ensures Final(UNNESTED, e, Shown(24, 0, map[])) == Shown(40, 0, Store(map[], 0x100, 7))
  {
    hide WellFormed, Step, Inv, Op, Arg, Here, Next, Final, GoodList, Store, UNNESTED;
    var l := UNNESTED;
    UnnestedParse();
    UnnestedCodes();
    var m := Store(map[], 0x100, 7);
    WritingStep(e);
    FinalStep(l, e, Shown(24, 0, map[]));
    ClosedStep(e, 32, 0, m);
    FinalStep(l, e, Shown(32, 0, m));
    AtEnd(l, e, Shown(40, 0, m));
  }

  /** The write inside the false outer condition is executed. */
  lemma WriteExecuted(e: Env)
    ensures Inv(UNNESTED, Start(UNNESTED, map[]))
    ensures var mem := Final(UNNESTED, e, Start(UNNESTED, map[])).mem;
      mem == Store(map[], 0x100, 7) && Load(mem, 0x100) == 7
  {
    hide Final, Inv, Store, Load, UNNESTED;
    RunToWrite(e);
    RunFromWrite(e);
    StoredSeven();
  }

  lemma AtEnd(l: List, e: Env, m: Machine)
    requires Inv(l, m) && IsEnd(l, At(l, m))
    ensures Final(l, e, m) == m
  {
  }

  lemma StoredSeven()
    ensures Load(Store(map[], 0x100, 7), 0x100) == 7
  {
  }
}
