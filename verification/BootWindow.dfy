/**
 * Which schedules boot: ARM9 does not wait between its second START and MEMCLR, and a fair run boots exactly when ARM7
 * gets a turn there. Where that window lies is decided by the schedule alone.
 */
module BootWindow {
  import opened Handshake

  /** ARM9 has written its second START and not yet MEMCLR. */
  predicate Window(pc: Pc9) {
    pc == ClearTcm || pc == MemClr
  }

  /** ARM9's way to its request loop. */
  function Stage(pc: Pc9): nat {
    match pc
    case Start9 => 0
    case WaitMbk => 1
    case InitMbk => 2
    case AckMbk => 3
    case ClearTcm => 4
    case MemClr => 5
    case _ => 6
  }

  lemma StageRises(c: Config, s: State, core: Core)
    ensures Stage(s.pc9) <= Stage(Step(c, s, core).pc9) <= Stage(s.pc9) + 1
    ensures core == Arm7 ==> Step(c, s, core).pc9 == s.pc9
  {
    hide Step7, Step9, Stage;
    if core == Arm7 {
      Keeps9Place(c, s);
    } else {
      StageNext(s);
    }
  }

  lemma Keeps9Place(c: Config, s: State)
    ensures Step7(c, s).pc9 == s.pc9
  {
  }

  lemma StageNext(s: State)
    ensures Stage(s.pc9) <= Stage(Step9(s).pc9) <= Stage(s.pc9) + 1
  {
    if Stage(s.pc9) == 6 {
      LateStage(s);
      hide Step9;
    }
  }

  lemma LateStage(s: State)
    requires Stage(s.pc9) == 6
    ensures Stage(Step9(s).pc9) == 6
  {
    hide Step9, Stage;
    if InLoop(s.pc9) {
      LateLoop(s);
    } else {
      LateAction(s);
    }
  }

  lemma LateLoop(s: State)
    requires InLoop(s.pc9)
    ensures Stage(Step9(s).pc9) == 6
  {
  }

  lemma LateAction(s: State)
    requires Stage(s.pc9) == 6 && !InLoop(s.pc9)
    ensures Stage(Step9(s).pc9) == 6
  {
  }

  /** ARM7 has its turn at n while ARM9 is in the window. */
  ghost predicate Polls(c: Config, sched: nat -> Core, n: nat) {
    sched(n) == Arm7 && Window(At(c, sched, n).pc9)
  }

  ghost predicate Polled(c: Config, sched: nat -> Core) {
    exists n: nat :: Polls(c, sched, n)
  }

  // ---------- without a poll START is missed ----------

  /** ARM7 has not looked since the second START. */
  predicate Unseen(s: State) {
    && (Window(s.pc9) ==> s.pc7 == Ack(MbkStart))
    && (Stage(s.pc9) == 6 ==> Missed(s))
  }

  /** The second START answers ARM7's first request. */
  lemma EntersWaiting(c: Config, s: State)
    requires Inv(c, s) && s.pc9 == AckMbk
    ensures s.pc7 == Ack(MbkStart)
  {
    hide Script, Made, Place, InvUsed, InvWritten;
    ServedIsLast(c, s);
  }

  /** Leaving the window writes MEMCLR over the START nobody has seen. */
  lemma LeavesMissed(c: Config, s: State)
    requires Inv(c, s) && s.pc9 == MemClr && s.pc7 == Ack(MbkStart)
    ensures Missed(Step9(s))
  {
    hide Script, Made, Place, InvUsed, InvWritten, Inv7;
  }

  lemma UnseenStays(c: Config, s: State, core: Core)
    requires Inv(c, s) && Unseen(s) && (core == Arm7 ==> !Window(s.pc9))
    ensures Unseen(Step(c, s, core))
  {
    hide Inv, Missed;
    StageRises(c, s, core);
    if Stage(s.pc9) == 6 {
      MissedForever(c, s, core);
    } else if core == Arm9 {
      Step9Leaves(s);
      if s.pc9 == AckMbk {
        EntersWaiting(c, s);
      } else if s.pc9 == MemClr {
        LeavesMissed(c, s);
      }
      hide Inv, Missed;
    }
  }

  lemma UnseenInitially()
    ensures Unseen(INITIAL)
  {
  }

  lemma UnpolledTurn(c: Config, sched: nat -> Core, n: nat)
    requires !Polled(c, sched) && sched(n) == Arm7
    ensures !Window(At(c, sched, n).pc9)
  {
    hide At, Window;
    assert !Polls(c, sched, n);
  }

  lemma {:induction false} UnseenAt(c: Config, sched: nat -> Core, n: nat)
    requires !Polled(c, sched)
    ensures Unseen(At(c, sched, n))
  {
    hide Inv, Unseen, Step, Window, Polled;
    if n == 0 {
      UnseenInitially();
    } else {
      UnseenAt(c, sched, n - 1);
      AtInv(c, sched, n - 1);
      if sched(n - 1) == Arm7 {
        UnpolledTurn(c, sched, n - 1);
      }
      UnseenStays(c, At(c, sched, n - 1), sched(n - 1));
    }
  }

  // ---------- after a poll START is never missed ----------

  /** ARM7 has seen the second START. */
  predicate Past(pc: Pc7) {
    pc == ClearMemory || PastClearing(pc)
  }

  /** In the window ARM7 has made its first request. */
  lemma WindowMade(c: Config, s: State)
    requires Inv(c, s) && Window(s.pc9)
    ensures s.pc7 == Ack(MbkStart) || Past(s.pc7)
  {
    hide Script, InvUsed, InvWritten;
    ActionPlaces(c);
    assert s.issued != [];
  }

  lemma PastStays(c: Config, s: State, core: Core)
    requires Past(s.pc7)
    ensures Past(Step(c, s, core).pc7)
  {
    hide Step9, Step7, Past;
    if core == Arm9 {
      Step9Leaves(s);
    } else if s.pc7.Ack? || s.pc7.Await? || s.pc7.Issue? {
      PastRequest(c, s);
    } else {
      PastAction(c, s);
    }
  }

  lemma PastRequest(c: Config, s: State)
    requires Past(s.pc7) && (s.pc7.Ack? || s.pc7.Await? || s.pc7.Issue?)
    ensures Past(Step7(c, s).pc7)
  {
  }

  lemma PastAction(c: Config, s: State)
    requires Past(s.pc7) && !s.pc7.Ack? && !s.pc7.Await? && !s.pc7.Issue?
    ensures Past(Step7(c, s).pc7)
  {
  }

  lemma PollPasses(c: Config, s: State)
    requires Inv(c, s) && Window(s.pc9)
    ensures Past(Step(c, s, Arm7).pc7)
  {
    hide Inv;
    WindowMade(c, s);
    if s.pc7 == Ack(MbkStart) {
      OnePollIsEnough(c, s);
    } else {
      PastStays(c, s, Arm7);
    }
  }

  lemma {:induction false} PastAt(c: Config, sched: nat -> Core, n: nat, m: nat)
    requires Polls(c, sched, n) && n < m
    ensures Past(At(c, sched, m).pc7)
    decreases m
  {
    hide Inv, Step, Past, At;
    AtNext(c, sched, m - 1);
    if m == n + 1 {
      AtInv(c, sched, n);
      PollPasses(c, At(c, sched, n));
    } else {
      PastAt(c, sched, n, m - 1);
      PastStays(c, At(c, sched, m - 1), sched(m - 1));
    }
  }

  lemma PolledNeverMisses(c: Config, sched: nat -> Core, n: nat, i: nat)
    requires Polls(c, sched, n)
    ensures !Missed(At(c, sched, i))
  {
    hide *;
    if Missed(At(c, sched, i)) {
      var m := if i <= n then n + 1 else i;
      MissedStays(c, sched, i, m);
      PastAt(c, sched, n, m);
      PastNotMissed(At(c, sched, m));
    }
  }

  lemma PastNotMissed(s: State)
    requires Past(s.pc7)
    ensures !Missed(s)
  {
  }

  /** A fair run boots exactly when ARM7 has a turn between ARM9's second START and MEMCLR. */
  lemma BootsIfPolled(c: Config, sched: nat -> Core)
    requires Fair(sched)
    ensures Boots(c, sched) <==> Polled(c, sched)
  {
    hide Fair, At, Polls, Missed, Unseen;
    if Polled(c, sched) {
      var n: nat :| Polls(c, sched, n);
      forall i: nat
        ensures !Missed(At(c, sched, i))
      {
        PolledNeverMisses(c, sched, n, i);
      }
      BootsUnlessMissed(c, sched);
    }
    if Boots(c, sched) {
      var k: nat :| Done(At(c, sched, k));
      if !Polled(c, sched) {
        UnseenAt(c, sched, k);
        UnseenNotDone(At(c, sched, k));
      }
    }
  }

  lemma UnseenNotDone(s: State)
    requires Unseen(s)
    ensures !Done(s)
  {
  }

  // ---------- where the window lies ----------

  /** Whose turns carry both cores to ARM9's MEMCLR. */
  const OPENING := [Arm9, Arm7, Arm7, Arm7, Arm9, Arm9, Arm9, Arm9, Arm9]

  /** The first turn of core from n on is m. */
  ghost predicate FirstTurn(sched: nat -> Core, core: Core, n: nat, m: nat) {
    n <= m && sched(m) == core && forall i :: n <= i < m ==> sched(i) != core
  }

  function From(t: seq<nat>, i: nat): nat
    requires i <= |t|
  {
    if i == 0 then 0 else t[i - 1] + 1
  }

  /** The turns t of the opening, each the first of its core behind the one before. */
  ghost predicate Opening(sched: nat -> Core, t: seq<nat>) {
    |t| == |OPENING| && forall i :: 0 <= i < |t| ==> FirstTurn(sched, OPENING[i], From(t, i), t[i])
  }

  /** The state after the first i turns of the opening. */
  function Stop(c: Config, i: nat): State
    requires i <= |OPENING|
  {
    Run(c, OPENING[..i])
  }

  lemma StopNext(c: Config, i: nat)
    requires i < |OPENING|
    ensures Stop(c, i + 1) == Step(c, Stop(c, i), OPENING[i])
  {
    hide Step;
    assert OPENING[..i + 1][..i] == OPENING[..i];
  }

  /** The state after the first turns, spelled out. */
  function Spelled(c: Config, i: nat): State
    requires i <= 7
  {
    var ready := NOTHING.(dsimode := c.final.dsimode);
    if i == 0 then INITIAL
    else if i <= 2 then INITIAL.(flag := START, pc9 := WaitMbk, pc7 := if i == 1 then WaitBoot else SetMode)
    else if i == 3 then INITIAL.(flag := START, pc9 := WaitMbk, pc7 := Issue(MbkStart), settings := ready)
    else INITIAL.(
           flag := if i == 7 then START else SETMBK_START, pc7 := Ack(MbkStart), settings := ready, issued := [MbkStart],
           pc9 := if i == 4 then WaitMbk else if i == 5 then InitMbk else if i == 6 then AckMbk else ClearTcm,
           mbkReady := i >= 6, served := if i == 7 then [MbkStart] else [])
  }

  lemma SpelledNext(c: Config, i: nat)
    requires i < 7
    ensures Step(c, Spelled(c, i), OPENING[i]) == Spelled(c, i + 1)
  {
  }

  lemma {:induction false} Stops(c: Config, i: nat)
    requires i <= 7
    ensures Stop(c, i) == Spelled(c, i)
  {
    if i == 0 {
      assert OPENING[..0] == [];
    } else {
      Stops(c, i - 1);
      SpelledNext(c, i - 1);
      StopNext(c, i - 1);
    }
    hide Spelled, Step;
  }

  /** Up to the second START the core that is not awaited only polls in vain. */
  lemma StopIdle(c: Config, i: nat, core: Core)
    requires i <= 6 && core != OPENING[i]
    ensures Step(c, Stop(c, i), core) == Stop(c, i)
  {
    Stops(c, i);
  }

  lemma {:induction false} IdleAt(c: Config, sched: nat -> Core, n: nat, m: nat, core: Core)
    requires n <= m && forall i :: n <= i < m ==> sched(i) == core
    requires Step(c, At(c, sched, n), core) == At(c, sched, n)
    ensures At(c, sched, m) == At(c, sched, n)
    decreases m
  {
    hide Step;
    if n < m {
      IdleAt(c, sched, n, m - 1, core);
      AtNext(c, sched, m - 1);
    }
  }

  /** Whatever else is scheduled, the turns of the opening find the states of the opening. */
  lemma {:induction false} AtStop(c: Config, sched: nat -> Core, t: seq<nat>, i: nat)
    requires Opening(sched, t) && i <= 6
    ensures At(c, sched, t[i]) == Stop(c, i)
    decreases i, 1
  {
    hide Step, At, Run, Stop;
    var other := if OPENING[i] == Arm7 then Arm9 else Arm7;
    AtFrom(c, sched, t, i);
    assert FirstTurn(sched, OPENING[i], From(t, i), t[i]);
    StopIdle(c, i, other);
    IdleAt(c, sched, From(t, i), t[i], other);
  }

  lemma {:induction false} AtFrom(c: Config, sched: nat -> Core, t: seq<nat>, i: nat)
    requires Opening(sched, t) && i <= 7
    ensures At(c, sched, From(t, i)) == Stop(c, i)
    decreases i, 0
  {
    hide Step;
    if i == 0 {
      assert OPENING[..0] == [];
    } else {
      AtStop(c, sched, t, i - 1);
      assert FirstTurn(sched, OPENING[i - 1], From(t, i - 1), t[i - 1]);
      AtNext(c, sched, t[i - 1]);
      StopNext(c, i - 1);
    }
  }

  lemma {:induction false} StageAt(c: Config, sched: nat -> Core, n: nat, m: nat)
    requires n <= m
    ensures Stage(At(c, sched, n).pc9) <= Stage(At(c, sched, m).pc9)
    ensures (forall i :: n <= i < m ==> sched(i) == Arm7) ==> At(c, sched, n).pc9 == At(c, sched, m).pc9
    decreases m
  {
    hide Step, Stage;
    if n < m {
      StageAt(c, sched, n, m - 1);
      StageRises(c, At(c, sched, m - 1), sched(m - 1));
      AtNext(c, sched, m - 1);
    }
  }

  /** The next turn of ARM9 after it stood at one place of the window. */
  lemma WindowTurn(c: Config, sched: nat -> Core, n: nat, m: nat)
    requires FirstTurn(sched, Arm9, n, m) && Window(At(c, sched, n).pc9)
    ensures At(c, sched, m).pc9 == At(c, sched, n).pc9
    ensures At(c, sched, m + 1).pc9 == if At(c, sched, n).pc9 == ClearTcm then MemClr else ClearVideo
  {
    hide At;
    StageAt(c, sched, n, m);
    AtNext(c, sched, m);
  }

  /** ARM9 is in the window exactly between the seventh and the ninth turn of the opening. */
  lemma WindowWhen(c: Config, sched: nat -> Core, t: seq<nat>, n: nat)
    requires Opening(sched, t)
    ensures Window(At(c, sched, n).pc9) <==> t[6] < n <= t[8]
  {
    hide Step, At, Run, Stop, Spelled;
    AtStop(c, sched, t, 6);
    AtFrom(c, sched, t, 7);
    InWindow(c);
    assert FirstTurn(sched, OPENING[7], From(t, 7), t[7]) && FirstTurn(sched, OPENING[8], From(t, 8), t[8]);
    WindowTurn(c, sched, t[6] + 1, t[7]);
    WindowTurn(c, sched, t[7] + 1, t[8]);
    if n <= t[6] {
      StageAt(c, sched, n, t[6]);
    } else if n <= t[8] {
      StageAt(c, sched, t[6] + 1, n);
      StageAt(c, sched, n, t[8]);
    } else {
      StageAt(c, sched, t[8] + 1, n);
    }
  }

  lemma InWindow(c: Config)
    ensures Stop(c, 6).pc9 == AckMbk && Stop(c, 7).pc9 == ClearTcm
  {
    Stops(c, 6);
    Stops(c, 7);
  }

  // ---------- the condition on the schedule ----------

  /** ARM7 has a turn between the seventh and the ninth turn of the opening. */
  ghost predicate InTime(sched: nat -> Core, t: seq<nat>, n: nat) {
    Opening(sched, t) && t[6] < n < t[8] && sched(n) == Arm7
  }

  /** The condition speaks of the schedule only. */
  ghost predicate TurnInTime(sched: nat -> Core) {
    exists t: seq<nat>, n: nat :: InTime(sched, t, n)
  }

  lemma {:induction false} FirstTurnExists(sched: nat -> Core, core: Core, n: nat, k: nat) returns (m: nat)
    requires n <= k && sched(k) == core
    ensures FirstTurn(sched, core, n, m)
    decreases k - n
  {
    if sched(n) == core {
      m := n;
    } else {
      m := FirstTurnExists(sched, core, n + 1, k);
    }
  }

  /** Every fair schedule has the opening. */
  lemma OpeningExists(sched: nat -> Core) returns (t: seq<nat>)
    requires Fair(sched)
    ensures Opening(sched, t)
  {
    t := [];
    while |t| < |OPENING|
      invariant |t| <= |OPENING|
      invariant forall i :: 0 <= i < |t| ==> FirstTurn(sched, OPENING[i], From(t, i), t[i])
    {
      var i := |t|;
      var k := NextTurn(sched, OPENING[i], From(t, i));
      var m := FirstTurnExists(sched, OPENING[i], From(t, i), k);
      ghost var u := t + [m];
      forall j | 0 <= j < |u|
        ensures FirstTurn(sched, OPENING[j], From(u, j), u[j])
      {
        assert From(u, j) == From(t, j);
      }
      t := u;
    }
  }

  /** A fair schedule boots exactly when it gives ARM7 a turn between ARM9's second START and MEMCLR. */
  lemma BootsExactlyWhen(c: Config, sched: nat -> Core)
    requires Fair(sched)
    ensures Boots(c, sched) <==> TurnInTime(sched)
  {
    hide Fair, At, Opening;
    BootsIfPolled(c, sched);
    var t := OpeningExists(sched);
    if Polled(c, sched) {
      var n: nat :| Polls(c, sched, n);
      WindowWhen(c, sched, t, n);
      assert sched(n) == Arm7 && n != t[8] by {
        OpeningTurn(sched, t, 8);
      }
      assert InTime(sched, t, n);
    }
    if TurnInTime(sched) {
      var u: seq<nat>, n: nat :| InTime(sched, u, n);
      WindowWhen(c, sched, u, n);
      assert Polls(c, sched, n);
    }
  }

  lemma OpeningTurn(sched: nat -> Core, t: seq<nat>, i: nat)
    requires Opening(sched, t) && i < |OPENING|
    ensures |t| == |OPENING| && sched(t[i]) == OPENING[i]
  {
    assert FirstTurn(sched, OPENING[i], From(t, i), t[i]);
  }

  // ---------- a fair schedule that does not boot ----------

  /** The opening without a pause, then both cores in turn. */
  function Unlucky(n: nat): Core {
    if n < |OPENING| then OPENING[n] else if n % 2 == 0 then Arm7 else Arm9
  }

  lemma UnluckyFair()
    ensures Fair(Unlucky)
  {
    forall n: nat, core: Core
      ensures Later(Unlucky, core, n)
    {
      var m := if core == Arm7 then 2 * n + 10 else 2 * n + 11;
      assert m % 2 == if core == Arm7 then 0 else 1;
      assert Unlucky(m) == core;
    }
  }

  lemma {:induction false} OpeningForced(t: seq<nat>, i: nat)
    requires Opening(Unlucky, t) && i < |OPENING|
    ensures t[i] == i
  {
    if i > 0 {
      OpeningForced(t, i - 1);
    }
    assert FirstTurn(Unlucky, OPENING[i], From(t, i), t[i]);
    assert Unlucky(i) == OPENING[i];
  }

  /** With both cores scheduled for ever, the boot still fails when the window is too short for ARM7. */
  lemma FairButStuck(c: Config)
    ensures Fair(Unlucky) && !Boots(c, Unlucky)
    ensures Missed(Run(c, OPENING))
  {
    hide Fair, Boots, Opening, Missed, Run;
    UnluckyFair();
    if TurnInTime(Unlucky) {
      var t: seq<nat>, n: nat :| InTime(Unlucky, t, n);
      OpeningForced(t, 6);
      OpeningForced(t, 8);
      assert false;
    }
    BootsExactlyWhen(c, Unlucky);
    OpeningMisses(c);
  }

  lemma OpeningMisses(c: Config)
    ensures Missed(Run(c, OPENING))
  {
    Stops(c, 7);
    StopNext(c, 7);
    StopNext(c, 8);
    assert OPENING[..9] == OPENING;
  }
}
