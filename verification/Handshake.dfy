/**
 * The boot handshake: two processors share one state flag. ARM7 writes requests into it and polls
 * for the reply, ARM9 polls for requests and writes replies, and both end by jumping into the game.
 * A run is any interleaving of single reads and writes of the flag.
 */
module Handshake {
  import opened Wrappers

  // values of the shared flag
  const BOOT := 0
  const START := 1
  const MEMCLR := 2
  const READY := 3
  const BOOTBIN := 4
  const DISPERR := 5
  const SETSCFG := 6
  const SETMBK := 7
  const SETMBK_START := 8
  const PRINT_MEM := 9

  /** Every request ARM7 may make, in the order of its program. */
  datatype Request = MbkStart | LoadError | HookError | Mbk | Scfg | Print1 | Print2 | BootBin

  function Code(r: Request): int {
    match r
    case MbkStart => SETMBK_START
    case LoadError => DISPERR
    case HookError => DISPERR
    case Mbk => SETMBK
    case Scfg => SETSCFG
    case Print1 => PRINT_MEM
    case Print2 => PRINT_MEM
    case BootBin => BOOTBIN
  }

  /** The shared variables that ARM9 acts on. */
  datatype Settings = Settings(dsimode: bool, confirmed: bool, extended: bool,
                               boostVram: bool, scfgUnlock: bool, twlClock: bool, isSdk5: bool)

  /** Everything about a boot that is decided outside the handshake. */
  datatype Config = Config(final: Settings, loadError: bool, hookError: bool, dsiMbk: bool, debugPrints: bool)

  datatype Pc7 = WaitBoot | SetMode | Await(r: Request) | Issue(r: Request) | Ack(r: Request)
               | ClearMemory | Load | Confirm | Hook | Final | Vblank7 | Jump7

  datatype Pc9 = Start9 | WaitMbk | InitMbk | AckMbk | ClearTcm | MemClr | ClearVideo | Ready9
               | Head | Test(code: int) | Serve(code: int) | Reply(code: int) | Flush
               | Leave | AckBoot | Vblank9 | Jump9

  datatype State = State(
    flag: int, pc7: Pc7, pc9: Pc9,
    settings: Settings,
    mbkReady: bool,              // initMBKARM9 has run
    cleared: bool,               // ARM7 has cleared memory
    issued: seq<Request>,        // requests written to the flag
    served: seq<Request>,        // requests acknowledged by ARM9
    mbk9: Option<Settings>,      // the settings ARM9 used for SETMBK, SETSCFG and the final jump
    scfg9: Option<Settings>,
    boot9: Option<Settings>)

  const NOTHING := Settings(false, false, false, false, false, false, false)

  const INITIAL := State(BOOT, WaitBoot, Start9, NOTHING, false, false, [], [], None, None, None)

  // ---------- ARM7 ----------

  /** Where ARM7 goes once a request is acknowledged. */
  function After(c: Config, r: Request): Pc7 {
    match r
    case MbkStart => ClearMemory
    case LoadError => Confirm
    case HookError => Final
    case Mbk => Await(Scfg)
    case Scfg => if c.debugPrints then Await(Print1) else Issue(BootBin)
    case Print1 => Await(Print2)
    case Print2 => Issue(BootBin)
    case BootBin => Vblank7
  }

  function Reply7(r: Request): int {
    if r == MbkStart then START else READY
  }

  function Step7(c: Config, s: State): State {
    match s.pc7
    case WaitBoot => if s.flag < START then s else s.(pc7 := SetMode)
    case SetMode => s.(settings := s.settings.(dsimode := c.final.dsimode), pc7 := Issue(MbkStart))
    case Issue(r) => s.(flag := Code(r), issued := s.issued + [r], pc7 := Ack(r))
    case Ack(r) => if s.flag != Reply7(r) then s else s.(pc7 := After(c, r))
    case ClearMemory => s.(cleared := true, pc7 := Load)
    case Load => s.(pc7 := if c.loadError then Await(LoadError) else Confirm)
    case Await(r) => if s.flag != READY then s else s.(pc7 := Issue(r))
    case Confirm =>
      s.(settings := s.settings.(confirmed := c.final.confirmed, extended := c.final.extended), pc7 := Hook)
    case Hook => s.(pc7 := if c.hookError then Await(HookError) else Final)
    case Final =>
      s.(settings := s.settings.(boostVram := c.final.boostVram, scfgUnlock := c.final.scfgUnlock,
                                 twlClock := c.final.twlClock, isSdk5 := c.final.isSdk5),
         pc7 := if c.dsiMbk then Await(Mbk) else Await(Scfg))
    case Vblank7 => s.(pc7 := Jump7)
    case Jump7 => s
  }

  // ---------- ARM9 ----------

  /** The tests of the request loop come in this order. */
  function NextTest(code: int): Pc9 {
    if code == DISPERR then Test(SETMBK)
    else if code == SETMBK then Test(SETSCFG)
    else if code == SETSCFG then Test(PRINT_MEM)
    else Flush
  }

  /** An acknowledgement answers the last request issued. */
  function Acknowledge(s: State, reply: int, next: Pc9): State {
    s.(flag := reply, pc9 := next, served := if s.issued == [] then s.served else s.served + [s.issued[|s.issued| - 1]])
  }

  function Step9(s: State): State {
    match s.pc9
    case Start9 => s.(flag := START, pc9 := WaitMbk)
    case WaitMbk => if s.flag != SETMBK_START then s else s.(pc9 := InitMbk)
    case InitMbk => s.(mbkReady := true, pc9 := AckMbk)
    case AckMbk => Acknowledge(s, START, ClearTcm)
    case ClearTcm => s.(pc9 := MemClr)
    case MemClr => s.(flag := MEMCLR, pc9 := ClearVideo)
    case ClearVideo => s.(pc9 := Ready9)
    case Ready9 => s.(flag := READY, pc9 := Head)
    case Head => s.(pc9 := if s.flag == BOOTBIN then Leave else Test(DISPERR))
    case Test(k) => s.(pc9 := if s.flag == k then Serve(k) else NextTest(k))
    case Serve(k) =>
      if k == SETMBK then s.(mbk9 := Some(s.settings), pc9 := Reply(k))
      else if k == SETSCFG then s.(scfg9 := Some(s.settings), pc9 := Reply(k))
      else s.(pc9 := Reply(k))
    case Reply(k) => Acknowledge(s, READY, NextTest(k))
    case Flush => s.(pc9 := Head)
    case Leave => s.(boot9 := Some(s.settings), pc9 := AckBoot)
    case AckBoot => Acknowledge(s, READY, Vblank9)
    case Vblank9 => s.(pc9 := Jump9)
    case Jump9 => s
  }

  // ---------- runs ----------

  datatype Core = Arm7 | Arm9

  function Step(c: Config, s: State, core: Core): State {
    if core == Arm7 then Step7(c, s) else Step9(s)
  }

  /** The state after a finite schedule. */
  function Run(c: Config, sched: seq<Core>): State {
    if sched == [] then INITIAL
    else Step(c, Run(c, sched[..|sched| - 1]), sched[|sched| - 1])
  }

  /** The requests this boot makes. */
  function Script(c: Config): seq<Request> {
    [MbkStart]
    + (if c.loadError then [LoadError] else [])
    + (if c.hookError then [HookError] else [])
    + (if c.dsiMbk then [Mbk] else [])
    + [Scfg]
    + (if c.debugPrints then [Print1, Print2] else [])
    + [BootBin]
  }

  function Count(b: bool): nat {
    if b then 1 else 0
  }

  /** Where a request sits in the script. */
  function Place(c: Config, r: Request): nat {
    var e1 := Count(c.loadError);
    var e2 := e1 + Count(c.hookError);
    var e3 := e2 + Count(c.dsiMbk);
    match r
    case MbkStart => 0
    case LoadError => 1
    case HookError => 1 + e1
    case Mbk => 1 + e2
    case Scfg => 1 + e3
    case Print1 => 2 + e3
    case Print2 => 3 + e3
    case BootBin => 2 + e3 + 2 * Count(c.debugPrints)
  }

  predicate InScript(c: Config, r: Request) {
    match r
    case LoadError => c.loadError
    case HookError => c.hookError
    case Mbk => c.dsiMbk
    case Print1 => c.debugPrints
    case Print2 => c.debugPrints
    case _ => true
  }

  lemma PlaceInScript(c: Config, r: Request)
    requires InScript(c, r)
    ensures Place(c, r) < |Script(c)| && Script(c)[Place(c, r)] == r
  {
  }

  /** How many requests ARM7 has made when it stands at pc. */
  function Made(c: Config, pc: Pc7): nat {
    match pc
    case WaitBoot => 0
    case SetMode => 0
    case Issue(r) => Place(c, r)
    case Await(r) => Place(c, r)
    case Ack(r) => Place(c, r) + 1
    case ClearMemory => 1
    case Load => 1
    case Confirm => 1 + Count(c.loadError)
    case Hook => 1 + Count(c.loadError)
    case Final => 1 + Count(c.loadError) + Count(c.hookError)
    case Vblank7 => |Script(c)|
    case Jump7 => |Script(c)|
  }

  // ---------- the invariant ----------

  predicate Pending(s: State) {
    |s.issued| == |s.served| + 1
  }

  predicate InLoop(pc: Pc9) {
    pc == Head || pc.Test? || pc.Serve? || pc.Reply? || pc == Flush
  }

  predicate Serving(pc: Pc9) {
    pc.Serve? || pc.Reply?
  }

  predicate LoopCode(k: int) {
    k == DISPERR || k == SETMBK || k == SETSCFG || k == PRINT_MEM
  }

  /** ARM7's side: its place in the script, and what it knows about the flag. */
  predicate Inv7(c: Config, s: State) {
    && Made(c, s.pc7) <= |Script(c)| && s.issued == Script(c)[..Made(c, s.pc7)]
    && ((s.pc7.Await? || s.pc7.Issue? || s.pc7.Ack?) ==> InScript(c, s.pc7.r))
    && (s.pc7.Await? ==> s.pc7.r != MbkStart && s.pc7.r != BootBin)
    && (s.issued == s.served || Pending(s))
    && (Pending(s) ==> s.pc7.Ack? && s.served == s.issued[..|s.issued| - 1])
    && (s.pc7.Issue? && s.pc7.r != MbkStart ==> s.flag == READY && InLoop(s.pc9))
    && (s.pc7 == SetMode || s.pc7 == Issue(MbkStart) ==> s.pc9 == WaitMbk)
    && (s.pc7 == WaitBoot ==> s.pc9 == Start9 || s.pc9 == WaitMbk)
  }

  /** What the flag holds while ARM9 is in its request loop. */
  function LoopFlag(s: State): int
    requires Pending(s)
  {
    Code(s.issued[|s.issued| - 1])
  }

  /** ARM9's side: its progress, and the flag value it left behind. */
  predicate Inv9(c: Config, s: State) {
    && (s.pc9 == Start9 ==> s.flag == BOOT && s.issued == [])
    && (s.pc9 == WaitMbk ==> s.served == [] && s.flag == if Pending(s) then SETMBK_START else START)
    && (s.pc9 == InitMbk || s.pc9 == AckMbk ==> s.served == [] && Pending(s) && s.flag == SETMBK_START)
    && (s.pc9 != Start9 && s.pc9 != WaitMbk && s.pc9 != InitMbk ==> s.mbkReady)
    && (s.pc9 != Start9 && s.pc9 != WaitMbk && s.pc9 != InitMbk && s.pc9 != AckMbk ==> |s.served| >= 1)
    && (s.pc9 == ClearTcm || s.pc9 == MemClr ==> s.flag == START && !Pending(s) && |s.served| == 1)
    && (s.pc9 == ClearVideo || s.pc9 == Ready9 ==> s.flag == MEMCLR && !Pending(s) && |s.served| == 1)
    && (InLoop(s.pc9) ==> |s.served| < |Script(c)| && s.flag == if Pending(s) then LoopFlag(s) else READY)
    && (s.pc9.Test? || Serving(s.pc9) ==> LoopCode(s.pc9.code))
    && (Serving(s.pc9) ==> Pending(s) && s.flag == s.pc9.code)
    && (s.pc9 == Leave || s.pc9 == AckBoot ==> Pending(s) && s.flag == BOOTBIN == LoopFlag(s))
    && (s.pc9 == Vblank9 || s.pc9 == Jump9 ==> s.flag == READY && s.served == Script(c))
  }

  /** ARM7 has made its last write to the settings. */
  predicate Written(pc: Pc7) {
    match pc
    case Await(r) => r != LoadError && r != HookError
    case Issue(r) => r != MbkStart && r != LoadError && r != HookError
    case Ack(r) => r != MbkStart && r != LoadError && r != HookError
    case Vblank7 => true
    case Jump7 => true
    case _ => false
  }

  predicate Early(pc: Pc7) {
    pc == WaitBoot || pc == SetMode
  }

  predicate ConfirmedWritten(pc: Pc7) {
    pc == Hook || pc == Final || pc == Await(HookError) || pc == Issue(HookError) || pc == Ack(HookError)
  }

  /** What ARM7 has written so far is final. */
  predicate InvWritten(c: Config, s: State) {
    && (!Early(s.pc7) ==> s.settings.dsimode == c.final.dsimode)
    && (ConfirmedWritten(s.pc7) ==> s.settings.confirmed == c.final.confirmed && s.settings.extended == c.final.extended)
    && (Written(s.pc7) ==> s.settings == c.final)
  }

  /** Everything ARM9 acted on was final, and memory was cleared only after initMBKARM9. */
  predicate InvUsed(c: Config, s: State) {
    && (s.mbk9.Some? ==> s.mbk9.value == c.final)
    && (s.scfg9.Some? ==> s.scfg9.value == c.final)
    && (s.boot9.Some? ==> s.boot9.value == c.final)
    && (Place(c, Scfg) < |s.served| || s.pc9 == Reply(SETSCFG) ==> s.scfg9.Some?)
    && (|s.served| == |Script(c)| || s.pc9 == AckBoot ==> s.boot9.Some?)
    && (s.cleared || s.pc7 == ClearMemory ==> s.mbkReady)
  }

  predicate Inv(c: Config, s: State) {
    Inv7(c, s) && Inv9(c, s) && InvWritten(c, s) && InvUsed(c, s)
  }

  // ---------- the invariant is kept ----------

  /** Acknowledging a request moves ARM7 one place on in the script. */
  lemma NextPlace(c: Config, r: Request)
    requires InScript(c, r)
    ensures Made(c, After(c, r)) == Place(c, r) + 1 <= |Script(c)|
    ensures After(c, r).Await? || After(c, r).Issue? ==> InScript(c, After(c, r).r) && After(c, r) != Issue(MbkStart)
    ensures After(c, r).Await? ==> After(c, r).r != MbkStart && After(c, r).r != BootBin
    ensures r == BootBin <==> Place(c, r) + 1 == |Script(c)|
  {
  }

  /** The places of the actions between requests. */
  lemma ActionPlaces(c: Config)
    ensures 1 < |Script(c)| && Place(c, MbkStart) == 0
    ensures Made(c, Load) == Made(c, if c.loadError then Await(LoadError) else Confirm) == 1
    ensures Made(c, Hook) == Made(c, Confirm) == Made(c, if c.hookError then Await(HookError) else Final) < |Script(c)|
    ensures Made(c, Final) == Made(c, if c.dsiMbk then Await(Mbk) else Await(Scfg)) < |Script(c)|
    ensures Made(c, Jump7) == Made(c, Vblank7) == |Script(c)|
  {
  }

  lemma Initially(c: Config)
    ensures Inv(c, INITIAL)
  {
  }

  /** A request waiting for its reply is the last one issued. */
  lemma LastIssued(c: Config, s: State)
    requires Inv7(c, s) && s.pc7.Ack?
    ensures |s.issued| == Place(c, s.pc7.r) + 1 && s.issued[|s.issued| - 1] == s.pc7.r
  {
    PlaceInScript(c, s.pc7.r);
  }

  /** ARM9's side only looks at the flag, its own position and the two histories. */
  lemma Frame9(c: Config, s: State, t: State)
    requires Inv9(c, s) && t.flag == s.flag && t.pc9 == s.pc9 && t.issued == s.issued
    requires t.served == s.served && t.mbkReady == s.mbkReady
    ensures Inv9(c, t)
  {
    hide Script;
  }

  lemma KeepsIssue7(c: Config, s: State)
    requires Inv7(c, s) && Inv9(c, s) && s.pc7.Issue?
    ensures Inv7(c, Step7(c, s))
  {
    var r := s.pc7.r;
    PlaceInScript(c, r);
    assert s.issued == s.served == Script(c)[..Place(c, r)] && Made(c, Ack(r)) == Place(c, r) + 1;
    assert Step7(c, s) == s.(flag := Code(r), issued := s.issued + [r], pc7 := Ack(r));
    hide *;
    IssuedNext(c, s, r);
  }

  lemma IssuedNext(c: Config, s: State, r: Request)
    requires InScript(c, r) && Place(c, r) < |Script(c)| && Script(c)[Place(c, r)] == r
    requires s.issued == s.served == Script(c)[..Place(c, r)] && Made(c, Ack(r)) == Place(c, r) + 1
    ensures Inv7(c, s.(flag := Code(r), issued := s.issued + [r], pc7 := Ack(r)))
  {
    hide Script, Place, InScript, Made, Code;
    TakeSnoc(Script(c), Place(c, r));
    assert (s.issued + [r])[..|s.issued|] == s.issued;
  }

  lemma TakeSnoc<T>(q: seq<T>, n: nat)
    requires n < |q|
    ensures q[..n + 1] == q[..n] + [q[n]]
  {
  }

  lemma KeepsIssue9(c: Config, s: State)
    requires Inv7(c, s) && Inv9(c, s) && s.pc7.Issue?
    ensures Inv9(c, Step7(c, s))
  {
    hide Script, Place, InScript, Made;
    var t := Step7(c, s);
    assert t.issued[|t.issued| - 1] == s.pc7.r;
  }

  /** A reply ARM7 accepts means nothing is pending. */
  lemma AckMeansServed(c: Config, s: State)
    requires Inv7(c, s) && Inv9(c, s) && s.pc7.Ack? && s.flag == Reply7(s.pc7.r)
    ensures !Pending(s) && s.issued == s.served
    ensures s.pc7.r != BootBin && s.pc7.r != MbkStart ==> InLoop(s.pc9)
    ensures s.pc7.r == MbkStart ==> s.mbkReady
  {
    hide Script, Place, InScript;
    LastIssued(c, s);
    NextPlace(c, s.pc7.r);
    ActionPlaces(c);
  }

  lemma KeepsAck(c: Config, s: State)
    requires Inv7(c, s) && Inv9(c, s) && s.pc7.Ack?
    ensures Inv7(c, Step7(c, s)) && Inv9(c, Step7(c, s))
  {
    if s.flag == Reply7(s.pc7.r) {
      AckMeansServed(c, s);
      LastIssued(c, s);
      NextPlace(c, s.pc7.r);
      hide Script, Place, InScript;
    }
  }

  lemma KeepsAwait(c: Config, s: State)
    requires Inv7(c, s) && Inv9(c, s) && s.pc7.Await?
    ensures Inv7(c, Step7(c, s)) && Inv9(c, Step7(c, s))
  {
    hide Script, Place, InScript;
    PlaceInScript(c, s.pc7.r);
  }

  lemma KeepsEarlyAction(c: Config, s: State)
    requires Inv7(c, s) && Inv9(c, s)
    requires s.pc7 == WaitBoot || s.pc7 == SetMode || s.pc7 == ClearMemory
    ensures Inv7(c, Step7(c, s))
  {
    hide Script, Place;
    ActionPlaces(c);
  }

  lemma KeepsLateAction(c: Config, s: State)
    requires Inv7(c, s)
    requires s.pc7.Load? || s.pc7.Confirm? || s.pc7.Hook? || s.pc7.Final? || s.pc7.Vblank7? || s.pc7.Jump7?
    ensures Inv7(c, Step7(c, s))
  {
    hide Script, Place;
    ActionPlaces(c);
  }

  lemma Keeps7(c: Config, s: State)
    requires Inv7(c, s) && Inv9(c, s)
    ensures Inv7(c, Step7(c, s)) && Inv9(c, Step7(c, s))
  {
    hide Inv7, Inv9;
    if s.pc7.Issue? {
      KeepsIssue7(c, s);
      KeepsIssue9(c, s);
    } else if s.pc7.Ack? {
      KeepsAck(c, s);
    } else if s.pc7.Await? {
      KeepsAwait(c, s);
    } else {
      Frame9(c, s, Step7(c, s));
      if s.pc7 == WaitBoot || s.pc7 == SetMode || s.pc7 == ClearMemory {
        KeepsEarlyAction(c, s);
      } else {
        KeepsLateAction(c, s);
      }
    }
  }

  /** A request being served, or noticed, is the one ARM7 waits for. */
  lemma ServedIsLast(c: Config, s: State)
    requires Inv7(c, s) && Pending(s)
    ensures s.pc7.Ack? && InScript(c, s.pc7.r) && s.served + [s.pc7.r] == s.issued
    ensures |s.issued| == Place(c, s.pc7.r) + 1 && s.issued[|s.issued| - 1] == s.pc7.r
    ensures s.pc7.r == BootBin <==> s.issued == Script(c)
    ensures s.pc7.r == MbkStart <==> |s.issued| == 1
  {
    hide Place, InScript, Script;
    LastIssued(c, s);
    NextPlace(c, s.pc7.r);
    ActionPlaces(c);
    assert s.pc7.r == MbkStart <==> Place(c, s.pc7.r) == 0 by { FirstPlace(c, s.pc7.r); }
    assert s.issued == s.served + [s.pc7.r];
  }

  lemma FirstPlace(c: Config, r: Request)
    ensures r == MbkStart <==> Place(c, r) == 0
  {
  }

  /** After a reply nothing is pending and everything issued is served. */
  lemma KeepsReply7(c: Config, s: State)
    requires Inv7(c, s) && Inv9(c, s) && (s.pc9 == AckMbk || s.pc9.Reply? || s.pc9 == AckBoot)
    ensures Inv7(c, Step9(s)) && !Pending(Step9(s)) && Step9(s).served == s.issued
  {
    hide Script, Place, InScript, Made, Step9, Inv7, Inv9;
    ReplyPending(c, s);
    ServedIsLast(c, s);
    Answered(s);
    NothingPending(c, s, Step9(s));
  }

  lemma NothingPending(c: Config, s: State, t: State)
    requires Inv7(c, s) && s.pc7.Ack? && t.pc7 == s.pc7 && t.served == t.issued == s.issued
    ensures Inv7(c, t) && !Pending(t)
  {
    hide Script, Place, InScript, Made;
  }

  lemma ReplyPending(c: Config, s: State)
    requires Inv9(c, s) && (s.pc9 == AckMbk || s.pc9.Reply? || s.pc9 == AckBoot)
    ensures Pending(s) && s.issued != []
  {
    hide Script, LoopFlag;
  }

  lemma Answered(s: State)
    requires (s.pc9 == AckMbk || s.pc9.Reply? || s.pc9 == AckBoot) && s.issued != []
    ensures var t := Step9(s); t.served == s.served + [s.issued[|s.issued| - 1]] && t.issued == s.issued && t.pc7 == s.pc7
  {
  }

  lemma KeepsReply9(c: Config, s: State)
    requires Inv7(c, s) && Inv9(c, s) && s.pc9.Reply?
    ensures Inv9(c, Step9(s))
  {
    ReplyRoom(c, s);
    KeepsReply7(c, s);
    ReplyState(s);
    hide Step9, Inv7, Script, Made, LoopFlag, Place;
  }

  /** A request served in the loop is not the last of the script. */
  lemma ReplyRoom(c: Config, s: State)
    requires Inv7(c, s) && Inv9(c, s) && s.pc9.Reply?
    ensures |s.issued| < |Script(c)| && s.mbkReady
  {
    ServedIsLast(c, s);
    assert |s.issued| <= |Script(c)| && s.flag != BOOTBIN && s.issued != Script(c);
    hide Script, Made, Place, InScript;
    FullPrefix(Script(c), s.issued);
  }

  lemma ReplyState(s: State)
    requires s.pc9.Reply?
    ensures var t := Step9(s);
            && t.flag == READY && t.mbkReady == s.mbkReady && t.issued == s.issued
            && (t.pc9 == Flush || (t.pc9.Test? && LoopCode(t.pc9.code)))
  {
  }

  lemma KeepsAck9(c: Config, s: State)
    requires Inv7(c, s) && Inv9(c, s) && (s.pc9 == AckMbk || s.pc9 == AckBoot)
    ensures Inv9(c, Step9(s))
  {
    hide Script, Place, InScript, Made, Inv7;
    ServedIsLast(c, s);
    KeepsReply7(c, s);
  }

  lemma FullPrefix<T>(q: seq<T>, p: seq<T>)
    requires p <= q && p != q
    ensures |p| < |q|
  {
  }

  lemma KeepsQuiet7(c: Config, s: State)
    requires Inv7(c, s) && Inv9(c, s) && s.pc9 != AckMbk && !s.pc9.Reply? && s.pc9 != AckBoot
    ensures Inv7(c, Step9(s))
  {
    hide Script, Place, InScript, Made;
  }

  lemma KeepsStart9(c: Config, s: State)
    requires Inv7(c, s) && Inv9(c, s) && (s.pc9 == Start9 || s.pc9 == WaitMbk || s.pc9 == InitMbk)
    ensures Inv9(c, Step9(s))
  {
    assert s.issued == s.served || Pending(s);
    hide Inv7, Script, Made, LoopFlag;
  }

  lemma KeepsClear9(c: Config, s: State)
    requires Inv7(c, s) && Inv9(c, s)
    requires s.pc9 == ClearTcm || s.pc9 == MemClr || s.pc9 == ClearVideo || s.pc9 == Ready9
    ensures Inv9(c, Step9(s))
  {
    hide Inv7, Script, Made, LoopFlag;
    ActionPlaces(c);
  }

  /** Steps of ARM9 before its request loop. */
  lemma KeepsSetup9(c: Config, s: State)
    requires Inv7(c, s) && Inv9(c, s) && s.pc9 != AckMbk && !InLoop(s.pc9)
    requires s.pc9 != Leave && s.pc9 != AckBoot && s.pc9 != Vblank9 && s.pc9 != Jump9
    ensures Inv9(c, Step9(s))
  {
    hide Inv7, Inv9, Step9;
    if s.pc9 == Start9 || s.pc9 == WaitMbk || s.pc9 == InitMbk {
      KeepsStart9(c, s);
    } else {
      KeepsClear9(c, s);
    }
  }

  /** Steps of ARM9 after its request loop. */
  lemma KeepsEnd9(c: Config, s: State)
    requires Inv9(c, s) && (s.pc9 == Leave || s.pc9 == Vblank9 || s.pc9 == Jump9)
    ensures Inv9(c, Step9(s))
  {
    hide Script;
  }

  /** Polls, tests and actions of ARM9 inside its request loop. */
  lemma KeepsLoop9(c: Config, s: State)
    requires Inv7(c, s) && Inv9(c, s) && InLoop(s.pc9) && !s.pc9.Reply?
    ensures Inv9(c, Step9(s))
  {
    hide Script, Place, InScript, Made, Inv7;
  }

  lemma Keeps9(c: Config, s: State)
    requires Inv7(c, s) && Inv9(c, s)
    ensures Inv7(c, Step9(s)) && Inv9(c, Step9(s))
  {
    hide Inv7, Inv9, Step9;
    if s.pc9 == AckMbk || s.pc9.Reply? || s.pc9 == AckBoot {
      KeepsReply7(c, s);
      if s.pc9.Reply? {
        KeepsReply9(c, s);
      } else {
        KeepsAck9(c, s);
      }
    } else {
      KeepsQuiet7(c, s);
      if InLoop(s.pc9) {
        KeepsLoop9(c, s);
      } else if s.pc9 == Leave || s.pc9 == Vblank9 || s.pc9 == Jump9 {
        KeepsEnd9(c, s);
      } else {
        KeepsSetup9(c, s);
      }
    }
  }

  lemma Step9Leaves(s: State)
    ensures Step9(s).pc7 == s.pc7 && Step9(s).settings == s.settings && Step9(s).issued == s.issued
    ensures Step9(s).cleared == s.cleared && (s.mbkReady ==> Step9(s).mbkReady)
  {
  }

  lemma KeepsWrittenAck(c: Config, s: State)
    requires InvWritten(c, s) && (s.pc7.Ack? || s.pc7.Await? || s.pc7.Issue?)
    requires s.pc7.Await? ==> s.pc7.r != MbkStart
    ensures InvWritten(c, Step7(c, s))
  {
  }

  lemma KeepsWrittenSame(c: Config, s: State)
    requires InvWritten(c, s)
    requires !s.pc7.Ack? && !s.pc7.Await? && !s.pc7.Issue? && !s.pc7.SetMode? && !s.pc7.Confirm? && !s.pc7.Final?
    ensures InvWritten(c, Step7(c, s))
  {
    assert Step7(c, s).settings == s.settings;
  }

  lemma KeepsWrittenUpdate(c: Config, s: State)
    requires InvWritten(c, s) && (s.pc7.SetMode? || s.pc7.Confirm? || s.pc7.Final?)
    ensures InvWritten(c, Step7(c, s))
  {
    var t := Step7(c, s);
    var v := t.settings;
    assert v == Settings(v.dsimode, v.confirmed, v.extended, v.boostVram, v.scfgUnlock, v.twlClock, v.isSdk5);
  }

  /** ARM7 touches nothing of ARM9's, and comes to clear memory only after seeing START. */
  ghost predicate Leaves7(s: State, t: State) {
    && t.pc9 == s.pc9 && t.served == s.served && t.mbkReady == s.mbkReady
    && t.mbk9 == s.mbk9 && t.scfg9 == s.scfg9 && t.boot9 == s.boot9
    && (t.cleared ==> s.cleared || s.pc7 == ClearMemory)
    && (t.pc7 == ClearMemory ==> s.pc7 == Ack(MbkStart) && s.flag == START)
  }

  lemma Step7LeavesRequest(c: Config, s: State)
    requires s.pc7.Ack? || s.pc7.Await? || s.pc7.Issue?
    ensures Leaves7(s, Step7(c, s))
  {
  }

  lemma Step7LeavesEarly(c: Config, s: State)
    requires s.pc7.WaitBoot? || s.pc7.SetMode? || s.pc7.ClearMemory? || s.pc7.Load?
    ensures Leaves7(s, Step7(c, s))
  {
  }

  lemma Step7LeavesLate(c: Config, s: State)
    requires s.pc7.Confirm? || s.pc7.Hook? || s.pc7.Final? || s.pc7.Vblank7? || s.pc7.Jump7?
    ensures Leaves7(s, Step7(c, s))
  {
  }

  lemma Step7Leaves(c: Config, s: State)
    ensures Leaves7(s, Step7(c, s))
  {
    hide Leaves7, Step7;
    if s.pc7.Ack? || s.pc7.Await? || s.pc7.Issue? {
      Step7LeavesRequest(c, s);
    } else if s.pc7.WaitBoot? || s.pc7.SetMode? || s.pc7.ClearMemory? || s.pc7.Load? {
      Step7LeavesEarly(c, s);
    } else {
      Step7LeavesLate(c, s);
    }
  }

  lemma KeepsUsed7(c: Config, s: State)
    requires Inv7(c, s) && Inv9(c, s) && InvUsed(c, s)
    ensures InvUsed(c, Step7(c, s))
  {
    hide Inv7, Inv9, Step7;
    Step7Leaves(c, s);
    if s.pc7 == Ack(MbkStart) && s.flag == START {
      AckMeansServed(c, s);
    }
  }

  /** The flag ARM9 sees while serving names the request ARM7 waits for. */
  lemma ServedCode(c: Config, s: State)
    requires Inv7(c, s) && Inv9(c, s) && (Serving(s.pc9) || s.pc9 == Leave)
    ensures s.pc7.Ack? && Code(s.pc7.r) == if s.pc9 == Leave then BOOTBIN else s.pc9.code
  {
    assert Pending(s);
    ServedIsLast(c, s);
    hide Inv7, Script, Made, Place, InScript;
    assert LoopFlag(s) == Code(s.pc7.r);
    hide LoopFlag, Pending;
  }

  /** While ARM9 serves a request that reads the settings, ARM7 has written them all. */
  lemma ServesFinal(c: Config, s: State)
    requires Inv7(c, s) && Inv9(c, s) && InvWritten(c, s)
    requires s.pc9 == Serve(SETMBK) || s.pc9 == Serve(SETSCFG) || s.pc9 == Leave
    ensures s.settings == c.final
  {
    hide Inv7, Inv9;
    ServedCode(c, s);
  }

  lemma KeepsUsedServe(c: Config, s: State)
    requires Inv7(c, s) && Inv9(c, s) && InvWritten(c, s) && InvUsed(c, s)
    requires s.pc9.Serve? || s.pc9 == Leave
    ensures InvUsed(c, Step9(s))
  {
    hide Inv7, Inv9, InvWritten;
    if s.pc9 == Serve(SETMBK) || s.pc9 == Serve(SETSCFG) || s.pc9 == Leave {
      ServesFinal(c, s);
    }
  }

  /** Which acknowledgement answers which request. */
  lemma ReplyMatches(c: Config, s: State)
    requires Inv7(c, s) && Inv9(c, s) && (s.pc9 == AckMbk || s.pc9.Reply? || s.pc9 == AckBoot)
    ensures s.pc7.Ack? && s.served + [s.pc7.r] == s.issued
    ensures s.pc7.r == Scfg ==> s.pc9 == Reply(SETSCFG)
    ensures s.pc7.r == BootBin ==> s.pc9 == AckBoot
  {
    hide Inv7, Made, Script;
    ServedIsLast(c, s);
  }

  lemma ReplyEffect(s: State)
    requires s.issued != [] && (s.pc9 == AckMbk || s.pc9.Reply? || s.pc9 == AckBoot)
    ensures var t := Step9(s);
            && t.served == s.served + [s.issued[|s.issued| - 1]] && t.issued == s.issued
            && t.mbk9 == s.mbk9 && t.scfg9 == s.scfg9 && t.boot9 == s.boot9
            && t.cleared == s.cleared && t.pc7 == s.pc7 && t.mbkReady == s.mbkReady
            && !t.pc9.Reply? && t.pc9 != AckBoot
  {
  }

  /** Requests up to the acknowledged one, and which of them that is. */
  lemma ReplyPlace(c: Config, s: State)
    requires Inv7(c, s) && Pending(s)
    ensures s.pc7.Ack? && |s.served| == Place(c, s.pc7.r)
    ensures Place(c, Scfg) == Place(c, s.pc7.r) ==> s.pc7.r == Scfg
    ensures |s.served| + 1 == |Script(c)| ==> s.pc7.r == BootBin
  {
    hide Script, Place, Inv7;
    ServedIsLast(c, s);
    PlaceInScript(c, s.pc7.r);
    PlaceInScript(c, Scfg);
    NextPlace(c, s.pc7.r);
  }

  lemma KeepsUsedReply(c: Config, s: State)
    requires Inv7(c, s) && Inv9(c, s) && InvUsed(c, s)
    requires s.pc9 == AckMbk || s.pc9.Reply? || s.pc9 == AckBoot
    ensures InvUsed(c, Step9(s))
  {
    hide Inv7, Inv9, Step9, Script, Place;
    ReplyMatches(c, s);
    ReplyPlace(c, s);
    ReplyEffect(s);
  }

  lemma KeepsUsedQuiet(c: Config, s: State)
    requires InvUsed(c, s)
    requires !s.pc9.Serve? && s.pc9 != Leave && s.pc9 != AckMbk && !s.pc9.Reply? && s.pc9 != AckBoot
    ensures InvUsed(c, Step9(s))
  {
    hide Step9, Script, Place;
    QuietEffect(s);
  }

  lemma QuietEffect(s: State)
    requires !s.pc9.Serve? && s.pc9 != Leave && s.pc9 != AckMbk && !s.pc9.Reply? && s.pc9 != AckBoot
    ensures var t := Step9(s);
      && t.mbk9 == s.mbk9 && t.scfg9 == s.scfg9 && t.boot9 == s.boot9 && t.served == s.served
      && t.cleared == s.cleared && t.pc7 == s.pc7 && (s.mbkReady ==> t.mbkReady)
      && !t.pc9.Reply? && t.pc9 != AckBoot
  {
  }

  lemma Keeps(c: Config, s: State, core: Core)
    requires Inv(c, s)
    ensures Inv(c, Step(c, s, core))
  {
    hide Inv7, Inv9, InvUsed, Step7, Step9;
    if core == Arm7 {
      Keeps7(c, s);
      KeepsUsed7(c, s);
      if s.pc7.Ack? || s.pc7.Await? || s.pc7.Issue? {
        AwaitRange(c, s);
        KeepsWrittenAck(c, s);
      } else if s.pc7.SetMode? || s.pc7.Confirm? || s.pc7.Final? {
        KeepsWrittenUpdate(c, s);
      } else {
        KeepsWrittenSame(c, s);
      }
    } else {
      Keeps9(c, s);
      Step9Leaves(s);
      if s.pc9.Serve? || s.pc9 == Leave {
        KeepsUsedServe(c, s);
      } else if s.pc9 == AckMbk || s.pc9.Reply? || s.pc9 == AckBoot {
        KeepsUsedReply(c, s);
      } else {
        KeepsUsedQuiet(c, s);
      }
    }
  }

  lemma AwaitRange(c: Config, s: State)
    requires Inv7(c, s)
    ensures s.pc7.Await? ==> s.pc7.r != MbkStart
  {
  }

  /** The invariant holds in every state of every interleaving. */
  lemma {:induction false} Always(c: Config, sched: seq<Core>)
    ensures Inv(c, Run(c, sched))
  {
    if sched == [] {
      Initially(c);
    } else {
      var n := |sched| - 1;
      Always(c, sched[..n]);
      Keeps(c, Run(c, sched[..n]), sched[n]);
    }
  }

  // ---------- safety ----------

  /** In every interleaving each request of the script is served once, in order, before the next is made. */
  lemma ServedOnce(c: Config, sched: seq<Core>)
    ensures var s := Run(c, sched);
            && s.served <= s.issued <= Script(c)
            && |s.issued| <= |s.served| + 1
  {
    hide Script, Made;
    Always(c, sched);
  }

  /** While a request is pending, ARM7 leaves the flag alone and ARM9 writes it only to answer. */
  lemma PendingFlag(c: Config, s: State)
    requires Inv7(c, s) && Inv9(c, s) && Pending(s)
    ensures Step7(c, s).flag == s.flag
    ensures Step9(s).flag == s.flag || (s.pc9 == AckMbk || s.pc9.Reply? || s.pc9 == AckBoot)
  {
    hide Script, Made;
  }

  /** Nobody writes over a request that has not been acknowledged: the only write then is its answer. */
  lemma NothingOverwritten(c: Config, sched: seq<Core>, core: Core)
    ensures var s := Run(c, sched);
            s.flag != Step(c, s, core).flag && s.issued != s.served ==>
              core == Arm9 && Step9(s).served == s.issued
  {
    Always(c, sched);
    var s := Run(c, sched);
    if s.issued != s.served {
      assert Inv7(c, s) && Inv9(c, s) && Pending(s);
      hide Run, Inv7, Inv9, InvUsed, InvWritten, Script, Made;
      PendingFlag(c, s);
      ServedIsLast(c, s);
      if s.pc9 == AckMbk || s.pc9.Reply? || s.pc9 == AckBoot {
        ReplyEffect(s);
      }
      hide Step7, Step9;
    }
  }

  /** Memory is cleared only after ARM9 has set up its memory banks. */
  lemma ClearedAfterMbk(c: Config, sched: seq<Core>)
    ensures Run(c, sched).cleared ==> Run(c, sched).mbkReady
  {
    Always(c, sched);
  }

  /** ARM7 has come by the clearing of memory. */
  predicate PastClearing(pc: Pc7) {
    match pc
    case WaitBoot => false
    case SetMode => false
    case Await(r) => r != MbkStart
    case Issue(r) => r != MbkStart
    case Ack(r) => r != MbkStart
    case ClearMemory => false
    case _ => true
  }

  /** The two actions that are taken once: SETMBK on ARM9 when it is in the script, the clearing of memory on ARM7. */
  predicate InvActions(c: Config, s: State) {
    && (c.dsiMbk && (Place(c, Mbk) < |s.served| || s.pc9 == Reply(SETMBK)) ==> s.mbk9.Some?)
    && (!c.dsiMbk ==> s.mbk9.None?)
    && (s.cleared <==> PastClearing(s.pc7))
  }

  lemma ActionsBy7(c: Config, s: State)
    requires InvActions(c, s) && (s.pc7.Await? ==> s.pc7.r != MbkStart)
    ensures InvActions(c, Step7(c, s))
  {
    hide Step7, Place, PastClearing;
    Step7Leaves(c, s);
    if s.pc7.Ack? || s.pc7.Await? || s.pc7.Issue? {
      ClearingByRequest(c, s);
    } else {
      ClearingByAction(c, s);
    }
  }

  lemma ClearingByRequest(c: Config, s: State)
    requires (s.pc7.Await? && s.pc7.r != MbkStart) || s.pc7.Ack? || s.pc7.Issue?
    requires s.cleared <==> PastClearing(s.pc7)
    ensures Step7(c, s).cleared <==> PastClearing(Step7(c, s).pc7)
  {
  }

  lemma ClearingByAction(c: Config, s: State)
    requires !s.pc7.Ack? && !s.pc7.Await? && !s.pc7.Issue? && (s.cleared <==> PastClearing(s.pc7))
    ensures Step7(c, s).cleared <==> PastClearing(Step7(c, s).pc7)
  {
  }

  lemma ServeEffect(s: State)
    requires s.pc9.Serve? || s.pc9 == Leave
    ensures var t := Step9(s);
      && t.served == s.served && t.pc7 == s.pc7 && t.cleared == s.cleared
      && (s.pc9 == Serve(SETMBK) ==> t.mbk9 == Some(s.settings))
      && (s.pc9 != Serve(SETMBK) ==> t.mbk9 == s.mbk9 && t.pc9 != Reply(SETMBK))
  {
  }

  lemma OnlyMbk(c: Config, s: State)
    requires Inv7(c, s) && Inv9(c, s) && s.pc9 == Serve(SETMBK)
    ensures c.dsiMbk
  {
    hide Inv9, Made, Script;
    ServedCode(c, s);
  }

  lemma MbkPlace(c: Config, s: State)
    requires Inv7(c, s) && Inv9(c, s) && (s.pc9 == AckMbk || s.pc9.Reply? || s.pc9 == AckBoot)
    requires c.dsiMbk && Place(c, Mbk) == |s.served|
    ensures s.pc9 == Reply(SETMBK)
  {
    hide Made, Script, Place;
    ServedIsLast(c, s);
    PlaceInScript(c, s.pc7.r);
    PlaceInScript(c, Mbk);
    ReplyPlace(c, s);
    hide Inv7;
  }

  lemma ActionsBy9(c: Config, s: State)
    requires Inv7(c, s) && Inv9(c, s) && InvActions(c, s)
    ensures InvActions(c, Step9(s))
  {
    hide Inv7, Inv9, Step9, Place, PastClearing;
    if s.pc9.Serve? || s.pc9 == Leave {
      ServeEffect(s);
      if s.pc9 == Serve(SETMBK) {
        OnlyMbk(c, s);
      }
    } else if s.pc9 == AckMbk || s.pc9.Reply? || s.pc9 == AckBoot {
      ReplyPending(c, s);
      ReplyEffect(s);
      if c.dsiMbk && Place(c, Mbk) == |s.served| {
        MbkPlace(c, s);
      }
    } else {
      QuietEffect(s);
    }
  }

  lemma {:induction false} AlwaysActions(c: Config, sched: seq<Core>)
    ensures InvActions(c, Run(c, sched))
  {
    hide Inv7, Inv9, Step7, Step9, Place;
    if sched != [] {
      var n := |sched| - 1;
      var s := Run(c, sched[..n]);
      Always(c, sched[..n]);
      AlwaysActions(c, sched[..n]);
      AwaitRange(c, s);
      if sched[n] == Arm7 {
        ActionsBy7(c, s);
      } else {
        ActionsBy9(c, s);
      }
    }
  }

  /**
   * What ARM9 acted on were the settings ARM7 wrote last, and a request to act that has been acknowledged has been
   * acted on.
   */
  lemma FinalSettings(c: Config, sched: seq<Core>)
    ensures var s := Run(c, sched);
            && (s.mbk9.Some? ==> s.mbk9.value == c.final)
            && (s.scfg9.Some? ==> s.scfg9.value == c.final)
            && (s.boot9.Some? ==> s.boot9.value == c.final)
            && (c.dsiMbk && Place(c, Mbk) < |s.served| ==> s.mbk9 == Some(c.final))
            && (Place(c, Scfg) < |s.served| ==> s.scfg9 == Some(c.final))
            && (|s.served| == |Script(c)| ==> s.boot9 == Some(c.final))
            && (!c.dsiMbk ==> s.mbk9 == None)
  {
    hide Place, Script;
    Always(c, sched);
    AlwaysActions(c, sched);
  }

  /** Memory is cleared once ARM7 has gone on to load the game, and not before. */
  lemma ClearedExactlyWhen(c: Config, sched: seq<Core>)
    ensures var s := Run(c, sched); s.cleared <==> PastClearing(s.pc7)
  {
    hide Place;
    AlwaysActions(c, sched);
  }

  /**
   * A core that jumps does so after the whole script, SETSCFG and BOOTBIN included, was acknowledged; by then every
   * action was taken on the final settings, and memory is cleared.
   */
  lemma JumpsLast(c: Config, sched: seq<Core>)
    ensures var s := Run(c, sched);
            s.pc7 == Jump7 || s.pc9 == Jump9 ==>
              && s.served == Script(c) && Scfg in s.served && BootBin in s.served
              && s.scfg9 == Some(c.final) && s.boot9 == Some(c.final)
              && s.mbk9 == (if c.dsiMbk then Some(c.final) else None)
              && s.mbkReady && s.cleared
  {
    hide Script, Place;
    Always(c, sched);
    var s := Run(c, sched);
    FinalSettings(c, sched);
    ClearedExactlyWhen(c, sched);
    PlaceInScript(c, Scfg);
    PlaceInScript(c, BootBin);
    assert Script(c)[..|Script(c)|] == Script(c);
    if c.dsiMbk {
      PlaceInScript(c, Mbk);
    }
    if s.pc9 == Jump9 {
      JumpedPast(c, s);
    }
  }

  lemma JumpedPast(c: Config, s: State)
    requires Inv7(c, s) && Inv9(c, s) && s.pc9 == Jump9
    ensures PastClearing(s.pc7)
  {
    AllServed(c, s);
    ActionPlaces(c);
    hide Script, Place, InScript;
  }

  // ---------- progress ----------

  /** Both cores have jumped into the game. */
  predicate Done(s: State) {
    s.pc7 == Jump7 && s.pc9 == Jump9
  }

  /** ARM9's second START came and went while ARM7 was not looking. */
  predicate Missed(s: State) {
    s.pc7 == Ack(MbkStart) && !Pending(s) && s.flag != START
  }

  function Left7(c: Config, pc: Pc7): int {
    10 * (|Script(c)| - Made(c, pc)) + Local7(pc)
  }

  function Local7(pc: Pc7): nat {
    match pc
    case WaitBoot => 9
    case SetMode => 8
    case Ack(_) => 9
    case ClearMemory => 8
    case Load => 7
    case Confirm => 6
    case Hook => 5
    case Final => 4
    case Await(_) => 3
    case Issue(_) => 2
    case Vblank7 => 1
    case Jump7 => 0
  }

  /** Position in ARM9's request loop. */
  function Index(pc: Pc9): nat {
    match pc
    case Head => 0
    case Test(k) => if k == DISPERR then 1 else if k == SETMBK then 2 else if k == SETSCFG then 3 else 4
    case _ => 5
  }

  function Target(flag: int): nat {
    if flag == BOOTBIN then 0 else if flag == DISPERR then 1 else if flag == SETMBK then 2
    else if flag == SETSCFG then 3 else 4
  }

  /** How far ARM9 is from its next lasting step; constant while it idles in the loop. */
  function Left9(s: State): nat {
    match s.pc9
    case Start9 => 31
    case WaitMbk => 30
    case InitMbk => 29
    case AckMbk => 28
    case ClearTcm => 27
    case MemClr => 26
    case ClearVideo => 25
    case Ready9 => 24
    case Serve(_) => 17
    case Reply(_) => 16
    case Leave => 13
    case AckBoot => 12
    case Vblank9 => 11
    case Jump9 => 10
    case pc => if Pending(s) then 18 + (Target(s.flag) + 6 - Index(pc)) % 6 else 15
  }

  function Rank(c: Config, s: State): int {
    40 * Left7(c, s.pc7) + Left9(s)
  }

  /** A step of this core would get the boot further. */
  predicate Enabled(c: Config, s: State, core: Core) {
    Rank(c, Step(c, s, core)) < Rank(c, s)
  }

  lemma Left7DropsRequest(c: Config, s: State)
    requires Inv7(c, s) && (s.pc7.Ack? || s.pc7.Await? || s.pc7.Issue?)
    ensures Step7(c, s) == s || Left7(c, Step7(c, s).pc7) < Left7(c, s.pc7)
  {
    if s.pc7.Ack? {
      NextPlace(c, s.pc7.r);
    }
    assert s.pc7.Ack? || s.pc7.Await? ==> InScript(c, s.pc7.r);
    hide Script, Place, InScript, Pending, Inv7;
  }

  lemma Left7DropsEarly(c: Config, s: State)
    requires s.pc7.WaitBoot? || s.pc7.SetMode? || s.pc7.ClearMemory? || s.pc7.Load?
    ensures Step7(c, s) == s || Left7(c, Step7(c, s).pc7) < Left7(c, s.pc7)
  {
    hide Script, Place;
    ActionPlaces(c);
  }

  lemma Left7DropsLate(c: Config, s: State)
    requires s.pc7.Confirm? || s.pc7.Hook? || s.pc7.Final? || s.pc7.Vblank7? || s.pc7.Jump7?
    ensures Step7(c, s) == s || Left7(c, Step7(c, s).pc7) < Left7(c, s.pc7)
  {
    hide Script, Place;
    ActionPlaces(c);
  }

  lemma Left7Drops(c: Config, s: State)
    requires Inv7(c, s)
    ensures Step7(c, s) == s || Left7(c, Step7(c, s).pc7) < Left7(c, s.pc7)
  {
    hide Left7, Step7, Inv7;
    if s.pc7.Ack? || s.pc7.Await? || s.pc7.Issue? {
      Left7DropsRequest(c, s);
    } else if s.pc7.WaitBoot? || s.pc7.SetMode? || s.pc7.ClearMemory? || s.pc7.Load? {
      Left7DropsEarly(c, s);
    } else {
      Left7DropsLate(c, s);
    }
  }

  lemma Left9Range(s: State)
    ensures 10 <= Left9(s) <= 31
  {
  }

  /** A step of ARM7 either is a failed poll, which changes nothing, or gets the boot further. */
  lemma Progress7(c: Config, s: State)
    requires Inv7(c, s)
    ensures Step7(c, s) == s || Rank(c, Step7(c, s)) < Rank(c, s)
  {
    hide Left7, Left9, Step7, Inv7;
    Left7Drops(c, s);
    Left9Range(s);
    Left9Range(Step7(c, s));
  }

  /** The loop distance falls by one per test while a request is pending. */
  lemma LoopProgress(s: State)
    requires InLoop(s.pc9) && (s.pc9.Test? ==> LoopCode(s.pc9.code))
    requires Pending(s) ==> LoopCode(s.flag) || s.flag == BOOTBIN
    requires Serving(s.pc9) ==> Pending(s)
    ensures Serving(s.pc9) || Pending(s) ==> Left9(Step9(s)) < Left9(s)
    ensures !Serving(s.pc9) && !Pending(s) && s.flag == READY ==>
              Left9(Step9(s)) == Left9(s) == 15 && Step9(s) == s.(pc9 := Step9(s).pc9)
  {
  }

  lemma PendingCode(c: Config, s: State)
    requires Inv7(c, s) && Inv9(c, s) && InLoop(s.pc9) && Pending(s)
    ensures LoopCode(s.flag) || s.flag == BOOTBIN
  {
    hide Script, Made, Inv7;
    ServedIsLast(c, s);
    ActionPlaces(c);
    assert |s.served| >= 1;
  }

  /** A step of ARM9 gets the boot further, or is a failed poll, or idles round the request loop. */
  lemma Progress9(c: Config, s: State)
    requires Inv7(c, s) && Inv9(c, s)
    ensures Rank(c, Step9(s)) <= Rank(c, s)
    ensures Rank(c, Step9(s)) == Rank(c, s) ==> Step9(s) == s.(pc9 := Step9(s).pc9)
    ensures Rank(c, Step9(s)) == Rank(c, s) ==>
              (s.pc9 == WaitMbk && s.flag != SETMBK_START) || (InLoop(s.pc9) && !Pending(s)) || s.pc9 == Jump9
  {
    Step9Leaves(s);
    if InLoop(s.pc9) {
      if Pending(s) {
        PendingCode(c, s);
      }
      assert s.pc9.Test? ==> LoopCode(s.pc9.code);
      assert Serving(s.pc9) ==> Pending(s);
      assert !Pending(s) ==> s.flag == READY;
      LoopProgress(s);
      hide Inv7, Inv9, Step9, Left9, Left7;
    } else {
      Progress9Outside(s);
      hide Inv7, Inv9, Step9, Left9, Left7;
    }
  }

  lemma Progress9Outside(s: State)
    requires !InLoop(s.pc9)
    ensures Left9(Step9(s)) <= Left9(s)
    ensures Left9(Step9(s)) == Left9(s) ==> Step9(s) == s && (s.pc9 == Jump9 || (s.pc9 == WaitMbk && s.flag != SETMBK_START))
  {
  }

  /** Where ARM9 can only wait, ARM7 has something to do, unless the boot is over or START was missed. */
  lemma SomeoneMoves(c: Config, s: State)
    requires Inv7(c, s) && Inv9(c, s) && !Done(s) && !Missed(s)
    requires (s.pc9 == WaitMbk && s.flag != SETMBK_START) || (InLoop(s.pc9) && !Pending(s)) || s.pc9 == Jump9
    ensures Step7(c, s) != s
  {
    if s.pc9 == Jump9 {
      AllServed(c, s);
    }
    if s.pc7.Ack? {
      AckMoves(c, s);
    } else {
      OthersMove(c, s);
    }
    hide Script, Place, InScript, Step7, Inv7, Inv9;
  }

  lemma AckMoves(c: Config, s: State)
    requires Inv7(c, s) && Inv9(c, s) && !Done(s) && !Missed(s) && s.pc7.Ack?
    requires (s.pc9 == WaitMbk && s.flag != SETMBK_START) || (InLoop(s.pc9) && !Pending(s)) || s.pc9 == Jump9
    requires s.pc9 == Jump9 ==> s.served == s.issued == Script(c)
    ensures Step7(c, s) != s
  {
    ActionPlaces(c);
    LastIssued(c, s);
    NextPlace(c, s.pc7.r);
    hide Script, Place, InScript;
  }

  lemma OthersMove(c: Config, s: State)
    requires Inv7(c, s) && Inv9(c, s) && !Done(s) && !Missed(s) && !s.pc7.Ack?
    requires (s.pc9 == WaitMbk && s.flag != SETMBK_START) || (InLoop(s.pc9) && !Pending(s)) || s.pc9 == Jump9
    requires s.pc9 == Jump9 ==> s.served == s.issued == Script(c)
    ensures Step7(c, s) != s
  {
    hide Script, InScript, Place;
    ActionPlaces(c);
    if s.pc7.Await? || s.pc7.Issue? {
      FirstPlace(c, s.pc7.r);
    }
  }

  lemma AllServed(c: Config, s: State)
    requires Inv7(c, s) && Inv9(c, s) && s.pc9 == Jump9
    ensures s.served == s.issued == Script(c)
  {
  }

  // ---------- infinite runs ----------

  /** The state after n steps of an infinite schedule. */
  ghost function At(c: Config, sched: nat -> Core, n: nat): State {
    if n == 0 then INITIAL else Step(c, At(c, sched, n - 1), sched(n - 1))
  }

  /** Both cores are scheduled again and again. */
  ghost predicate Fair(sched: nat -> Core) {
    forall n: nat, core: Core :: Later(sched, core, n)
  }

  ghost predicate Later(sched: nat -> Core, core: Core, n: nat) {
    exists m: nat :: n <= m && sched(m) == core
  }

  lemma {:induction false} AtInv(c: Config, sched: nat -> Core, n: nat)
    ensures Inv(c, At(c, sched, n))
  {
    if n == 0 {
      Initially(c);
    } else {
      AtInv(c, sched, n - 1);
      Keeps(c, At(c, sched, n - 1), sched(n - 1));
    }
  }

  /** A core that can move keeps being able to until something gets the boot further. */
  lemma StaysEnabled(c: Config, s: State, core: Core, other: Core)
    requires Inv(c, s) && Enabled(c, s, core) && core != other
    ensures Rank(c, Step(c, s, other)) <= Rank(c, s)
    ensures Rank(c, Step(c, s, other)) == Rank(c, s) ==> Enabled(c, Step(c, s, other), core)
  {
    hide Inv7, Inv9, InvUsed, InvWritten, Step7, Step9, Left7, Left9;
    var t := Step(c, s, other);
    Keeps(c, s, other);
    if other == Arm7 {
      Progress7(c, s);
    } else {
      Progress9(c, s);
      if Rank(c, t) == Rank(c, s) {
        Progress7(c, t);
        SameMove7(c, s, t);
      }
    }
  }

  lemma SameMove7(c: Config, s: State, t: State)
    requires t == s.(pc9 := t.pc9) && Step7(c, s) != s
    ensures Step7(c, t) != t
  {
    if s.pc7.Ack? || s.pc7.Await? || s.pc7.Issue? {
      hide After;
      assert Step7(c, s).pc7 != s.pc7;
      assert Step7(c, t).pc7 == Step7(c, s).pc7;
    } else if s.pc7 != WaitBoot && s.pc7 != Jump7 {
      assert Step7(c, t).pc7 != t.pc7;
    }
  }

  lemma AtNext(c: Config, sched: nat -> Core, n: nat)
    ensures At(c, sched, n + 1) == Step(c, At(c, sched, n), sched(n))
  {
  }

  /** With core scheduled at step m, the boot has got further by step m + 1. */
  lemma {:induction false} NextDrop(c: Config, sched: nat -> Core, n: nat, m: nat, core: Core) returns (k: nat)
    requires n <= m && sched(m) == core && Enabled(c, At(c, sched, n), core)
    ensures n < k <= m + 1 && Rank(c, At(c, sched, k)) < Rank(c, At(c, sched, n))
    decreases m - n
  {
    hide *;
    AtNext(c, sched, n);
    AtInv(c, sched, n);
    var s := At(c, sched, n);
    if sched(n) == core {
      k := n + 1;
      EnabledDrops(c, s, core);
    } else {
      StaysEnabled(c, s, core, sched(n));
      if Rank(c, At(c, sched, n + 1)) < Rank(c, s) {
        k := n + 1;
      } else {
        k := NextDrop(c, sched, n + 1, m, core);
      }
    }
  }

  lemma EnabledDrops(c: Config, s: State, core: Core)
    requires Enabled(c, s, core)
    ensures Rank(c, Step(c, s, core)) < Rank(c, s)
  {
  }

  /** Unless the boot is over or START was missed, one of the cores can get it further. */
  lemma SomeoneEnabled(c: Config, s: State) returns (core: Core)
    requires Inv(c, s) && !Done(s) && !Missed(s)
    ensures Enabled(c, s, core)
  {
    hide Inv7, Inv9, InvUsed, InvWritten, Step7, Step9, Left7, Left9;
    Progress9(c, s);
    Progress7(c, s);
    if Rank(c, Step9(s)) < Rank(c, s) {
      core := Arm9;
    } else {
      core := Arm7;
      SomeoneMoves(c, s);
    }
  }

  lemma RankNonnegative(c: Config, s: State)
    requires Inv(c, s)
    ensures 0 <= Rank(c, s)
  {
    hide Left9, Script, Made, Pending, InvUsed, InvWritten, Inv9;
    Left9Range(s);
  }

  lemma NextTurn(sched: nat -> Core, core: Core, n: nat) returns (m: nat)
    requires Fair(sched)
    ensures n <= m && sched(m) == core
  {
    assert Later(sched, core, n);
    m :| n <= m && sched(m) == core;
  }

  /** From any point on, a fair run that never misses START reaches both jumps. */
  lemma {:induction false} Reaches(c: Config, sched: nat -> Core, n: nat) returns (k: nat)
    requires Fair(sched) && forall i: nat :: !Missed(At(c, sched, i))
    ensures Done(At(c, sched, k))
    decreases Rank(c, At(c, sched, n)) + 1
  {
    hide *;
    var s := At(c, sched, n);
    AtInv(c, sched, n);
    RankNonnegative(c, s);
    if Done(s) {
      k := n;
    } else {
      var core := SomeoneEnabled(c, s);
      var m := NextTurn(sched, core, n);
      var l := NextDrop(c, sched, n, m, core);
      AtInv(c, sched, l);
      RankNonnegative(c, At(c, sched, l));
      k := Reaches(c, sched, l);
    }
  }

  /** A missed START is never made good. */
  lemma MissedForever(c: Config, s: State, core: Core)
    requires Inv(c, s) && Missed(s)
    ensures Missed(Step(c, s, core))
  {
    if core == Arm9 {
      LastIssued(c, s);
      NextPlace(c, s.pc7.r);
      hide Script, Made, Place, InvUsed, InvWritten;
    }
  }

  lemma {:induction false} MissedStays(c: Config, sched: nat -> Core, n: nat, m: nat)
    requires n <= m && Missed(At(c, sched, n))
    ensures Missed(At(c, sched, m))
    decreases m
  {
    hide *;
    if n < m {
      MissedStays(c, sched, n, m - 1);
      AtInv(c, sched, m - 1);
      MissedForever(c, At(c, sched, m - 1), sched(m - 1));
      AtNext(c, sched, m - 1);
    }
  }

  lemma DoneForever(c: Config, s: State, core: Core)
    requires Done(s)
    ensures Step(c, s, core) == s && !Missed(s)
  {
  }

  lemma {:induction false} DoneStays(c: Config, sched: nat -> Core, n: nat, m: nat)
    requires n <= m && Done(At(c, sched, n))
    ensures Done(At(c, sched, m))
    decreases m
  {
    hide *;
    if n < m {
      DoneStays(c, sched, n, m - 1);
      DoneForever(c, At(c, sched, m - 1), sched(m - 1));
      AtNext(c, sched, m - 1);
    }
  }

  /** A run that reaches both jumps has never missed START. */
  lemma DoneNeverMissed(c: Config, sched: nat -> Core, k: nat, i: nat)
    requires Done(At(c, sched, k))
    ensures !Missed(At(c, sched, i))
  {
    hide *;
    if Missed(At(c, sched, i)) {
      var m := if i < k then k else i;
      MissedStays(c, sched, i, m);
      DoneStays(c, sched, k, m);
      DoneForever(c, At(c, sched, m), Arm7);
    }
  }

  ghost predicate Boots(c: Config, sched: nat -> Core) {
    exists k: nat :: Done(At(c, sched, k))
  }

  ghost predicate NeverMisses(c: Config, sched: nat -> Core) {
    forall i: nat :: !Missed(At(c, sched, i))
  }

  /** A fair run boots exactly when it never misses START. */
  lemma BootsUnlessMissed(c: Config, sched: nat -> Core)
    requires Fair(sched)
    ensures Boots(c, sched) <==> NeverMisses(c, sched)
  {
    if NeverMisses(c, sched) {
      var k := Reaches(c, sched, 0);
    }
    if Boots(c, sched) {
      var k: nat :| Done(At(c, sched, k));
      forall i: nat
        ensures !Missed(At(c, sched, i))
      {
        DoneNeverMissed(c, sched, k, i);
      }
    }
  }

  lemma NotMissedByArm7(c: Config, s: State)
    requires s.issued == s.served || s.pc7.Ack?
    requires !Missed(s)
    ensures !Missed(Step7(c, s))
  {
    if s.pc7.Ack? {
      hide Pending;
    }
  }

  lemma MissedByArm9(c: Config, s: State)
    requires Inv9(c, s) && !Missed(s) && Missed(Step9(s))
    requires s.issued != [] && s.issued[|s.issued| - 1] == MbkStart && (s.issued == s.served || Pending(s))
    ensures s.pc9 == MemClr
  {
    hide Script;
  }

  /** START is missed only by ARM9 leaving it while ARM7 is still waiting for it. */
  lemma HowStartIsMissed(c: Config, s: State, core: Core)
    requires Inv(c, s) && !Missed(s) && Missed(Step(c, s, core))
    ensures core == Arm9 && s.pc9 == MemClr && s.pc7 == Ack(MbkStart)
  {
    if core == Arm7 {
      NotMissedByArm7(c, s);
    } else {
      Step9Leaves(s);
      LastIssued(c, s);
      MissedByArm9(c, s);
    }
    hide Script, Made, Place, InvUsed, InvWritten, Inv7, Inv9, Step7, Step9;
  }

  /** One poll by ARM7 between the second START and MEMCLR is enough. */
  lemma OnePollIsEnough(c: Config, s: State)
    requires Inv(c, s) && s.pc7 == Ack(MbkStart) && (s.pc9 == ClearTcm || s.pc9 == MemClr)
    ensures Step7(c, s).pc7 == ClearMemory
  {
  }
}
