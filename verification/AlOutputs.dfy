/**
 When outputs are applied, and when their absence stops the slave: every call of DIG_process by its guards,
 the count of applied outputs over every run, and the software watchdog by the history of its calls.
 */
module AlOutputs {
  import opened Base
  import opened AlSpec
  import opened AlSafety
  import opened AlHistory
  import opened AlTable
  import opened AlStates
  import SC = SyncCounter
  import WD = Watchdog

  // ---------------------------------------------------------------- one call

  /** The software watchdog is asked: there is no hardware watchdog, or it leaves the outputs to it. */
  predicate SwAsked(s: St, env: DigEnv, cfg: Config) {
    env.watchdog && !(cfg.useHwWatchdog && WD.Check(s.wd, WdCall(s, env)).inCharge)
  }

  /** The outputs expire in this call: the hardware watchdog trips, or the software watchdog is at its
      last count. */
  predicate Expires(s: St, env: DigEnv, cfg: Config) {
    if SwAsked(s, env, cfg) then s.output && s.sm2Len > 0 && s.swWatchdog <= 1
    else env.watchdog && WD.Check(s.wd, WdCall(s, env)).trip
  }

  /** New outputs have arrived, the call handles them, and they are still active. */
  predicate Delivers(s: St, env: DigEnv, cfg: Config) {
    env.rxPdo && env.smEvent && s.output && !Expires(s, env, cfg)
  }

  /** What becomes of the software watchdog: it starts anew with new or inactive outputs, else counts down. */
  function SwAfter(s: St, env: DigEnv, cfg: Config): int {
    if Delivers(s, env, cfg) || (SwAsked(s, env, cfg) && !s.output) then s.watchdogCount
    else if SwAsked(s, env, cfg) && s.swWatchdog > 0 then s.swWatchdog - 1
    else s.swWatchdog
  }

  /** A watchdog that expires goes to SAFEOP with AL status code 0x001B and sets the application safe. */
  predicate Expired(s: St, t: St) {
    t.status == 0x14 && t.error == 0x001B && !t.output && t.safeCalls == s.safeCalls + 1
  }

  lemma HwExpires(s: St, env: DigEnv)
    requires OutputsMatch(s)
    ensures var (t, inCharge) := HwWatchdog(s, env);
            var r := WD.Check(s.wd, WdCall(s, env));
            && inCharge == r.inCharge && (r.trip ==> inCharge && s.output && Expired(s, t))
            && (!r.trip ==> t == s.(wd := t.wd)) && t.applied == s.applied
            && t.swWatchdog == s.swWatchdog && t.watchdogCount == s.watchdogCount
  {
  }

  lemma SwExpires(s: St)
    requires OutputsMatch(s)
    ensures var t, expires := SwWatchdog(s), s.output && s.sm2Len > 0 && s.swWatchdog <= 1;
            && (if expires then Expired(s, t) else t == s.(swWatchdog := t.swWatchdog))
            && t.applied == s.applied && t.watchdogCount == s.watchdogCount
            && t.swWatchdog == (if !s.output then s.watchdogCount
                                else if s.swWatchdog > 0 then s.swWatchdog - 1 else s.swWatchdog)
  {
  }

  lemma WatchdogsExpire(s: St, env: DigEnv, cfg: Config)
    requires OutputsMatch(s)
    ensures var t, expires := Watchdogs(s, env, cfg), Expires(s, env, cfg);
            && (if expires then s.output && Expired(s, t) else t == s.(wd := t.wd, swWatchdog := t.swWatchdog))
            && t.applied == s.applied && t.watchdogCount == s.watchdogCount
            && t.swWatchdog == (if !SwAsked(s, env, cfg) then s.swWatchdog
                                else if !s.output then s.watchdogCount
                                else if s.swWatchdog > 0 then s.swWatchdog - 1 else s.swWatchdog)
  {
    HwExpires(s, env);
    if env.watchdog && !cfg.useHwWatchdog {
      SwExpires(s);
    } else if SwAsked(s, env, cfg) {
      SwExpires(HwWatchdog(s, env).0);
    }
  }

  /**
   One call of DIG_process: outputs are applied, once and in OP, exactly if new ones have arrived, the call
   handles them and the watchdogs leave outputs active. An expired watchdog takes the slave to SAFEOP with
   an error, and otherwise its state stays.
   */
  lemma DigLaw(s: St, env: DigEnv, cfg: Config)
    requires OutputsMatch(s)
    ensures var t := Dig(s, env, cfg);
            && t.applied == s.applied.(inOp := s.applied.inOp + (if Delivers(s, env, cfg) then 1 else 0))
            && (if Expires(s, env, cfg) then s.output && Expired(s, t)
                else t == s.(wd := t.wd, swWatchdog := t.swWatchdog, applied := t.applied))
            && t.swWatchdog == SwAfter(s, env, cfg) && t.watchdogCount == s.watchdogCount
  {
    WatchdogsExpire(s, env, cfg);
  }

  // ---------------------------------------------------------------- over every run

  /** The call of DIG_process that an event makes, and the state it finds. */
  datatype DigCall = NoCall | DigCall(s: St, env: DigEnv)

  function CallOf(s: St, e: Ev): DigCall {
    match e
    case EvDig(env) => DigCall(s, env)
    case EvCycle(env) =>
      if CutShort(s, env) || !env.smEvent then NoCall
      else DigCall(AtData(s, env), env.dig.(watchdog := true, rxPdo := true))
    case _ => NoCall
  }

  function Delivered(c: DigCall, cfg: Config): nat {
    if c.DigCall? && Delivers(c.s, c.env, cfg) then 1 else 0
  }

  /** How many calls of a run found new outputs, handled them and left them active. */
  function Deliveries(s: St, es: seq<Ev>, cfg: Config): nat {
    if es == [] then 0
    else
      var rest := es[..|es| - 1];
      Deliveries(s, rest, cfg) + Delivered(CallOf(Run(s, rest, cfg), es[|es| - 1]), cfg)
  }

  /** How a call stands to the software watchdog: it brings outputs, finds them inactive, or finds none. */
  datatype Tick = Fed | Idle | Unfed

  function Ticks(c: DigCall, cfg: Config): seq<Tick> {
    if c.NoCall? then []
    else if Delivers(c.s, c.env, cfg) then [Fed]
    else if !SwAsked(c.s, c.env, cfg) then []
    else if c.s.output then [Unfed]
    else [Idle]
  }

  /** The calls of a run that concern the software watchdog, in order. */
  function RunTicks(s: St, es: seq<Ev>, cfg: Config): seq<Tick> {
    if es == [] then []
    else
      var rest := es[..|es| - 1];
      RunTicks(s, rest, cfg) + Ticks(CallOf(Run(s, rest, cfg), es[|es| - 1]), cfg)
  }

  /** The number of calls without new outputs at the end. */
  function UnfedAtEnd(h: seq<Tick>): (n: nat)
    ensures n <= |h| && (forall i | |h| - n <= i < |h| :: h[i] == Unfed) && (n < |h| ==> h[|h| - n - 1] != Unfed)
  {
    if h == [] || h[|h| - 1] != Unfed then 0 else UnfedAtEnd(h[..|h| - 1]) + 1
  }

  /** The counter after so many calls without new outputs. */
  function Left(count: int, unfed: nat): int {
    if count <= 0 then count else Max(0, count - unfed)
  }

  /** The software watchdog has counted this history. */
  predicate SwCounted(s: St, h: seq<Tick>) {
    s.swWatchdog == Left(s.watchdogCount, UnfedAtEnd(h))
  }

  /** What one event does to the outputs applied and to the software watchdog. */
  predicate CallSeen(s: St, t: St, c: DigCall, cfg: Config) {
    && t.applied == s.applied.(inOp := s.applied.inOp + Delivered(c, cfg)) && t.watchdogCount == s.watchdogCount
    && t.swWatchdog == (if c.NoCall? then s.swWatchdog else SwAfter(c.s, c.env, cfg))
  }

  /** A step that leaves outputs and software watchdog alone. */
  predicate NoOutputs(s: St, t: St) {
    t.applied == s.applied && t.watchdogCount == s.watchdogCount && t.swWatchdog == s.swWatchdog
  }

  lemma ControlNoOutputs(s: St, env: ControlEnv, cfg: Config)
    ensures NoOutputs(s, Control(s, env, cfg))
  {
    if Acts(s, env) {
      ControlEffects(s, env, cfg);
    }
  }

  lemma SmChangeNoOutputs(s: St, env: SmEnv)
    ensures NoOutputs(s, SmChange(s, env))
  {
    var c := NoteSm(if env.mbxOk then s else s.(smBadInputs := false), env.sm23);
    assert NoOutputs(s, c);
    LosesKeepSeen(c);
  }

  lemma PendingNoOutputs(s: St, sync0: bool, smEvent: bool, elapsed: nat)
    ensures NoOutputs(s, Pending(s, sync0, smEvent, elapsed))
  {
  }

  lemma EdgeNoOutputs(s: St, timeoutNs: nat)
    ensures NoOutputs(s, SyncEdge(s, timeoutNs))
  {
    Sync0NoOutputs(s, s.smEventSeen);
    PendingNoOutputs(Sync0(s, s.smEventSeen), true, s.smEventSeen, timeoutNs / 2);
  }

  lemma Sync0NoOutputs(s: St, seen: bool)
    ensures NoOutputs(s, Sync0(s, seen))
  {
  }

  lemma EventsNoOutputs(s: St, env: CycleEnv, cfg: Config)
    ensures NoOutputs(s, StateEvents(s, env, cfg))
  {
    ControlNoOutputs(s, env.control, cfg);
    SmChangeNoOutputs(if env.controlEvent then Control(s, env.control, cfg) else s, env.sm);
  }

  /** The event of a cycle is seen before process data: it does not matter to them. */
  lemma DataSeen(s: St, env: CycleEnv, cfg: Config)
    requires OutputsMatch(s)
    ensures var dig := env.dig.(watchdog := true, rxPdo := true);
            CallSeen(s, Data(s, env, cfg), DigCall(s, dig), cfg)
  {
    var dig := env.dig.(watchdog := true, rxPdo := true);
    var s' := if s.dcsync == 0 then s else s.(smEventSeen := true);
    assert WdCall(s', dig) == WdCall(s, dig);
    DigLaw(s', dig, cfg);
  }

  lemma CycleSeen(s: St, env: CycleEnv, cfg: Config)
    requires OutputsMatch(s)
    ensures CallSeen(s, Cycle(s, env, cfg), CallOf(s, EvCycle(env)), cfg)
  {
    if !CutShort(s, env) {
      AtEdgeSeen(s, env, cfg);
      EdgeNoOutputs(AtEdge(s, env, cfg), env.timeoutNs);
      EventsNoOutputs(AtEvents(s, env, cfg), env, cfg);
      CycleParts(s, env, cfg);
    }
  }

  lemma AtEdgeSeen(s: St, env: CycleEnv, cfg: Config)
    requires OutputsMatch(s) && !CutShort(s, env)
    ensures CallSeen(s, AtEdge(s, env, cfg), CallOf(s, EvCycle(env)), cfg)
  {
    PendingSafe(s, false, false, env.timeoutNs);
    PendingNoOutputs(s, false, false, env.timeoutNs);
    DataSeen(AtData(s, env), env, cfg);
  }

  lemma StepSeen(s: St, e: Ev, cfg: Config)
    requires OutputsMatch(s)
    ensures CallSeen(s, Next(s, e, cfg), CallOf(s, e), cfg)
  {
    match e
    case EvControl(env) => ControlNoOutputs(s, env, cfg);
    case EvSmChange(env) => SmChangeNoOutputs(s, env);
    case EvSync0(seen) => Sync0NoOutputs(s, seen);
    case EvPending(sync0, smEvent, elapsed) => PendingNoOutputs(s, sync0, smEvent, elapsed);
    case EvDig(env) => DigLaw(s, env, cfg);
    case EvError(status, code) =>
    case EvCycle(env) => CycleSeen(s, env, cfg);
  }

  /**
   Over every run, DC cycles included, outputs are applied in OP once for every call of DIG_process that
   found new outputs, handled them and left them active, and at no other moment.
   */
  lemma {:induction false} AppliedOverRun(s: St, es: seq<Ev>, cfg: Config)
    requires OutputsMatch(s)
    ensures Run(s, es, cfg).applied == s.applied.(inOp := s.applied.inOp + Deliveries(s, es, cfg))
  {
    if es != [] {
      var rest := es[..|es| - 1];
      AppliedOverRun(s, rest, cfg);
      RunSafe(s, rest, cfg);
      StepSeen(Run(s, rest, cfg), es[|es| - 1], cfg);
    }
  }

  lemma TickCounted(s: St, t: St, c: DigCall, h: seq<Tick>, cfg: Config)
    requires SwCounted(s, h) && CallSeen(s, t, c, cfg)
    requires c.DigCall? ==> c.s.swWatchdog == s.swWatchdog && c.s.watchdogCount == s.watchdogCount
    ensures SwCounted(t, h + Ticks(c, cfg))
  {
    var k := Ticks(c, cfg);
    if k == [] {
      assert h + k == h;
    } else {
      assert (h + k)[..|h|] == h;
    }
  }

  lemma CallFinds(s: St, e: Ev)
    ensures var c := CallOf(s, e);
            c.DigCall? ==> c.s.swWatchdog == s.swWatchdog && c.s.watchdogCount == s.watchdogCount
  {
    if e.EvCycle? {
      PendingNoOutputs(s, false, false, e.cycle.timeoutNs);
    }
  }

  /** Over every run the software watchdog counts the calls without new outputs since the last with. */
  lemma {:induction false} SwCountedOverRun(s: St, es: seq<Ev>, cfg: Config)
    requires OutputsMatch(s) && s.swWatchdog == s.watchdogCount
    ensures SwCounted(Run(s, es, cfg), RunTicks(s, es, cfg)) && Run(s, es, cfg).watchdogCount == s.watchdogCount
  {
    if es != [] {
      var rest, e := es[..|es| - 1], es[|es| - 1];
      var s' := Run(s, rest, cfg);
      SwCountedOverRun(s, rest, cfg);
      RunSafe(s, rest, cfg);
      StepSeen(s', e, cfg);
      CallFinds(s', e);
      TickCounted(s', Next(s', e, cfg), CallOf(s', e), RunTicks(s, rest, cfg), cfg);
    }
  }

  /**
   After every run, a call that asks the software watchdog takes the slave out of OP exactly when outputs are
   active and this is at least the watchdogCount-th call in a row without new outputs before it is handled.
   */
  lemma SwTripOverRun(s: St, es: seq<Ev>, env: DigEnv, cfg: Config)
    requires OutputsMatch(s) && s.swWatchdog == s.watchdogCount && SwAsked(Run(s, es, cfg), env, cfg)
    ensures var s' := Run(s, es, cfg);
            var trips := s'.output && s'.sm2Len > 0 && UnfedAtEnd(RunTicks(s, es, cfg)) + 1 >= s.watchdogCount;
            if trips then Expired(s', Dig(s', env, cfg))
            else Dig(s', env, cfg).status == s'.status && Dig(s', env, cfg).error == s'.error
  {
    SwCountedOverRun(s, es, cfg);
    RunSafe(s, es, cfg);
    DigLaw(Run(s, es, cfg), env, cfg);
  }

  // ---------------------------------------------------------------- the process data a SYNC0 accounts for

  /** What matters to the next SYNC0: process data that arrive under distributed clocks, the SYNC0 that
      accounts for them, and the SYNC unit found off. */
  datatype Mark = Arrived | Edge | Cleared

  function DataMark(s: St, env: CycleEnv): seq<Mark> {
    if env.smEvent && AtData(s, env).dcsync > 0 then [Arrived] else []
  }

  function ControlMark(s: St, env: ControlEnv, cfg: Config): seq<Mark> {
    if ClearsSync(s, env, cfg) then [Cleared] else []
  }

  function EdgeMarks(s: St, env: CycleEnv, cfg: Config): seq<Mark> {
    DataMark(s, env) + if Accounts(s, env, cfg) then [Edge] else []
  }

  function Marks(s: St, e: Ev, cfg: Config): seq<Mark> {
    match e
    case EvControl(env) => ControlMark(s, env, cfg)
    case EvCycle(env) =>
      if CutShort(s, env) then []
      else
        EdgeMarks(s, env, cfg)
        + if env.stateEvent && env.controlEvent then ControlMark(AtEvents(s, env, cfg), env.control, cfg) else []
    case _ => []
  }

  function RunMarks(s: St, es: seq<Ev>, cfg: Config): seq<Mark> {
    if es == [] then []
    else
      var rest := es[..|es| - 1];
      RunMarks(s, rest, cfg) + Marks(Run(s, rest, cfg), es[|es| - 1], cfg)
  }

  /** Process data have arrived since the last SYNC0, and the SYNC unit was not found off since. */
  predicate ArrivedLast(h: seq<Mark>) {
    h != [] && h[|h| - 1] == Arrived
  }

  lemma ErrorKeepsSeen(s: St, status: u8, code: u16)
    ensures GotoError(s, status, code).smEventSeen == s.smEventSeen
  {
  }

  lemma DigKeepsSeen(s: St, env: DigEnv, cfg: Config)
    requires OutputsMatch(s)
    ensures Dig(s, env, cfg).smEventSeen == s.smEventSeen
  {
    DigLaw(s, env, cfg);
    ErrorKeepsSeen(s.(wd := WD.Check(s.wd, WdCall(s, env)).wd), SafeOp + ErrorBit, ErrWatchdog);
  }

  lemma DataMarked(s: St, h: seq<Mark>, env: CycleEnv, cfg: Config)
    requires OutputsMatch(s) && !CutShort(s, env) && s.smEventSeen == ArrivedLast(h)
    ensures AtEdge(s, env, cfg).smEventSeen == ArrivedLast(h + DataMark(s, env))
  {
    var s1 := AtData(s, env);
    PendingSafe(s, false, false, env.timeoutNs);
    DigKeepsSeen(if s1.dcsync == 0 then s1 else s1.(smEventSeen := true), env.dig.(watchdog := true, rxPdo := true),
                 cfg);
    assert h + [] == h;
  }

  lemma ControlMarked(s: St, h: seq<Mark>, env: ControlEnv, cfg: Config)
    requires s.smEventSeen == ArrivedLast(h)
    ensures Control(s, env, cfg).smEventSeen == ArrivedLast(h + ControlMark(s, env, cfg))
  {
    assert h + [] == h;
    if Acts(s, env) {
      ControlEffects(s, env, cfg);
    }
  }

  lemma EdgeMarked(s: St, h: seq<Mark>, env: CycleEnv, cfg: Config)
    requires OutputsMatch(s) && !CutShort(s, env) && s.smEventSeen == ArrivedLast(h)
    ensures AtEvents(s, env, cfg).smEventSeen == ArrivedLast(h + EdgeMarks(s, env, cfg))
  {
    DataMarked(s, h, env, cfg);
    var h1 := h + DataMark(s, env);
    assert h1 + [] == h1 && h1 + [Edge] == h + (DataMark(s, env) + [Edge]);
  }

  lemma CycleMarked(s: St, h: seq<Mark>, env: CycleEnv, cfg: Config)
    requires OutputsMatch(s) && s.smEventSeen == ArrivedLast(h)
    ensures Cycle(s, env, cfg).smEventSeen == ArrivedLast(h + Marks(s, EvCycle(env), cfg))
  {
    assert h + [] == h;
    if !CutShort(s, env) {
      var s3, h1 := AtEvents(s, env, cfg), h + EdgeMarks(s, env, cfg);
      var last := if env.stateEvent && env.controlEvent then ControlMark(s3, env.control, cfg) else [];
      EdgeMarked(s, h, env, cfg);
      EventsMarked(s3, h1, env, cfg);
      CycleParts(s, env, cfg);
      assert h + (EdgeMarks(s, env, cfg) + last) == h1 + last && h1 + [] == h1;
    }
  }

  lemma EventsMarked(s: St, h: seq<Mark>, env: CycleEnv, cfg: Config)
    requires s.smEventSeen == ArrivedLast(h)
    ensures StateEvents(s, env, cfg).smEventSeen
         == ArrivedLast(if env.controlEvent then h + ControlMark(s, env.control, cfg) else h)
  {
    ControlMarked(s, h, env.control, cfg);
    SmChangeKeepsSeen(if env.controlEvent then Control(s, env.control, cfg) else s, env.sm);
  }

  lemma SmChangeKeepsSeen(s: St, env: SmEnv)
    ensures SmChange(s, env).smEventSeen == s.smEventSeen
  {
    var c := NoteSm(if env.mbxOk then s else s.(smBadInputs := false), env.sm23);
    assert c.smEventSeen == s.smEventSeen;
    LosesKeepSeen(c);
  }

  lemma LosesKeepSeen(s: St)
    ensures LoseMailbox(s).smEventSeen == s.smEventSeen && LoseInputs(s).smEventSeen == s.smEventSeen
    ensures NoOutputs(s, LoseMailbox(s)) && NoOutputs(s, LoseInputs(s))
  {
  }

  lemma StepMarked(s: St, h: seq<Mark>, e: Ev, cfg: Config)
    requires OutputsMatch(s) && s.smEventSeen == ArrivedLast(h)
    ensures Next(s, e, cfg).smEventSeen == ArrivedLast(h + Marks(s, e, cfg))
  {
    assert h + [] == h;
    match e
    case EvControl(env) => ControlMarked(s, h, env, cfg);
    case EvSmChange(env) => SmChangeKeepsSeen(s, env);
    case EvDig(env) => DigKeepsSeen(s, env, cfg);
    case EvCycle(env) => CycleMarked(s, h, env, cfg);
    case _ =>
  }

  lemma {:induction false} SeenOverRun(s: St, es: seq<Ev>, cfg: Config)
    requires OutputsMatch(s) && !s.smEventSeen
    ensures Run(s, es, cfg).smEventSeen == ArrivedLast(RunMarks(s, es, cfg))
  {
    if es != [] {
      var rest := es[..|es| - 1];
      SeenOverRun(s, rest, cfg);
      RunSafe(s, rest, cfg);
      StepMarked(Run(s, rest, cfg), RunMarks(s, rest, cfg), es[|es| - 1], cfg);
    }
  }

  /**
   After every run, the SYNC0 of a DC cycle is accounted as served exactly if process data have arrived under
   distributed clocks since the last one, this cycle included.
   */
  lemma ServedIff(s: St, es: seq<Ev>, env: CycleEnv, cfg: Config)
    requires OutputsMatch(s) && !s.smEventSeen && Accounts(Run(s, es, cfg), env, cfg)
    ensures var s' := Run(s, es, cfg);
            var served := ArrivedLast(RunMarks(s, es, cfg) + DataMark(s', env));
            AtEvents(s', env, cfg).sync == SC.Account(s'.sync, s'.limit, served).0
  {
    var s' := Run(s, es, cfg);
    RunSafe(s, es, cfg);
    SeenOverRun(s, es, cfg);
    DataMarked(s', RunMarks(s, es, cfg), env, cfg);
    AtEdgeSync(s', env, cfg);
    EdgeCounts(AtEdge(s', env, cfg), env.timeoutNs);
  }
}
