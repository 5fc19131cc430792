/**
 The monitors inside the AL state machine, over every run: the state of the hardware watchdog latch
 is that of the calls the run made, and a held request has waited for exactly the periods that
 passed since it was asked for.
 */
module AlHistory {
  import opened Base
  import opened AlSpec
  import opened AlSafety
  import SC = SyncCounter
  import OP = OpPending
  import WD = Watchdog

  // ---------------------------------------------------------------- the hardware watchdog

  /** The latch calls of one DIG_process. */
  function DigCalls(s: St, env: DigEnv, cfg: Config): seq<WD.Call> {
    if env.watchdog && cfg.useHwWatchdog then [WdCall(s, env)] else []
  }

  /** The loss of SYNC0 under active outputs, or a failed wait: nothing else of the cycle runs. */
  predicate CutShort(s: St, env: CycleEnv) {
    env.rc < 0 || (env.rc == 0 && s.dcsync > 0 && s.output)
  }

  /** The state in which a cycle handles process data. */
  function AtData(s: St, env: CycleEnv): St {
    if env.rc == 0 then Pending(s, false, false, env.timeoutNs) else s
  }

  /** The state in which a cycle handles the SYNC0 event. */
  function AtEdge(s: St, env: CycleEnv, cfg: Config): St {
    if env.smEvent then Data(AtData(s, env), env, cfg) else AtData(s, env)
  }

  /** The state in which a cycle handles AL control and SyncManager changes. */
  function AtEvents(s: St, env: CycleEnv, cfg: Config): St {
    var s := AtEdge(s, env, cfg);
    if env.sync0Event || (s.dcsync > 0 && env.rc == 1) then SyncEdge(s, env.timeoutNs) else s
  }

  /** The latch calls of one event. */
  function Calls(s: St, e: Ev, cfg: Config): seq<WD.Call> {
    match e
    case EvDig(env) => DigCalls(s, env, cfg)
    case EvCycle(env) =>
      if CutShort(s, env) || !env.smEvent then []
      else DigCalls(AtData(s, env), env.dig.(watchdog := true, rxPdo := true), cfg)
    case _ => []
  }

  /** The latch calls of a run, in order. */
  function RunCalls(s: St, es: seq<Ev>, cfg: Config): seq<WD.Call> {
    if es == [] then []
    else
      var rest := es[..|es| - 1];
      RunCalls(s, rest, cfg) + Calls(Run(s, rest, cfg), es[|es| - 1], cfg)
  }

  /** The latch has seen exactly these calls. */
  predicate LatchSaw(s: St, h: seq<WD.Call>) {
    s.wd == WD.Run(h)
  }

  lemma OneCall(h: seq<WD.Call>, e: WD.Call)
    ensures WD.Run(h + [e]) == WD.Check(WD.Run(h), e).wd
  {
    assert (h + [e])[..|h|] == h;
  }

  /** A step that concerns neither the watchdog latch nor the sync error counter. */
  predicate KeepsMonitors(s: St, t: St) {
    t.wd == s.wd && t.sync == s.sync && t.limit == s.limit
  }

  lemma ErrorKeeps(s: St, status: u8, code: u16)
    ensures KeepsMonitors(s, GotoError(s, status, code))
  {
  }

  lemma SwKeeps(s: St)
    ensures KeepsMonitors(s, SwWatchdog(s))
  {
  }

  lemma HwChecks(s: St, env: DigEnv)
    ensures var wd := WD.Check(s.wd, WdCall(s, env)).wd;
            KeepsMonitors(s.(wd := wd), HwWatchdog(s, env).0)
  {
    ErrorKeeps(s.(wd := WD.Check(s.wd, WdCall(s, env)).wd), SafeOp + ErrorBit, ErrWatchdog);
  }

  lemma DigCallsSeen(s: St, h: seq<WD.Call>, env: DigEnv, cfg: Config)
    requires LatchSaw(s, h)
    ensures var t := Dig(s, env, cfg);
            LatchSaw(t, h + DigCalls(s, env, cfg)) && t.sync == s.sync && t.limit == s.limit
  {
    OneCall(h, WdCall(s, env));
    HwChecks(s, env);
    SwKeeps(s);
    SwKeeps(HwWatchdog(s, env).0);
    assert h + [] == h;
  }

  lemma OthersKeepLatch(s: St, e: Ev, cfg: Config)
    requires !e.EvDig? && !e.EvCycle?
    ensures Next(s, e, cfg).wd == s.wd
  {
    match e
    case EvControl(env) => ControlMonitors(s, env, cfg);
    case EvSmChange(env) => SmChangeKeeps(s, env);
    case EvSync0(seen) => Sync0Counts(s, seen);
    case EvPending(sync0, smEvent, elapsed) => PendingKeeps(s, sync0, smEvent, elapsed);
    case EvError(status, code) => ErrorKeeps(s, status, code);
  }

  /** A request that finds the SYNC unit off when inputs start: everything about sync is cleared. */
  predicate ClearsSync(s: St, env: ControlEnv, cfg: Config) {
    && !(Blocked(s, env.control) || (s.opPending && State(s.status) == SafeOp && State(env.control) == Op))
    && (State(s.status) == PreOp || State(s.status) == SafeOp) && State(env.control) == SafeOp
    && StartsUnsynced(env, cfg)
  }

  predicate StartsUnsynced(env: ControlEnv, cfg: Config) {
    env.rxOk && env.txOk && env.sm23 == SmOk && cfg.useInterrupt && env.dc.DcOff?
  }

  /** An AL control request leaves the latch alone, and the counter unless it clears it. */
  lemma ControlMonitors(s: St, env: ControlEnv, cfg: Config)
    ensures var t := Control(s, env, cfg);
            t.wd == s.wd && t.sync == if ClearsSync(s, env, cfg) then SC.SyncInit else s.sync
  {
    PerformMonitors(s.(control := env.control, opPending := false), env, cfg);
  }

  lemma PerformMonitors(s: St, env: ControlEnv, cfg: Config)
    ensures var t := Perform(s, env, cfg);
            && t.wd == s.wd
            && t.sync == if (State(s.status) == PreOp || State(s.status) == SafeOp) && State(env.control) == SafeOp
                            && StartsUnsynced(env, cfg) then SC.SyncInit else s.sync
  {
    var (s', an) := Transition(s, State(s.status), State(env.control), env, cfg);
    TransitionMonitors(s, State(s.status), State(env.control), env, cfg);
    ReportKeeps(s', an, env.control, env.deviceId);
  }

  lemma TransitionMonitors(s: St, from: nat, to: nat, env: ControlEnv, cfg: Config)
    ensures var t := Transition(s, from, to, env, cfg).0;
            && t.wd == s.wd
            && t.sync == if (from == PreOp || from == SafeOp) && to == SafeOp && StartsUnsynced(env, cfg)
                         then SC.SyncInit else s.sync
  {
    if !KnownRequest(from, to) {
    } else if to == Init {
      ToInitKeeps(s, from, env, cfg);
    } else if to < SafeOp {
      DownKeeps(s, from, to, env, cfg);
    } else {
      UpMonitors(s, from, to, env, cfg);
    }
  }

  lemma ToInitKeeps(s: St, from: nat, env: ControlEnv, cfg: Config)
    requires KnownRequest(from, Init)
    ensures KeepsMonitors(s, Transition(s, from, Init, env, cfg).0)
  {
  }

  lemma DownKeeps(s: St, from: nat, to: nat, env: ControlEnv, cfg: Config)
    requires KnownRequest(from, to) && (to == PreOp || to == Boot)
    ensures KeepsMonitors(s, Transition(s, from, to, env, cfg).0)
  {
    StartKeeps(s, to, env.mbxOk);
  }

  lemma UpMonitors(s: St, from: nat, to: nat, env: ControlEnv, cfg: Config)
    requires KnownRequest(from, to) && to >= SafeOp
    ensures var t := Transition(s, from, to, env, cfg).0;
            && t.wd == s.wd
            && t.sync == if (from == PreOp || from == SafeOp) && to == SafeOp && StartsUnsynced(env, cfg)
                         then SC.SyncInit else s.sync
  {
    if to == Op {
      RequestKeeps(s);
    } else if from != Op {
      EntryMonitors(s, env, cfg);
    }
  }

  lemma StartKeeps(s: St, to: nat, ok: bool)
    ensures KeepsMonitors(s, StartMailbox(s, to, ok).0)
  {
  }

  lemma RequestKeeps(s: St)
    ensures KeepsMonitors(s, RequestOp(s).0)
  {
  }

  lemma EntryMonitors(s: St, env: ControlEnv, cfg: Config)
    ensures var t := EnterSafeOp(s, env, cfg).0;
            t.wd == s.wd && t.sync == if StartsUnsynced(env, cfg) then SC.SyncInit else s.sync
  {
    InputMonitors(s.(sm2Len := env.rxLen, sm3Len := env.txLen), env, cfg);
  }

  lemma InputMonitors(s: St, env: ControlEnv, cfg: Config)
    ensures var t := StartInput(s, env.sm23, env.dc, cfg).0;
            && t.wd == s.wd
            && t.sync == if env.sm23 == SmOk && cfg.useInterrupt && env.dc.DcOff? then SC.SyncInit else s.sync
  {
    var b := BeginInput(s, env.sm23);
    assert b.0.wd == s.wd && b.0.sync == s.sync && (b.1 == SafeOp <==> env.sm23 == SmOk);
    FinishMonitors(b.0, env.dc);
  }

  lemma FinishMonitors(s: St, dc: DcCheck)
    ensures var t := FinishInput(s, dc).0;
            t.wd == s.wd && t.sync == if dc.DcOff? then SC.SyncInit else s.sync
  {
  }

  lemma PendingKeeps(s: St, sync0: bool, smEvent: bool, elapsed: nat)
    ensures KeepsMonitors(s, Pending(s, sync0, smEvent, elapsed))
  {
  }

  lemma Sync0Counts(s: St, seen: bool)
    ensures var t := Sync0(s, seen);
            t.wd == s.wd && t.sync == SC.Account(s.sync, s.limit, seen).0 && t.limit == s.limit
  {
    ErrorKeeps(s.(sync := SC.Account(s.sync, s.limit, seen).0), SafeOp + ErrorBit, ErrSync);
  }

  lemma EdgeCounts(s: St, timeoutNs: nat)
    ensures var t := SyncEdge(s, timeoutNs);
            t.wd == s.wd && t.sync == SC.Account(s.sync, s.limit, s.smEventSeen).0
  {
    Sync0Counts(s, s.smEventSeen);
    PendingKeeps(Sync0(s, s.smEventSeen), true, s.smEventSeen, timeoutNs / 2);
  }

  lemma EventsMonitors(s: St, env: CycleEnv, cfg: Config)
    ensures var t := StateEvents(s, env, cfg);
            && t.wd == s.wd
            && t.sync == if env.controlEvent && ClearsSync(s, env.control, cfg) then SC.SyncInit else s.sync
  {
    ControlMonitors(s, env.control, cfg);
    SmChangeKeeps(if env.controlEvent then Control(s, env.control, cfg) else s, env.sm);
  }

  lemma SmChangeKeeps(s: St, env: SmEnv)
    ensures KeepsMonitors(s, SmChange(s, env))
  {
    var c := NoteSm(if env.mbxOk then s else s.(smBadInputs := false), env.sm23);
    assert KeepsMonitors(s, c);
    LosesKeep(c);
  }

  lemma LosesKeep(s: St)
    ensures KeepsMonitors(s, LoseMailbox(s)) && KeepsMonitors(s, LoseInputs(s))
  {
  }

  lemma DataCallsSeen(s: St, h: seq<WD.Call>, env: CycleEnv, cfg: Config)
    requires LatchSaw(s, h)
    ensures var t := Data(s, env, cfg);
            && LatchSaw(t, h + DigCalls(s, env.dig.(watchdog := true, rxPdo := true), cfg))
            && t.sync == s.sync && t.limit == s.limit
  {
    var s2 := if s.dcsync == 0 then s else s.(smEventSeen := true);
    var dig := env.dig.(watchdog := true, rxPdo := true);
    DigCallsSeen(s2, h, dig, cfg);
    assert WdCall(s2, dig) == WdCall(s, dig);
  }

  /** A cycle that is not cut short ends with its state events. */
  lemma CycleParts(s: St, env: CycleEnv, cfg: Config)
    requires !CutShort(s, env)
    ensures Cycle(s, env, cfg) == if env.stateEvent then StateEvents(AtEvents(s, env, cfg), env, cfg)
                                  else AtEvents(s, env, cfg)
  {
  }

  lemma CycleCallsSeen(s: St, h: seq<WD.Call>, env: CycleEnv, cfg: Config)
    requires LatchSaw(s, h)
    ensures LatchSaw(Cycle(s, env, cfg), h + Calls(s, EvCycle(env), cfg))
  {
    assert h + [] == h;
    if !CutShort(s, env) {
      var h' := h + Calls(s, EvCycle(env), cfg);
      PendingKeeps(s, false, false, env.timeoutNs);
      DataCallsSeen(AtData(s, env), h, env, cfg);
      assert LatchSaw(AtEdge(s, env, cfg), h');
      EdgeCounts(AtEdge(s, env, cfg), env.timeoutNs);
      EventsMonitors(AtEvents(s, env, cfg), env, cfg);
      CycleParts(s, env, cfg);
    }
  }

  /** Over every run the latch is the one its calls lead to. */
  lemma {:induction false} LatchOverRun(s: St, es: seq<Ev>, cfg: Config)
    requires s.wd == WD.WdInit
    ensures LatchSaw(Run(s, es, cfg), RunCalls(s, es, cfg))
  {
    if es != [] {
      var rest, e := es[..|es| - 1], es[|es| - 1];
      LatchOverRun(s, rest, cfg);
      var s', h := Run(s, rest, cfg), RunCalls(s, rest, cfg);
      match e
      case EvDig(env) => DigCallsSeen(s', h, env, cfg);
      case EvCycle(env) => CycleCallsSeen(s', h, env, cfg);
      case _ => OthersKeepLatch(s', e, cfg); assert h + [] == h;
    }
  }

  /** Where the last stretch of active outputs starts. */
  function StretchStart(h: seq<WD.Call>): (n: nat)
    ensures n <= |h| && forall i | n <= i < |h| :: h[i].active
    ensures n > 0 ==> !h[n - 1].active
  {
    if h == [] || !h[|h| - 1].active then |h| else StretchStart(h[..|h| - 1])
  }

  /** The calls since outputs were last found inactive. */
  function LastStretch(h: seq<WD.Call>): (g: seq<WD.Call>)
    ensures WD.Stretch(g)
  {
    h[StretchStart(h)..]
  }

  lemma LastStretchDecides(h: seq<WD.Call>)
    ensures WD.Run(h) == WD.Run(LastStretch(h))
  {
    var n := StretchStart(h);
    if n > 0 {
      assert h == h[..n - 1] + [h[n - 1]] + h[n..];
      WD.StretchRestarts(h[..n - 1], h[n - 1], h[n..]);
    } else {
      assert h[0..] == h;
    }
  }

  /** A call trips by the last stretch of the calls before it. */
  lemma TripsByStretch(all: seq<WD.Call>, e: WD.Call)
    ensures var h := LastStretch(all);
            WD.Check(WD.Run(all), e).trip
            <==> && e.active && h != [] && WD.Arms(h[0]) && WD.Fed(h)
                 && WD.QuietFor(h + [e], WD.QuietCycles + 1) && !e.statusOk
  {
    var h := LastStretch(all);
    LastStretchDecides(all);
    if e.active {
      assert WD.Stretch(h + [e]);
      WD.TripsIff(h, e);
    }
  }

  /**
   After any run, a check of the hardware watchdog takes the slave to SAFEOP with an error exactly
   when the last stretch of active outputs is armed, has seen process data, and this is at least
   its 17th quiet call in a row, with the status bit clear.
   */
  lemma TripOverRun(s: St, es: seq<Ev>, env: DigEnv, cfg: Config)
    requires s.wd == WD.WdInit
    ensures var s' := Run(s, es, cfg);
            var h, e := LastStretch(RunCalls(s, es, cfg)), WdCall(s', env);
            WD.Check(s'.wd, e).trip
            <==> && e.active && h != [] && WD.Arms(h[0]) && WD.Fed(h)
                 && WD.QuietFor(h + [e], WD.QuietCycles + 1) && !e.statusOk
    ensures var s' := Run(s, es, cfg);
            var h, e := LastStretch(RunCalls(s, es, cfg)), WdCall(s', env);
            var checked := s'.(wd := WD.Run(h + [e]));
            HwWatchdog(s', env).0 == if WD.Check(s'.wd, e).trip then GotoError(checked, SafeOp + ErrorBit, ErrWatchdog)
                                     else checked
  {
    var all, e := RunCalls(s, es, cfg), WdCall(Run(s, es, cfg), env);
    LatchOverRun(s, es, cfg);
    LastStretchDecides(all);
    OneCall(LastStretch(all), e);
    TripsByStretch(all, e);
  }

  // ---------------------------------------------------------------- the held request

  /** OP asked for again while it is held, or a blocked request: the held one goes on waiting. */
  predicate GoesOn(s: St, env: ControlEnv) {
    Blocked(s, env.control) || (State(s.status) == SafeOp && State(env.control) == Op)
  }

  function ControlPeriods(s: St, h: seq<OP.Period>, env: ControlEnv): seq<OP.Period> {
    if s.opPending && GoesOn(s, env) then h else []
  }

  function StepPeriods(s: St, h: seq<OP.Period>, sync0: bool, smEvent: bool, elapsed: nat): seq<OP.Period> {
    if s.opPending then h + [PeriodOf(s, sync0, smEvent, elapsed)] else h
  }

  function EdgePeriods(s: St, h: seq<OP.Period>, timeoutNs: nat): seq<OP.Period> {
    StepPeriods(Sync0(s, s.smEventSeen), h, true, s.smEventSeen, timeoutNs / 2)
  }

  /** The periods of a cycle: the wait that timed out, and the SYNC0 edge. */
  function CyclePeriods(s: St, h: seq<OP.Period>, env: CycleEnv, cfg: Config): seq<OP.Period> {
    if CutShort(s, env) then h
    else
      var h := if env.rc == 0 then StepPeriods(s, h, false, false, env.timeoutNs) else h;
      var s2 := AtEdge(s, env, cfg);
      var h := if env.sync0Event || (s2.dcsync > 0 && env.rc == 1) then EdgePeriods(s2, h, env.timeoutNs) else h;
      if env.stateEvent && env.controlEvent then ControlPeriods(AtEvents(s, env, cfg), h, env.control) else h
  }

  /** The periods since the request was made, after one more event. */
  function Periods(s: St, h: seq<OP.Period>, e: Ev, cfg: Config): seq<OP.Period> {
    match e
    case EvControl(env) => ControlPeriods(s, h, env)
    case EvPending(sync0, smEvent, elapsed) => StepPeriods(s, h, sync0, smEvent, elapsed)
    case EvCycle(env) => CyclePeriods(s, h, env, cfg)
    case _ => h
  }

  /** The periods of a run since the request that may be held at its end was made. */
  function RunPeriods(s: St, es: seq<Ev>, cfg: Config): seq<OP.Period> {
    if es == [] then []
    else
      var rest := es[..|es| - 1];
      Periods(Run(s, rest, cfg), RunPeriods(s, rest, cfg), es[|es| - 1], cfg)
  }

  /** A step leaves a request that was held already as it is, or ends it. */
  predicate OnlyEnds(s: St, s': St) {
    s'.opPending ==> s.opPending && s'.wait == s.wait
  }

  lemma StepHistory(s: St, h: seq<OP.Period>, sync0: bool, smEvent: bool, elapsed: nat)
    requires HoldsHistory(s, h)
    ensures HoldsHistory(Pending(s, sync0, smEvent, elapsed), StepPeriods(s, h, sync0, smEvent, elapsed))
  {
    assert (h + [PeriodOf(s, sync0, smEvent, elapsed)])[..|h|] == h;
  }

  lemma ControlHistory(s: St, h: seq<OP.Period>, env: ControlEnv, cfg: Config)
    requires HoldsHistory(s, h)
    ensures HoldsHistory(Control(s, env, cfg), ControlPeriods(s, h, env))
  {
    PerformHolds(s.(control := env.control, opPending := false), env, cfg);
  }

  lemma DigOnlyEnds(s: St, env: DigEnv, cfg: Config)
    ensures OnlyEnds(s, Dig(s, env, cfg))
  {
    HwOnlyEnds(s, env);
    SwOnlyEnds(s);
    SwOnlyEnds(HwWatchdog(s, env).0);
  }

  lemma HwOnlyEnds(s: St, env: DigEnv)
    ensures OnlyEnds(s, HwWatchdog(s, env).0)
  {
  }

  lemma SwOnlyEnds(s: St)
    ensures OnlyEnds(s, SwWatchdog(s))
  {
  }

  lemma SmChangeOnlyEnds(s: St, env: SmEnv)
    ensures OnlyEnds(s, SmChange(s, env))
  {
  }

  lemma EdgeHistory(s: St, h: seq<OP.Period>, timeoutNs: nat)
    requires HoldsHistory(s, h)
    ensures HoldsHistory(SyncEdge(s, timeoutNs), EdgePeriods(s, h, timeoutNs))
  {
    StepHistory(Sync0(s, s.smEventSeen), h, true, s.smEventSeen, timeoutNs / 2);
  }

  lemma DataHistory(s: St, h: seq<OP.Period>, env: CycleEnv, cfg: Config)
    requires HoldsHistory(s, h)
    ensures HoldsHistory(Data(s, env, cfg), h)
  {
    DigOnlyEnds(if s.dcsync == 0 then s else s.(smEventSeen := true), env.dig.(watchdog := true, rxPdo := true), cfg);
  }

  lemma CycleHistory(s: St, h: seq<OP.Period>, env: CycleEnv, cfg: Config)
    requires HoldsHistory(s, h)
    ensures HoldsHistory(Cycle(s, env, cfg), CyclePeriods(s, h, env, cfg))
  {
    if !CutShort(s, env) {
      var h1 := if env.rc == 0 then StepPeriods(s, h, false, false, env.timeoutNs) else h;
      StepHistory(s, h, false, false, env.timeoutNs);
      DataHistory(AtData(s, env), h1, env, cfg);
      var s2 := AtEdge(s, env, cfg);
      EdgeHistory(s2, h1, env.timeoutNs);
      var h2 := if env.sync0Event || (s2.dcsync > 0 && env.rc == 1) then EdgePeriods(s2, h1, env.timeoutNs) else h1;
      var s3 := AtEvents(s, env, cfg);
      EventsHistory(s3, h2, env, cfg);
      CycleParts(s, env, cfg);
    }
  }

  lemma EventsHistory(s: St, h: seq<OP.Period>, env: CycleEnv, cfg: Config)
    requires HoldsHistory(s, h)
    ensures HoldsHistory(StateEvents(s, env, cfg), if env.controlEvent then ControlPeriods(s, h, env.control) else h)
    ensures HoldsHistory(StateEvents(s, env, cfg), h) || env.controlEvent
  {
    ControlHistory(s, h, env.control, cfg);
    SmChangeOnlyEnds(if env.controlEvent then Control(s, env.control, cfg) else s, env.sm);
  }

  /** Over every run, what a held request has waited for are the periods since it was made, and
      none of them decided it. */
  lemma {:induction false} HeldHistoryOverRun(s: St, es: seq<Ev>, cfg: Config)
    requires !s.opPending
    ensures HoldsHistory(Run(s, es, cfg), RunPeriods(s, es, cfg))
  {
    if es != [] {
      var rest, e := es[..|es| - 1], es[|es| - 1];
      HeldHistoryOverRun(s, rest, cfg);
      var s', h := Run(s, rest, cfg), RunPeriods(s, rest, cfg);
      match e
      case EvControl(env) => ControlHistory(s', h, env, cfg);
      case EvPending(sync0, smEvent, elapsed) => StepHistory(s', h, sync0, smEvent, elapsed);
      case EvCycle(env) => CycleHistory(s', h, env, cfg);
      case EvDig(env) => DigOnlyEnds(s', env, cfg);
      case EvSmChange(env) => SmChangeOnlyEnds(s', env);
      case _ =>
    }
  }

  /** So no run holds a request for 8.1 s, and no moment of its wait called for an answer. */
  lemma HeldBriefly(s: St, es: seq<Ev>, cfg: Config)
    requires !s.opPending && Run(s, es, cfg).opPending && OP.Timely(RunPeriods(s, es, cfg))
    ensures var h := RunPeriods(s, es, cfg);
            && OP.Total(h) < OP.PendingTimeoutNs
            && forall n | 0 <= n <= |h| :: OP.Judge(h[..n]) == OP.Held
  {
    var h := RunPeriods(s, es, cfg);
    HeldHistoryOverRun(s, es, cfg);
    OP.FirstDecision(h);
    assert h[..|h|] == h;
    OP.HeldIsShort(h);
  }

  // ---------------------------------------------------------------- the sync error counter

  /** The state in which a cycle accounts for SYNC0 still has the counter and the limit it began with. */
  lemma AtEdgeSync(s: St, env: CycleEnv, cfg: Config)
    ensures AtEdge(s, env, cfg).sync == s.sync && AtEdge(s, env, cfg).limit == s.limit
  {
    var s1 := AtData(s, env);
    PendingKeeps(s, false, false, env.timeoutNs);
    DigKeepsSync(if s1.dcsync == 0 then s1 else s1.(smEventSeen := true), env.dig.(watchdog := true, rxPdo := true),
                 cfg);
  }

  lemma DigKeepsSync(s: St, env: DigEnv, cfg: Config)
    ensures Dig(s, env, cfg).sync == s.sync && Dig(s, env, cfg).limit == s.limit
  {
    HwChecks(s, env);
    SwKeeps(s);
    SwKeeps(HwWatchdog(s, env).0);
  }

  /** The cycle accounts for a SYNC0. */
  predicate Accounts(s: St, env: CycleEnv, cfg: Config) {
    !CutShort(s, env) && (env.sync0Event || (AtEdge(s, env, cfg).dcsync > 0 && env.rc == 1))
  }

  /** The history after one SYNC0: it starts anew when the counter trips. */
  function Counted(s: St, h: seq<bool>, seen: bool): seq<bool> {
    if SC.Account(s.sync, s.limit, seen).1 then [] else h + [seen]
  }

  /** The SYNC0 periods since the counter was last cleared, by a trip or because the SYNC unit was found
      off, after one more event. */
  function Since(s: St, h: seq<bool>, e: Ev, cfg: Config): seq<bool> {
    match e
    case EvControl(env) => if ClearsSync(s, env, cfg) then [] else h
    case EvSync0(seen) => Counted(s, h, seen)
    case EvCycle(env) =>
      var h := if Accounts(s, env, cfg) then Counted(s, h, AtEdge(s, env, cfg).smEventSeen) else h;
      if !CutShort(s, env) && env.stateEvent && env.controlEvent && ClearsSync(AtEvents(s, env, cfg), env.control, cfg)
      then [] else h
    case _ => h
  }

  function RunSince(s: St, es: seq<Ev>, cfg: Config): seq<bool> {
    if es == [] then []
    else
      var rest := es[..|es| - 1];
      Since(Run(s, rest, cfg), RunSince(s, rest, cfg), es[|es| - 1], cfg)
  }

  /** The counter is the largest window score of the history, and fits its 16 bits. */
  ghost predicate IsScore(sync: SC.Sync, h: seq<bool>) {
    SC.IsWindowMax(h, sync.counter) && 0 <= sync.counter <= 0x7FFF
  }

  lemma AccountScores(sync: SC.Sync, limit: u16, h: seq<bool>, seen: bool)
    requires IsScore(sync, h) && 1 <= limit <= 0x7FFF
    ensures var (t, trip) := SC.Account(sync, limit, seen);
            IsScore(t, if trip then [] else h + [seen]) && (trip <==> ScoresOver(h + [seen], limit))
  {
    SC.CountsWindows(h, seen, sync.counter);
    SC.EmptyWindow();
    var c := SC.Counted(sync.counter, seen);
    OverIff(h + [seen], c, limit);
  }

  /** Some window that ends with the history scores more than the limit. */
  ghost predicate ScoresOver(h: seq<bool>, limit: u16) {
    exists i :: 0 <= i <= |h| && SC.Score(h[i..]) > limit
  }

  lemma OverIff(h: seq<bool>, c: int, limit: u16)
    requires SC.IsWindowMax(h, c)
    ensures c > limit <==> ScoresOver(h, limit)
  {
  }

  lemma Sync0Scores(s: St, h: seq<bool>, seen: bool)
    requires IsScore(s.sync, h) && 1 <= s.limit <= 0x7FFF
    ensures IsScore(Sync0(s, seen).sync, Counted(s, h, seen))
  {
    AccountScores(s.sync, s.limit, h, seen);
    Sync0Counts(s, seen);
  }

  lemma ControlScores(s: St, h: seq<bool>, env: ControlEnv, cfg: Config)
    requires IsScore(s.sync, h)
    ensures IsScore(Control(s, env, cfg).sync, if ClearsSync(s, env, cfg) then [] else h)
  {
    ControlMonitors(s, env, cfg);
    SC.EmptyWindow();
  }

  lemma EdgeScores(s: St, h: seq<bool>, timeoutNs: nat)
    requires IsScore(s.sync, h) && 1 <= s.limit <= 0x7FFF
    ensures IsScore(SyncEdge(s, timeoutNs).sync, Counted(s, h, s.smEventSeen))
  {
    AccountScores(s.sync, s.limit, h, s.smEventSeen);
    EdgeCounts(s, timeoutNs);
  }

  lemma EventsScore(s: St, h: seq<bool>, env: CycleEnv, cfg: Config)
    requires IsScore(s.sync, h)
    ensures IsScore(StateEvents(s, env, cfg).sync,
                    if env.controlEvent && ClearsSync(s, env.control, cfg) then [] else h)
  {
    EventsMonitors(s, env, cfg);
    SC.EmptyWindow();
  }

  lemma CycleScores(s: St, h: seq<bool>, env: CycleEnv, cfg: Config)
    requires IsScore(s.sync, h) && 1 <= s.limit <= 0x7FFF
    ensures IsScore(Cycle(s, env, cfg).sync, Since(s, h, EvCycle(env), cfg))
  {
    if CutShort(s, env) {
      ErrorKeeps(s.(sync := s.sync.(syncError := true)), SafeOp + ErrorBit, ErrFatalSync);
    } else {
      var s2 := AtEdge(s, env, cfg);
      AtEdgeSync(s, env, cfg);
      EdgeScores(s2, h, env.timeoutNs);
      var h1 := if Accounts(s, env, cfg) then Counted(s, h, s2.smEventSeen) else h;
      EventsScore(AtEvents(s, env, cfg), h1, env, cfg);
      CycleParts(s, env, cfg);
    }
  }

  /** The limits under which the counter fits its 16 bits. */
  ghost predicate LimitsFit(s: St, es: seq<Ev>, cfg: Config) {
    forall n | 0 <= n < |es| :: LimitFits(s, es, n, cfg)
  }

  predicate LimitFits(s: St, es: seq<Ev>, n: nat, cfg: Config)
    requires n <= |es|
  {
    1 <= Run(s, es[..n], cfg).limit <= 0x7FFF
  }

  lemma StepScores(s: St, h: seq<bool>, e: Ev, cfg: Config)
    requires IsScore(s.sync, h) && 1 <= s.limit <= 0x7FFF
    ensures IsScore(Next(s, e, cfg).sync, Since(s, h, e, cfg))
  {
    match e
    case EvControl(env) => ControlScores(s, h, env, cfg);
    case EvSmChange(env) => SmChangeKeeps(s, env);
    case EvSync0(seen) => Sync0Scores(s, h, seen);
    case EvPending(sync0, smEvent, elapsed) => PendingKeeps(s, sync0, smEvent, elapsed);
    case EvDig(env) => DigKeepsSync(s, env, cfg);
    case EvError(status, code) => ErrorKeeps(s, status, code);
    case EvCycle(env) => CycleScores(s, h, env, cfg);
  }

  /**
   The window law inside the state machine: over every run with limits in 1..32767, also limits that
   change, the counter is the largest window score of the SYNC0 periods since it was last cleared, by a
   trip or by the SYNC unit found off.
   */
  lemma {:induction false} CounterOverRun(s: St, es: seq<Ev>, cfg: Config)
    requires s.sync.counter == 0 && LimitsFit(s, es, cfg)
    ensures IsScore(Run(s, es, cfg).sync, RunSince(s, es, cfg))
  {
    SC.EmptyWindow();
    if es != [] {
      var n := |es| - 1;
      LimitsSplit(s, es, n, cfg);
      CounterOverRun(s, es[..n], cfg);
      StepScores(Run(s, es[..n], cfg), RunSince(s, es[..n], cfg), es[n], cfg);
    }
  }

  lemma LimitsSplit(s: St, es: seq<Ev>, n: nat, cfg: Config)
    requires LimitsFit(s, es, cfg) && |es| == n + 1
    ensures LimitsFit(s, es[..n], cfg) && 1 <= Run(s, es[..n], cfg).limit <= 0x7FFF
  {
    forall k | 0 <= k < n ensures LimitFits(s, es[..n], k, cfg) {
      assert es[..n][..k] == es[..k];
      assert LimitFits(s, es, k, cfg);
    }
    assert LimitFits(s, es, n, cfg);
  }

  /** After every such run, a SYNC0 takes an operating slave to SAFEOP with an error exactly when some
      window that ends with it, begun since the counter was last cleared, scores more than the limit. */
  lemma SyncTripOverRun(s: St, es: seq<Ev>, seen: bool, cfg: Config)
    requires s.sync.counter == 0 && LimitsFit(s, es, cfg) && 1 <= Run(s, es, cfg).limit <= 0x7FFF
    requires State(Run(s, es, cfg).status) == Op
    ensures var t := Run(s, es, cfg);
            Sync0(t, seen).status == SafeOp + ErrorBit <==> ScoresOver(RunSince(s, es, cfg) + [seen], t.limit)
  {
    var t := Run(s, es, cfg);
    CounterOverRun(s, es, cfg);
    AccountScores(t.sync, t.limit, RunSince(s, es, cfg), seen);
    TripLeavesOp(t, seen);
  }

  lemma TripLeavesOp(s: St, seen: bool)
    requires State(s.status) == Op
    ensures Sync0(s, seen).status == SafeOp + ErrorBit <==> SC.Account(s.sync, s.limit, seen).1
  {
  }
}
