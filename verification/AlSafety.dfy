/** Safety of the AL state machine over every run. */
module AlSafety {
  import opened Base
  import opened AlSpec
  import SC = SyncCounter
  import OP = OpPending
  import WD = Watchdog

  /** Outputs are active exactly in OP, and not while a request for OP is held. */
  predicate OutputsMatch(s: St) {
    && (s.output <==> State(s.status) == Op)
    && (s.opPending ==> !s.output)
  }

  /** A departure from OP between two states. */
  predicate Departs(s: St, s': St) {
    State(s.status) == Op && State(s'.status) != Op
  }

  /** What one step may do: outputs keep matching OP, a departure from OP puts the application in
      its safe state, and outputs are only applied in OP. */
  predicate Safe(s: St, s': St) {
    && OutputsMatch(s')
    && s'.safeCalls >= s.safeCalls && (Departs(s, s') ==> s'.safeCalls > s.safeCalls)
    && s'.applied.inOp >= s.applied.inOp && s'.applied.outside == s.applied.outside
  }

  lemma GotoErrorSafe(s: St, status: u8, code: u16)
    requires OutputsMatch(s)
    ensures Safe(s, GotoError(s, status, code)) && GotoError(s, status, code).applied == s.applied
    ensures GotoError(s, status, code).output ==> s.output
  {
  }

  lemma EnterSafeOpSafe(s: St, env: ControlEnv, cfg: Config)
    requires !s.output && !s.opPending
    ensures var (s', an) := EnterSafeOp(s, env, cfg);
            && !s'.output && !s'.opPending && (an == SafeOp || an == PreOp + ErrorBit)
            && s'.safeCalls == s.safeCalls && s'.applied == s.applied
  {
    StartInputSafe(s.(sm2Len := env.rxLen, sm3Len := env.txLen), env.sm23, env.dc, cfg);
  }

  lemma StartInputSafe(s: St, sm23: SmCheck, dc: DcCheck, cfg: Config)
    requires !s.output && !s.opPending
    ensures var (s', an) := StartInput(s, sm23, dc, cfg);
            && !s'.output && !s'.opPending && (an == SafeOp || an == PreOp + ErrorBit)
            && s'.safeCalls == s.safeCalls && s'.applied == s.applied
  {
  }

  /** The status value a transition reports reads OP only if outputs were started or left on. */
  lemma TransitionSafe(s: St, from: nat, to: nat, env: ControlEnv, cfg: Config)
    requires OutputsMatch(s) && !s.opPending && from == State(s.status)
    ensures var (s', an) := Transition(s, from, to, env, cfg);
            && (s'.output <==> State(an) == Op) && (s'.opPending ==> !s'.output)
            && s'.safeCalls >= s.safeCalls && (from == Op && State(an) != Op ==> s'.safeCalls > s.safeCalls)
            && s'.applied == s.applied
  {
    if !KnownRequest(from, to) {
    } else if to == Init {
      ToInitSafe(s, from, env, cfg);
    } else if to == Boot {
      ToBootSafe(s, from, env, cfg);
    } else if to == PreOp {
      ToPreOpSafe(s, from, env, cfg);
    } else {
      UpSafe(s, from, to, env, cfg);
    }
  }

  lemma ToPreOpSafe(s: St, from: nat, env: ControlEnv, cfg: Config)
    requires OutputsMatch(s) && !s.opPending && from == State(s.status) && KnownRequest(from, PreOp)
    ensures var (s', an) := Transition(s, from, PreOp, env, cfg);
            && !s'.output && State(an) != Op && !s'.opPending
            && s'.safeCalls >= s.safeCalls && (from == Op ==> s'.safeCalls > s.safeCalls) && s'.applied == s.applied
  {
  }

  lemma ToBootSafe(s: St, from: nat, env: ControlEnv, cfg: Config)
    requires OutputsMatch(s) && !s.opPending && from == State(s.status) && KnownRequest(from, Boot)
    ensures var (s', an) := Transition(s, from, Boot, env, cfg);
            && !s'.output && State(an) != Op && !s'.opPending
            && s'.safeCalls >= s.safeCalls && (from == Op ==> s'.safeCalls > s.safeCalls) && s'.applied == s.applied
  {
  }

  lemma ToInitSafe(s: St, from: nat, env: ControlEnv, cfg: Config)
    requires OutputsMatch(s) && !s.opPending && from == State(s.status) && KnownRequest(from, Init)
    ensures var (s', an) := Transition(s, from, Init, env, cfg);
            && !s'.output && an == Init && !s'.opPending
            && s'.safeCalls >= s.safeCalls && (from == Op ==> s'.safeCalls > s.safeCalls) && s'.applied == s.applied
  {
  }

  lemma UpSafe(s: St, from: nat, to: nat, env: ControlEnv, cfg: Config)
    requires OutputsMatch(s) && !s.opPending && from == State(s.status) && KnownRequest(from, to) && to >= SafeOp
    ensures var (s', an) := Transition(s, from, to, env, cfg);
            && (s'.output <==> State(an) == Op) && (s'.opPending ==> !s'.output)
            && s'.safeCalls >= s.safeCalls && (from == Op && State(an) != Op ==> s'.safeCalls > s.safeCalls)
            && s'.applied == s.applied
  {
    if to == SafeOp && (from == PreOp || from == SafeOp) {
      EnterSafeOpSafe(s, env, cfg);
    }
  }

  /** Only a request for OP from SAFEOP under DC leaves a request held. */
  lemma TransitionHolds(s: St, from: nat, to: nat, env: ControlEnv, cfg: Config)
    requires !s.opPending
    ensures var (s', an) := Transition(s, from, to, env, cfg);
            s'.opPending ==> from == SafeOp && to == Op && an == SafeOp && s'.wait == OP.WaitInit && s.dcsync > 0
  {
    EntryHoldsNothing(s, env, cfg);
  }

  lemma EntryHoldsNothing(s: St, env: ControlEnv, cfg: Config)
    requires !s.opPending
    ensures !EnterSafeOp(s, env, cfg).0.opPending
  {
    InputHoldsNothing(s.(sm2Len := env.rxLen, sm3Len := env.txLen), env.sm23, env.dc, cfg);
  }

  lemma InputHoldsNothing(s: St, sm23: SmCheck, dc: DcCheck, cfg: Config)
    requires !s.opPending
    ensures !StartInput(s, sm23, dc, cfg).0.opPending
  {
  }

  lemma ControlSafe(s: St, env: ControlEnv, cfg: Config)
    requires OutputsMatch(s)
    ensures Safe(s, Control(s, env, cfg)) && Control(s, env, cfg).applied == s.applied
  {
    if !Blocked(s, env.control) {
      PerformSafe(s.(control := env.control, opPending := false), env, cfg);
    }
  }

  lemma PerformSafe(s: St, env: ControlEnv, cfg: Config)
    requires OutputsMatch(s) && !s.opPending
    ensures Safe(s, Perform(s, env, cfg)) && Perform(s, env, cfg).applied == s.applied
  {
    TransitionSafe(s, State(s.status), State(env.control), env, cfg);
    var (s', an) := Transition(s, State(s.status), State(env.control), env, cfg);
    ReportKeeps(s', an, env.control, env.deviceId);
  }

  lemma ReportKeeps(s: St, an: Al, control: u16, deviceId: u16)
    ensures var r := Report(s, an, control, deviceId);
            && State(r.status) == State(an) && HasError(r.status) == HasError(an)
            && r == s.(status := r.status, error := r.error)
  {
    var error := if HasError(an) then s.error else 0;
    if Identifies(an, control, error, deviceId) {
      IdKeepsState(an);
    }
  }

  /** The identification bit does not touch the state or its error indication. */
  lemma IdKeepsState(an: Al)
    ensures State(an + IdBit) == State(an) && HasError(an + IdBit) == HasError(an)
  {
  }

  lemma SmChangeSafe(s: St, env: SmEnv)
    requires OutputsMatch(s)
    ensures Safe(s, SmChange(s, env)) && SmChange(s, env).applied == s.applied
  {
  }

  lemma PendingSafe(s: St, sync0: bool, smEvent: bool, elapsed: nat)
    requires OutputsMatch(s)
    ensures Safe(s, Pending(s, sync0, smEvent, elapsed)) && Pending(s, sync0, smEvent, elapsed).applied == s.applied
  {
  }

  lemma Sync0Safe(s: St, seen: bool)
    requires OutputsMatch(s)
    ensures Safe(s, Sync0(s, seen)) && Sync0(s, seen).applied == s.applied
  {
  }

  lemma WatchdogsSafe(s: St, env: DigEnv, cfg: Config)
    requires OutputsMatch(s)
    ensures Safe(s, Watchdogs(s, env, cfg)) && Watchdogs(s, env, cfg).applied == s.applied
    ensures Watchdogs(s, env, cfg).output ==> s.output
  {
    var s1 := HwWatchdog(s, env).0;
    HwWatchdogSafe(s, env);
    SwWatchdogSafe(s);
    SwWatchdogSafe(s1);
  }

  lemma HwWatchdogSafe(s: St, env: DigEnv)
    requires OutputsMatch(s)
    ensures Safe(s, HwWatchdog(s, env).0) && HwWatchdog(s, env).0.applied == s.applied
    ensures HwWatchdog(s, env).0.output ==> s.output
  {
    GotoErrorSafe(s.(wd := WD.Check(s.wd, WdCall(s, env)).wd), SafeOp + ErrorBit, ErrWatchdog);
  }

  lemma SwWatchdogSafe(s: St)
    requires OutputsMatch(s)
    ensures Safe(s, SwWatchdog(s)) && SwWatchdog(s).applied == s.applied
    ensures SwWatchdog(s).output ==> s.output
  {
  }

  /** Outputs are only applied while the AL status is OP. */
  lemma DigSafe(s: St, env: DigEnv, cfg: Config)
    requires OutputsMatch(s)
    ensures Safe(s, Dig(s, env, cfg))
    ensures Dig(s, env, cfg).applied != s.applied ==>
              State(s.status) == Op && State(Dig(s, env, cfg).status) == Op
  {
    WatchdogsSafe(s, env, cfg);
  }

  lemma CycleSafe(s: St, env: CycleEnv, cfg: Config)
    requires OutputsMatch(s)
    ensures Safe(s, Cycle(s, env, cfg))
  {
    if env.rc == 0 && s.dcsync > 0 && s.output {
      GotoErrorSafe(s.(sync := s.sync.(syncError := true)), SafeOp + ErrorBit, ErrFatalSync);
    } else if env.rc >= 0 {
      var s1 := if env.rc == 0 then Pending(s, false, false, env.timeoutNs) else s;
      PendingSafe(s, false, false, env.timeoutNs);
      var s2 := if env.smEvent then Data(s1, env, cfg) else s1;
      DataSafe(s1, env, cfg);
      var s3 := if env.sync0Event || (s2.dcsync > 0 && env.rc == 1) then SyncEdge(s2, env.timeoutNs) else s2;
      EdgeSafe(s2, env.timeoutNs);
      StateEventsSafe(s3, env, cfg);
    }
  }

  lemma StateEventsSafe(s: St, env: CycleEnv, cfg: Config)
    requires OutputsMatch(s)
    ensures Safe(s, StateEvents(s, env, cfg))
  {
    ControlSafe(s, env.control, cfg);
    SmChangeSafe(if env.controlEvent then Control(s, env.control, cfg) else s, env.sm);
  }

  lemma DataSafe(s: St, env: CycleEnv, cfg: Config)
    requires OutputsMatch(s)
    ensures Safe(s, Data(s, env, cfg))
  {
    DigSafe(if s.dcsync == 0 then s else s.(smEventSeen := true), env.dig.(watchdog := true, rxPdo := true), cfg);
  }

  lemma EdgeSafe(s: St, timeoutNs: nat)
    requires OutputsMatch(s)
    ensures Safe(s, SyncEdge(s, timeoutNs))
  {
    Sync0Safe(s, s.smEventSeen);
    PendingSafe(Sync0(s, s.smEventSeen), true, s.smEventSeen, timeoutNs / 2);
  }

  lemma NextSafe(s: St, e: Ev, cfg: Config)
    requires OutputsMatch(s)
    ensures Safe(s, Next(s, e, cfg))
  {
    match e
    case EvControl(env) => ControlSafe(s, env, cfg);
    case EvSmChange(env) => SmChangeSafe(s, env);
    case EvSync0(seen) => Sync0Safe(s, seen);
    case EvPending(sync0, smEvent, elapsed) => PendingSafe(s, sync0, smEvent, elapsed);
    case EvDig(env) => DigSafe(s, env, cfg);
    case EvError(status, code) => GotoErrorSafe(s, status, code);
    case EvCycle(env) => CycleSafe(s, env, cfg);
  }

  /** How often a run leaves OP. */
  ghost function Departures(s: St, es: seq<Ev>, cfg: Config): nat {
    if es == [] then 0
    else
      var rest := es[..|es| - 1];
      Departures(s, rest, cfg) + (if Departs(Run(s, rest, cfg), Run(s, es, cfg)) then 1 else 0)
  }

  /**
   Output safety over every run: outputs are active exactly in OP, a held request has none, the
   application was put in its safe state at least once for every departure from OP, and outputs were
   only ever applied while the AL status was OP, also in the middle of a DC cycle.
   */
  lemma {:induction false} RunSafe(s: St, es: seq<Ev>, cfg: Config)
    requires OutputsMatch(s)
    ensures OutputsMatch(Run(s, es, cfg))
    ensures Run(s, es, cfg).safeCalls >= s.safeCalls + Departures(s, es, cfg)
    ensures Run(s, es, cfg).applied.outside == s.applied.outside
  {
    if es != [] {
      var rest := es[..|es| - 1];
      RunSafe(s, rest, cfg);
      NextSafe(Run(s, rest, cfg), es[|es| - 1], cfg);
    }
  }

  // ---------------------------------------------------------------- the held request

  /** While a request for OP is held the AL status reads SAFEOP. */
  predicate HeldInSafeOp(s: St) {
    s.opPending ==> State(s.status) == SafeOp
  }

  /** The guards under which the SyncManager change handler steps down from SAFEOP: a running mailbox,
      no blocking error, and either mailbox SyncManagers that do not check out, or active inputs with
      process data SyncManagers that do not. */
  predicate StepsDown(s: St, env: SmEnv) {
    s.mbxRun && !Blocked(s, s.control) && (!env.mbxOk || (s.input && env.sm23 != SmOk))
  }

  lemma HeldControl(s: St, env: ControlEnv, cfg: Config)
    requires OutputsMatch(s) && HeldInSafeOp(s)
    ensures HeldInSafeOp(Control(s, env, cfg))
  {
    if !Blocked(s, env.control) {
      PerformHolds(s.(control := env.control, opPending := false), env, cfg);
    }
  }

  /** A request that is acted upon leaves none held but a new one, in SAFEOP. */
  lemma PerformHolds(s: St, env: ControlEnv, cfg: Config)
    requires !s.opPending
    ensures var t := Perform(s, env, cfg);
            t.opPending ==> State(t.status) == SafeOp && t.wait == OP.WaitInit && s.dcsync > 0
  {
    var (s', an) := Transition(s, State(s.status), State(env.control), env, cfg);
    TransitionHolds(s, State(s.status), State(env.control), env, cfg);
    ReportKeeps(s', an, env.control, env.deviceId);
  }

  /** Every step but a SyncManager change keeps a held request in SAFEOP; a SyncManager change
      does so exactly when it does not step down under a held request. */
  lemma HeldNext(s: St, e: Ev, cfg: Config)
    requires OutputsMatch(s) && HeldInSafeOp(s) && !e.EvCycle?
    ensures !e.EvSmChange? ==> HeldInSafeOp(Next(s, e, cfg))
    ensures e.EvSmChange? ==> (HeldInSafeOp(Next(s, e, cfg)) <==> !(s.opPending && StepsDown(s, e.sm)))
  {
    match e
    case EvControl(env) => HeldControl(s, env, cfg);
    case EvDig(env) => HeldDig(s, env, cfg);
    case _ =>
  }

  /** The DC cycle gets as far as its SyncManager change part, and has a change to handle. */
  predicate ReachesSmChange(s: St, env: CycleEnv) {
    env.rc >= 0 && !(env.rc == 0 && s.dcsync > 0 && s.output) && env.stateEvent && env.smChanged
  }

  /** The state in which the SyncManager change part of a cycle starts. */
  function BeforeSmChange(s: St, env: CycleEnv, cfg: Config): St {
    Cycle(s, env.(smChanged := false), cfg)
  }

  lemma CycleEndsWithSmChange(s: St, env: CycleEnv, cfg: Config)
    ensures var s1 := BeforeSmChange(s, env, cfg);
            Cycle(s, env, cfg) == if ReachesSmChange(s, env) then SmChange(s1, env.sm) else s1
  {
  }

  lemma HeldQuietCycle(s: St, env: CycleEnv, cfg: Config)
    requires OutputsMatch(s) && HeldInSafeOp(s) && !env.smChanged
    ensures HeldInSafeOp(Cycle(s, env, cfg))
  {
    if env.rc >= 0 && !(env.rc == 0 && s.dcsync > 0 && s.output) {
      var s1 := if env.rc == 0 then Pending(s, false, false, env.timeoutNs) else s;
      PendingSafe(s, false, false, env.timeoutNs);
      var s2 := if env.smEvent then Data(s1, env, cfg) else s1;
      DataSafe(s1, env, cfg);
      HeldData(s1, env, cfg);
      EdgeSafe(s2, env.timeoutNs);
      HeldEdge(s2, env.timeoutNs);
      var s3 := if env.sync0Event || (s2.dcsync > 0 && env.rc == 1) then SyncEdge(s2, env.timeoutNs) else s2;
      HeldControl(s3, env.control, cfg);
    }
  }

  /** In a DC cycle the same holds of its last part, the SyncManager change. */
  lemma HeldCycle(s: St, env: CycleEnv, cfg: Config)
    requires OutputsMatch(s) && HeldInSafeOp(s)
    ensures HeldInSafeOp(Cycle(s, env, cfg)) <==> !StepsDownHeld(s, EvCycle(env), cfg)
  {
    var s1 := BeforeSmChange(s, env, cfg);
    CycleEndsWithSmChange(s, env, cfg);
    HeldQuietCycle(s, env.(smChanged := false), cfg);
    CycleSafe(s, env.(smChanged := false), cfg);
    if ReachesSmChange(s, env) {
      HeldNext(s1, EvSmChange(env.sm), cfg);
    }
  }

  lemma HeldDig(s: St, env: DigEnv, cfg: Config)
    requires OutputsMatch(s) && HeldInSafeOp(s)
    ensures HeldInSafeOp(Dig(s, env, cfg))
  {
    HeldHw(s, env);
    HwWatchdogSafe(s, env);
    HeldSw(s);
    HeldSw(HwWatchdog(s, env).0);
  }

  lemma HeldHw(s: St, env: DigEnv)
    requires OutputsMatch(s) && HeldInSafeOp(s)
    ensures HeldInSafeOp(HwWatchdog(s, env).0)
  {
  }

  lemma HeldSw(s: St)
    requires OutputsMatch(s) && HeldInSafeOp(s)
    ensures HeldInSafeOp(SwWatchdog(s))
  {
  }

  lemma HeldData(s: St, env: CycleEnv, cfg: Config)
    requires OutputsMatch(s) && HeldInSafeOp(s)
    ensures HeldInSafeOp(Data(s, env, cfg))
  {
    HeldDig(if s.dcsync == 0 then s else s.(smEventSeen := true), env.dig.(watchdog := true, rxPdo := true), cfg);
  }

  lemma HeldEdge(s: St, timeoutNs: nat)
    requires OutputsMatch(s) && HeldInSafeOp(s)
    ensures HeldInSafeOp(SyncEdge(s, timeoutNs))
  {
  }

  /** A SyncManager change, alone or in a DC cycle, steps down under a held request. */
  predicate StepsDownHeld(s: St, e: Ev, cfg: Config) {
    match e
    case EvSmChange(env) => s.opPending && StepsDown(s, env)
    case EvCycle(env) =>
      var s1 := BeforeSmChange(s, env, cfg);
      ReachesSmChange(s, env) && s1.opPending && StepsDown(s1, env.sm)
    case _ => false
  }

  lemma HeldStep(s: St, e: Ev, cfg: Config)
    requires OutputsMatch(s) && HeldInSafeOp(s)
    ensures HeldInSafeOp(Next(s, e, cfg)) <==> !StepsDownHeld(s, e, cfg)
  {
    match e
    case EvCycle(env) => HeldCycle(s, env, cfg);
    case _ => HeldNext(s, e, cfg);
  }

  /** At point n of a run a held request is in SAFEOP. */
  predicate HeldAt(s: St, es: seq<Ev>, n: nat, cfg: Config)
    requires n <= |es|
  {
    HeldInSafeOp(Run(s, es[..n], cfg))
  }

  /** Event n of a run steps down under a held request. */
  predicate StepsDownAt(s: St, es: seq<Ev>, n: nat, cfg: Config)
    requires n < |es|
  {
    StepsDownHeld(Run(s, es[..n], cfg), es[n], cfg)
  }

  /** None of the first n events, a SyncManager change, steps down under a held request. */
  ghost predicate NoStepDown(s: St, es: seq<Ev>, n: nat, cfg: Config)
    requires n <= |es|
  {
    forall k | 0 <= k < n :: !StepsDownAt(s, es, k, cfg)
  }

  /** A held request is in SAFEOP up to point n of the run. */
  ghost predicate HeldThroughout(s: St, es: seq<Ev>, n: nat, cfg: Config)
    requires n <= |es|
  {
    forall k | 0 <= k <= n :: HeldAt(s, es, k, cfg)
  }

  /** From a point at which it is in SAFEOP, a held request stays there with the next event exactly
      if that does not step down under it. */
  lemma HeldPoint(s: St, es: seq<Ev>, n: nat, cfg: Config)
    requires OutputsMatch(s) && n < |es| && HeldAt(s, es, n, cfg)
    ensures HeldAt(s, es, n + 1, cfg) <==> !StepsDownAt(s, es, n, cfg)
  {
    assert es[..n + 1][..n] == es[..n];
    RunSafe(s, es[..n], cfg);
    HeldStep(Run(s, es[..n], cfg), es[n], cfg);
  }

  lemma HeldAtStart(s: St, es: seq<Ev>, cfg: Config)
    requires HeldInSafeOp(s)
    ensures HeldAt(s, es, 0, cfg)
  {
    assert es[..0] == [];
  }

  lemma {:induction false} HeldUpTo(s: St, es: seq<Ev>, n: nat, cfg: Config)
    requires OutputsMatch(s) && HeldInSafeOp(s) && n <= |es| && NoStepDown(s, es, n, cfg)
    ensures HeldAt(s, es, n, cfg)
  {
    if n == 0 {
      HeldAtStart(s, es, cfg);
    } else {
      HeldUpTo(s, es, n - 1, cfg);
      HeldPoint(s, es, n - 1, cfg);
    }
  }

  /** A held request stays in SAFEOP throughout a run exactly when no SyncManager change of the run
      steps down under it. */
  lemma HeldOverRun(s: St, es: seq<Ev>, n: nat, cfg: Config)
    requires OutputsMatch(s) && HeldInSafeOp(s) && n <= |es|
    ensures HeldThroughout(s, es, n, cfg) <==> NoStepDown(s, es, n, cfg)
  {
    if NoStepDown(s, es, n, cfg) {
      forall k | 0 <= k <= n ensures HeldAt(s, es, k, cfg) {
        HeldUpTo(s, es, k, cfg);
      }
    } else {
      var k :| 0 <= k < n && StepsDownAt(s, es, k, cfg);
      NotThroughout(s, es, n, k, cfg);
    }
  }

  lemma NotThroughout(s: St, es: seq<Ev>, n: nat, k: nat, cfg: Config)
    requires OutputsMatch(s) && k < n <= |es| && StepsDownAt(s, es, k, cfg)
    ensures !HeldThroughout(s, es, n, cfg)
  {
    if HeldAt(s, es, k, cfg) {
      HeldPoint(s, es, k, cfg);
      assert !HeldAt(s, es, k + 1, cfg);
    }
  }

  /**
   The step-down does break it, from every state with a held request, active inputs and a running
   mailbox: the request survives the drop to PREOP with an error, and once synchronisation is good
   the slave goes from there straight to OP.
   */
  lemma HeldRequestOutlivesStepDown(s: St, cfg: Config)
    requires OutputsMatch(s) && HeldInSafeOp(s) && s.opPending && s.input && s.mbxRun && !HasError(s.status)
    requires s.wait == OP.WaitInit && s.limit == 0
    ensures var down := Run(s, [EvSmChange(SmEnv(true, SmBadOutputs))], cfg);
            && down.opPending && State(down.status) == PreOp && HasError(down.status) && !down.input
    ensures var es := [EvSmChange(SmEnv(true, SmBadOutputs)), EvPending(true, true, OP.SyncValidNs)];
            State(Run(s, es, cfg).status) == Op && Run(s, es, cfg).output
  {
    var e1, e2 := EvSmChange(SmEnv(true, SmBadOutputs)), EvPending(true, true, OP.SyncValidNs);
    assert [e1, e2][..1] == [e1] && [e1][..0] == [];
    var down := Next(s, e1, cfg);
    assert Run(s, [e1], cfg) == down;
    assert OP.Step(down.wait, PeriodOf(down, true, true, OP.SyncValidNs)).1 == OP.Accepted;
    assert Run(s, [e1, e2], cfg) == Next(down, e2, cfg);
  }

  // ---------------------------------------------------------------- composition with the monitors

  /** The periods a held request has seen, as recorded by a run of steps on it. */
  ghost predicate HoldsHistory(s: St, h: seq<OP.Period>) {
    s.opPending ==> OP.Run(h) == (s.wait, OP.Held)
  }

  /** A step on a held request is a step of its history: it is answered by the machine exactly as
      the history decides. */
  lemma PendingFollowsHistory(s: St, h: seq<OP.Period>, sync0: bool, smEvent: bool, elapsed: nat)
    requires OutputsMatch(s) && s.opPending && HoldsHistory(s, h)
    ensures var h' := h + [OP.Period(sync0, smEvent, elapsed, s.sync.counter, s.limit, s.sm2Len > 0)];
            var s' := Pending(s, sync0, smEvent, elapsed);
            var verdict := OP.Run(h').1;
            && HoldsHistory(s', h')
            && (s'.opPending <==> verdict == OP.Held)
            && (State(s'.status) == Op && s'.output <==> verdict == OP.Accepted)
            && (verdict == OP.Accepted ==> s'.status == Op && s'.error == 0)
            && (verdict.Refused? ==> s'.status == SafeOp + ErrorBit && s'.error == verdict.code)
  {
    var e := PeriodOf(s, sync0, smEvent, elapsed);
    assert (h + [e])[..|h|] == h;
  }

  /** A request for OP under DC starts with an empty history. */
  lemma RequestStartsHistory(s: St, env: ControlEnv, cfg: Config)
    requires OutputsMatch(s) && !s.opPending && Control(s, env, cfg).opPending
    ensures HoldsHistory(Control(s, env, cfg), []) && State(Control(s, env, cfg).status) == SafeOp && s.dcsync > 0
  {
    PerformHolds(s.(control := env.control, opPending := false), env, cfg);
    assert s.(opPending := false) == s;
  }

  /** A watchdog trip ends the stretch of active outputs: the next check finds none, so the latch
      trips at most once per stretch. */
  lemma TripEndsStretch(s: St, env: DigEnv, next: DigEnv)
    requires OutputsMatch(s) && WD.Check(s.wd, WdCall(s, env)).trip
    ensures var s' := HwWatchdog(s, env).0;
            && s.output && !s'.output && s'.status == SafeOp + ErrorBit && s'.error == ErrWatchdog
            && !WdCall(s', next).active && WD.Check(s'.wd, WdCall(s', next)) == WD.Outcome(WD.WdInit, true, false)
  {
  }

  /** A sync error goes to SAFEOP with AL status code 0x001A and its outputs off, the counter cleared and the
      error latched; no other SYNC0 does more than count. */
  lemma SyncTripStops(s: St, seen: bool)
    requires OutputsMatch(s)
    ensures var s', trip := Sync0(s, seen), SC.Account(s.sync, s.limit, seen).1;
            if trip then
              && s'.status == 0x14 && s'.error == 0x001A && !s'.output && !s'.opPending
              && s'.safeCalls == s.safeCalls + (if s.output then 1 else 0)
              && s'.sync.counter == 0 && s'.sync.syncError
            else s' == s.(sync := s'.sync)
  {
  }
}
