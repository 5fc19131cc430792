/**
 What a state means: which of mailbox, inputs and outputs an AL control request starts and stops, and that
 over every run the mailbox runs exactly outside INIT and the inputs in SAFEOP and OP, up to the steps that
 break it.
 */
module AlStates {
  import opened Base
  import opened AlSpec
  import opened AlSafety
  import opened AlHistory
  import opened AlTable
  import SC = SyncCounter
  import OP = OpPending
  import WD = Watchdog

  // ---------------------------------------------------------------- what a request starts and stops

  /** The request sizes both images and checks the SyncManagers. */
  predicate ChecksInputs(from: nat, to: nat) {
    to == SafeOp && (from == PreOp || from == SafeOp)
  }

  /** It gets as far as the SYNC unit. */
  predicate ChecksSync(from: nat, to: nat, env: ControlEnv, cfg: Config) {
    ChecksInputs(from, to) && env.rxOk && env.txOk && env.sm23 == SmOk && cfg.useInterrupt
  }

  predicate ChecksMailbox(from: nat, to: nat) {
    (from == Init && to == PreOp) || ((from == Init || from == Boot) && to == Boot)
  }

  /** Inputs are active after a request. */
  predicate InputAfter(input: bool, from: nat, to: nat, env: ControlEnv, cfg: Config) {
    if ChecksInputs(from, to) && env.rxOk && env.txOk && env.sm23 == SmOk then InputsCheck(env, cfg)
    else if (from == Op && (to == Init || to == PreOp)) || (from == SafeOp && (to < Boot)) then false
    else input
  }

  /** The mailbox runs after a request. */
  predicate MailboxAfter(mbxRun: bool, from: nat, to: nat, env: ControlEnv) {
    if ChecksMailbox(from, to) then env.mbxOk
    else mbxRun && !(to == Init && IsState(from) && from != Init)
  }

  /** What a request from OP does to outputs, it does with the safe state of the application. */
  predicate StopsOutputs(from: nat, to: nat) { from == Op && to != Op }

  /** The images and the SYNC unit after a request. */
  predicate Sized(s: St, t: St, from: nat, to: nat, env: ControlEnv, cfg: Config) {
    && t.sm2Len == (if ChecksInputs(from, to) then env.rxLen else s.sm2Len)
    && t.sm3Len == (if ChecksInputs(from, to) && env.rxOk then env.txLen else s.sm3Len)
    && t.dcsync == (if !ChecksSync(from, to, env, cfg) then s.dcsync else if env.dc.DcOff? then 0 else env.dc.dcsync)
    && t.limit == (if ChecksSync(from, to, env, cfg) && env.dc.DcChecked? then env.dc.limit else s.limit)
    && t.smEventSeen == (s.smEventSeen && !(ChecksSync(from, to, env, cfg) && env.dc.DcOff?))
  }

  /** Which process data SyncManager did not match when last one did not; a failed mailbox check counts as outputs. */
  predicate Noted(s: St, t: St, from: nat, to: nat, env: ControlEnv) {
    t.smBadInputs == if ChecksMailbox(from, to) && !env.mbxOk then false
                     else if ChecksInputs(from, to) && env.rxOk && env.txOk && env.sm23 != SmOk
                     then env.sm23 == SmBadInputs
                     else s.smBadInputs
  }

  /** What a request changes beside the state with its outputs, its error and the sync counter. */
  predicate Effects(s: St, t: St, from: nat, to: nat, env: ControlEnv, cfg: Config) {
    && t.input == InputAfter(s.input, from, to, env, cfg)
    && t.mbxRun == MailboxAfter(s.mbxRun, from, to, env)
    && t.safeCalls == s.safeCalls + (if StopsOutputs(from, to) then 1 else 0)
    && Sized(s, t, from, to, env, cfg) && Noted(s, t, from, to, env)
    && t.swWatchdog == s.swWatchdog && t.watchdogCount == s.watchdogCount && t.applied == s.applied
  }

  lemma UnknownEffects(s: St, from: nat, to: nat, env: ControlEnv, cfg: Config)
    requires from < 16 && to < 16 && !KnownRequest(from, to)
    ensures Effects(s, Transition(s, from, to, env, cfg).0, from, to, env, cfg)
  {
  }

  /** Requests that leave images and SYNC unit alone, with what they may change. */
  predicate Keeps(s: St, t: St) {
    t == s.(mbxRun := t.mbxRun, input := t.input, output := t.output, safeCalls := t.safeCalls,
            smBadInputs := t.smBadInputs, error := t.error, opPending := t.opPending, wait := t.wait)
  }

  lemma InitEffects(s: St, from: nat, env: ControlEnv, cfg: Config)
    requires IsState(from)
    ensures var t := Transition(s, from, Init, env, cfg).0;
            && Keeps(s, t) && t.mbxRun == (s.mbxRun && from == Init)
            && t.input == (s.input && from < SafeOp) && t.safeCalls == s.safeCalls + (if from == Op then 1 else 0)
            && Noted(s, t, from, Init, env)
  {
  }

  lemma PreOpEffects(s: St, from: nat, env: ControlEnv, cfg: Config)
    requires IsState(from)
    ensures var t := Transition(s, from, PreOp, env, cfg).0;
            && Keeps(s, t) && t.mbxRun == (if from == Init then env.mbxOk else s.mbxRun)
            && t.input == (s.input && from < SafeOp) && t.safeCalls == s.safeCalls + (if from == Op then 1 else 0)
            && Noted(s, t, from, PreOp, env)
  {
  }

  lemma BootEffects(s: St, from: nat, env: ControlEnv, cfg: Config)
    requires IsState(from)
    ensures var t := Transition(s, from, Boot, env, cfg).0;
            && Keeps(s, t) && t.mbxRun == (if from == Init || from == Boot then env.mbxOk else s.mbxRun)
            && t.input == s.input && t.safeCalls == s.safeCalls + (if from == Op then 1 else 0)
  {
  }

  lemma BootNotes(s: St, from: nat, env: ControlEnv, cfg: Config)
    requires IsState(from)
    ensures Noted(s, Transition(s, from, Boot, env, cfg).0, from, Boot, env)
  {
  }

  lemma OpEffects(s: St, from: nat, env: ControlEnv, cfg: Config)
    requires IsState(from)
    ensures var t := Transition(s, from, Op, env, cfg).0;
            Keeps(s, t) && t.mbxRun == s.mbxRun && t.input == s.input && t.safeCalls == s.safeCalls
  {
  }

  lemma OpNotes(s: St, from: nat, env: ControlEnv, cfg: Config)
    requires IsState(from)
    ensures Noted(s, Transition(s, from, Op, env, cfg).0, from, Op, env)
  {
  }

  lemma KeepsEffects(s: St, t: St, from: nat, to: nat, env: ControlEnv, cfg: Config)
    requires Keeps(s, t) && !ChecksInputs(from, to)
    requires t.input == InputAfter(s.input, from, to, env, cfg) && t.mbxRun == MailboxAfter(s.mbxRun, from, to, env)
    requires t.safeCalls == s.safeCalls + (if StopsOutputs(from, to) then 1 else 0) && Noted(s, t, from, to, env)
    ensures Effects(s, t, from, to, env, cfg)
  {
  }

  lemma DownEffects(s: St, from: nat, to: nat, env: ControlEnv, cfg: Config)
    requires KnownRequest(from, to) && (to == Init || to == PreOp)
    ensures Effects(s, Transition(s, from, to, env, cfg).0, from, to, env, cfg)
  {
    if to == Init {
      InitEffects(s, from, env, cfg);
    } else {
      PreOpEffects(s, from, env, cfg);
    }
    KeepsEffects(s, Transition(s, from, to, env, cfg).0, from, to, env, cfg);
  }

  lemma OtherEffects(s: St, from: nat, to: nat, env: ControlEnv, cfg: Config)
    requires KnownRequest(from, to) && to > PreOp && !ChecksInputs(from, to)
    ensures Effects(s, Transition(s, from, to, env, cfg).0, from, to, env, cfg)
  {
    if to == Boot {
      BootEffects(s, from, env, cfg);
      BootNotes(s, from, env, cfg);
    } else if to == SafeOp {
      SafeOpEffects(s, from, env, cfg);
    } else {
      OpEffects(s, from, env, cfg);
      OpNotes(s, from, env, cfg);
    }
    KeepsEffects(s, Transition(s, from, to, env, cfg).0, from, to, env, cfg);
  }

  lemma BeginEffects(s: St, sm23: SmCheck)
    ensures var (t, an) := BeginInput(s, sm23);
            && t == s.(input := s.input || sm23 == SmOk, output := t.output, error := t.error,
                       smBadInputs := if sm23 == SmOk then s.smBadInputs else sm23 == SmBadInputs)
            && (an == SafeOp <==> sm23 == SmOk)
  {
  }

  lemma FinishEffects(s: St, dc: DcCheck)
    ensures var t := FinishInput(s, dc).0;
            && t.input == (s.input && (dc.DcChecked? ==> dc.code == 0))
            && t.dcsync == (if dc.DcOff? then 0 else dc.dcsync) && t.limit == (if dc.DcOff? then s.limit else dc.limit)
            && t.smEventSeen == (s.smEventSeen && dc.DcChecked?)
            && t == s.(input := t.input, output := t.output, error := t.error, dcsync := t.dcsync, limit := t.limit,
                       smEventSeen := t.smEventSeen, sync := t.sync, opPending := t.opPending)
  {
  }

  lemma StartEffects(s: St, env: ControlEnv, cfg: Config)
    requires env.rxOk && env.txOk && s.sm2Len == env.rxLen && s.sm3Len == env.txLen
    ensures Effects(s, StartInput(s, env.sm23, env.dc, cfg).0, PreOp, SafeOp, env, cfg)
  {
    BeginEffects(s, env.sm23);
    FinishEffects(BeginInput(s, env.sm23).0, env.dc);
  }

  lemma EntryEffects(s: St, env: ControlEnv, cfg: Config)
    ensures Effects(s, EnterSafeOp(s, env, cfg).0, PreOp, SafeOp, env, cfg)
  {
    if env.rxOk && env.txOk {
      StartEffects(s.(sm2Len := env.rxLen, sm3Len := env.txLen), env, cfg);
    }
  }

  lemma SafeOpEffects(s: St, from: nat, env: ControlEnv, cfg: Config)
    requires IsState(from) && !ChecksInputs(from, SafeOp)
    ensures var t := Transition(s, from, SafeOp, env, cfg).0;
            && Keeps(s, t) && t.mbxRun == s.mbxRun && t.input == s.input
            && t.safeCalls == s.safeCalls + (if from == Op then 1 else 0) && Noted(s, t, from, SafeOp, env)
  {
  }

  lemma InputEffects(s: St, from: nat, env: ControlEnv, cfg: Config)
    requires ChecksInputs(from, SafeOp)
    ensures Effects(s, Transition(s, from, SafeOp, env, cfg).0, from, SafeOp, env, cfg)
  {
    var t := EnterSafeOp(s, env, cfg).0;
    assert Transition(s, from, SafeOp, env, cfg).0 == t;
    EntryEffects(s, env, cfg);
    SameEffects(s, t, from, env, cfg);
  }

  /** PREOP and SAFEOP lead into SAFEOP alike. */
  lemma SameEffects(s: St, t: St, from: nat, env: ControlEnv, cfg: Config)
    requires ChecksInputs(from, SafeOp) && Effects(s, t, PreOp, SafeOp, env, cfg)
    ensures Effects(s, t, from, SafeOp, env, cfg)
  {
  }

  lemma TransitionEffects(s: St, from: nat, to: nat, env: ControlEnv, cfg: Config)
    requires from < 16 && to < 16
    ensures Effects(s, Transition(s, from, to, env, cfg).0, from, to, env, cfg)
  {
    if !KnownRequest(from, to) {
      UnknownEffects(s, from, to, env, cfg);
    } else if to == Init || to == PreOp {
      DownEffects(s, from, to, env, cfg);
    } else if ChecksInputs(from, to) {
      InputEffects(s, from, env, cfg);
    } else {
      OtherEffects(s, from, to, env, cfg);
    }
  }

  lemma PerformEffects(s: St, from: nat, to: nat, env: ControlEnv, cfg: Config)
    requires from == State(s.status) && to == State(env.control)
    ensures Effects(s, Perform(s, env, cfg), from, to, env, cfg)
  {
    var (s', an) := Transition(s, from, to, env, cfg);
    TransitionEffects(s, from, to, env, cfg);
    ReportKeeps(s', an, env.control, env.deviceId);
  }

  /**
   What a request that is acted upon starts and stops: inputs, mailbox, images and SYNC unit follow the
   transition and what it found, and the application is put in its safe state exactly on the way out of OP.
   */
  lemma ControlEffects(s: St, env: ControlEnv, cfg: Config)
    requires Acts(s, env)
    ensures Effects(s, Control(s, env, cfg), State(s.status), State(env.control), env, cfg)
  {
    PerformEffects(s.(control := env.control, opPending := false), State(s.status), State(env.control), env, cfg);
  }

  // ---------------------------------------------------------------- what the states mean

  /** The mailbox runs exactly outside INIT, the inputs are active in SAFEOP and OP, outputs exactly in OP,
      and a request for OP is held in SAFEOP only. */
  predicate Consistent(s: St) {
    && IsState(State(s.status)) && (s.mbxRun <==> State(s.status) != Init)
    && (State(s.status) == SafeOp || State(s.status) == Op ==> s.input)
    && OutputsMatch(s) && HeldInSafeOp(s)
  }

  /** A request for the state 0 in SAFEOP stops the inputs of a slave that stays in SAFEOP. */
  predicate ZeroBreaks(s: St, env: ControlEnv) {
    Acts(s, env) && State(s.status) == SafeOp && State(env.control) == 0
  }

  /** A sync error goes to SAFEOP from wherever the slave is. */
  predicate SyncBreaks(s: St, seen: bool) {
    SC.Account(s.sync, s.limit, seen).1 && !(s.mbxRun && s.input)
  }

  /** An error of the application goes to a state below OP that does not fit. */
  predicate ErrorBreaks(s: St, status: u8) {
    var to := State(status);
    to < Op && !(IsState(to) && (s.mbxRun <==> to != Init) && (to == SafeOp ==> s.input))
  }

  /** A part of a DC cycle breaks it, in the state in which that part runs. */
  predicate CycleBreaks(s: St, env: CycleEnv, cfg: Config) {
    || (Accounts(s, env, cfg) && var s2 := AtEdge(s, env, cfg); SyncBreaks(s2, s2.smEventSeen))
    || (!CutShort(s, env) && env.stateEvent && env.controlEvent && ZeroBreaks(AtEvents(s, env, cfg), env.control))
    || StepsDownHeld(s, EvCycle(env), cfg)
  }

  predicate Breaks(s: St, e: Ev, cfg: Config) {
    match e
    case EvControl(env) => ZeroBreaks(s, env)
    case EvSmChange(_) => StepsDownHeld(s, e, cfg)
    case EvSync0(seen) => SyncBreaks(s, seen)
    case EvError(status, _) => ErrorBreaks(s, status)
    case EvCycle(env) => CycleBreaks(s, env, cfg)
    case _ => false
  }

  /** Consistent after the step, and in a DC cycle also between its parts. */
  predicate Stays(s: St, e: Ev, cfg: Config) {
    && Consistent(Next(s, e, cfg))
    && (e.EvCycle? && !CutShort(s, e.cycle) ==>
          && Consistent(AtData(s, e.cycle)) && Consistent(AtEdge(s, e.cycle, cfg))
          && Consistent(AtEvents(s, e.cycle, cfg)) && Consistent(BeforeSmChange(s, e.cycle, cfg)))
  }

  lemma PerformMeans(s: St, from: nat, to: nat, env: ControlEnv, cfg: Config)
    requires Consistent(s) && !s.opPending && from == State(s.status) && to == State(env.control)
    ensures Consistent(Perform(s, env, cfg)) <==> !(from == SafeOp && to == 0)
  {
    var t := Perform(s, env, cfg);
    PerformSafe(s, env, cfg);
    PerformHolds(s, env, cfg);
    PerformObeys(s, env, cfg);
    PerformEffects(s, from, to, env, cfg);
    var v := Verdict(s, from, to, env, cfg);
    VerdictMeans(s, t, from, to, v, env, cfg);
  }

  lemma VerdictMeans(s: St, t: St, from: nat, to: nat, v: Outcome, env: ControlEnv, cfg: Config)
    requires Consistent(s) && from == State(s.status) && to < 16 && v == Verdict(s, from, to, env, cfg)
    requires Reports(t, to, v, env.deviceId) && Effects(s, t, from, to, env, cfg)
    ensures var st := State(t.status);
            && IsState(st) && (t.mbxRun <==> st != Init)
            && ((st == SafeOp || st == Op ==> t.input) <==> !(from == SafeOp && to == 0))
  {
  }

  lemma ControlMeans(s: St, env: ControlEnv, cfg: Config)
    requires Consistent(s)
    ensures Consistent(Control(s, env, cfg)) <==> !ZeroBreaks(s, env)
  {
    if Acts(s, env) {
      PerformMeans(s.(control := env.control, opPending := false), State(s.status), State(env.control), env, cfg);
    }
  }

  lemma SmChangeMeans(s: St, env: SmEnv, cfg: Config)
    requires Consistent(s)
    ensures Consistent(SmChange(s, env)) <==> !(s.opPending && StepsDown(s, env))
  {
    SmChangeSafe(s, env);
    HeldNext(s, EvSmChange(env), cfg);
    SmChangeStands(s, env);
  }

  lemma SmChangeStands(s: St, env: SmEnv)
    requires Consistent(s)
    ensures var t := SmChange(s, env);
            && IsState(State(t.status)) && (t.mbxRun <==> State(t.status) != Init)
            && (State(t.status) == SafeOp || State(t.status) == Op ==> t.input)
  {
  }

  lemma Sync0Means(s: St, seen: bool)
    requires Consistent(s)
    ensures Consistent(Sync0(s, seen)) <==> !SyncBreaks(s, seen)
    ensures SyncBreaks(s, seen) ==> !Sync0(s, seen).opPending
  {
  }

  lemma PendingMeans(s: St, sync0: bool, smEvent: bool, elapsed: nat)
    requires Consistent(s)
    ensures Consistent(Pending(s, sync0, smEvent, elapsed))
  {
  }

  lemma ErrorMeans(s: St, status: u8, code: u16)
    requires Consistent(s)
    ensures Consistent(GotoError(s, status, code)) <==> !ErrorBreaks(s, status)
  {
  }

  lemma DigMeans(s: St, env: DigEnv, cfg: Config)
    requires Consistent(s)
    ensures Consistent(Dig(s, env, cfg))
  {
    HwMeans(s, env);
    SwMeans(s);
    SwMeans(HwWatchdog(s, env).0);
  }

  lemma HwMeans(s: St, env: DigEnv)
    requires Consistent(s)
    ensures Consistent(HwWatchdog(s, env).0)
  {
  }

  lemma SwMeans(s: St)
    requires Consistent(s)
    ensures Consistent(SwWatchdog(s))
  {
  }

  lemma DataMeans(s: St, env: CycleEnv, cfg: Config)
    requires Consistent(s)
    ensures Consistent(Data(s, env, cfg))
  {
    DigMeans(if s.dcsync == 0 then s else s.(smEventSeen := true), env.dig.(watchdog := true, rxPdo := true), cfg);
  }

  lemma EdgeMeans(s: St, timeoutNs: nat)
    requires Consistent(s)
    ensures Consistent(SyncEdge(s, timeoutNs)) <==> !SyncBreaks(s, s.smEventSeen)
  {
    var seen := s.smEventSeen;
    Sync0Means(s, seen);
    if !SyncBreaks(s, seen) {
      PendingMeans(Sync0(s, seen), true, seen, timeoutNs / 2);
    }
  }

  lemma FatalMeans(s: St)
    requires Consistent(s) && s.output
    ensures Consistent(GotoError(s.(sync := s.sync.(syncError := true)), SafeOp + ErrorBit, ErrFatalSync))
  {
  }

  /** The state before the SyncManager change part, from the one in which the state events start. */
  lemma BeforeParts(s: St, env: CycleEnv, cfg: Config)
    requires !CutShort(s, env)
    ensures var s3 := AtEvents(s, env, cfg);
            var s4 := BeforeSmChange(s, env, cfg);
            s4 == if env.stateEvent && env.controlEvent then Control(s3, env.control, cfg) else s3
  {
  }

  /** The state events, from a consistent state. */
  lemma EventsMean(s3: St, s4: St, t: St, env: CycleEnv, cfg: Config)
    requires Consistent(s3)
    requires s4 == if env.stateEvent && env.controlEvent then Control(s3, env.control, cfg) else s3
    requires t == if env.stateEvent && env.smChanged then SmChange(s4, env.sm) else s4
    ensures Consistent(s4) && Consistent(t) <==>
              && !(env.stateEvent && env.controlEvent && ZeroBreaks(s3, env.control))
              && !(env.stateEvent && env.smChanged && s4.opPending && StepsDown(s4, env.sm))
  {
    ControlMeans(s3, env.control, cfg);
    if Consistent(s4) {
      SmChangeMeans(s4, env.sm, cfg);
    }
  }

  /** The SYNC0 event, from a consistent state. */
  lemma AtEventsMean(s: St, env: CycleEnv, cfg: Config)
    requires Consistent(s) && !CutShort(s, env)
    ensures Consistent(AtData(s, env)) && Consistent(AtEdge(s, env, cfg))
    ensures var s2 := AtEdge(s, env, cfg);
            Consistent(AtEvents(s, env, cfg)) <==> !(Accounts(s, env, cfg) && SyncBreaks(s2, s2.smEventSeen))
  {
    PendingMeans(s, false, false, env.timeoutNs);
    DataMeans(AtData(s, env), env, cfg);
    EdgeMeans(AtEdge(s, env, cfg), env.timeoutNs);
  }

  lemma CycleMeans(s: St, env: CycleEnv, cfg: Config)
    requires Consistent(s)
    ensures Stays(s, EvCycle(env), cfg) <==> !CycleBreaks(s, env, cfg)
  {
    if CutShort(s, env) {
      CutMeans(s, env, cfg);
    } else {
      var s3, s4, t := AtEvents(s, env, cfg), BeforeSmChange(s, env, cfg), Cycle(s, env, cfg);
      AtEventsMean(s, env, cfg);
      BeforeParts(s, env, cfg);
      CycleEndsWithSmChange(s, env, cfg);
      if Consistent(s3) {
        EventsMean(s3, s4, t, env, cfg);
      }
    }
  }

  lemma CutMeans(s: St, env: CycleEnv, cfg: Config)
    requires Consistent(s) && CutShort(s, env)
    ensures Consistent(Cycle(s, env, cfg)) && !CycleBreaks(s, env, cfg)
  {
    if env.rc == 0 {
      FatalMeans(s);
    }
  }

  lemma StepMeans(s: St, e: Ev, cfg: Config)
    requires Consistent(s)
    ensures Stays(s, e, cfg) <==> !Breaks(s, e, cfg)
  {
    match e
    case EvControl(env) => ControlMeans(s, env, cfg);
    case EvSmChange(env) => SmChangeMeans(s, env, cfg);
    case EvSync0(seen) => Sync0Means(s, seen);
    case EvPending(sync0, smEvent, elapsed) => PendingMeans(s, sync0, smEvent, elapsed);
    case EvDig(env) => DigMeans(s, env, cfg);
    case EvError(status, code) => ErrorMeans(s, status, code);
    case EvCycle(env) => CycleMeans(s, env, cfg);
  }

  predicate StaysAt(s: St, es: seq<Ev>, n: nat, cfg: Config)
    requires n < |es|
  {
    Stays(Run(s, es[..n], cfg), es[n], cfg)
  }

  predicate BreaksAt(s: St, es: seq<Ev>, n: nat, cfg: Config)
    requires n < |es|
  {
    Breaks(Run(s, es[..n], cfg), es[n], cfg)
  }

  lemma StayPoint(s: St, es: seq<Ev>, n: nat, cfg: Config)
    requires n < |es| && Consistent(Run(s, es[..n], cfg))
    ensures StaysAt(s, es, n, cfg) <==> !BreaksAt(s, es, n, cfg)
    ensures StaysAt(s, es, n, cfg) ==> Consistent(Run(s, es[..n + 1], cfg))
  {
    assert es[..n + 1][..n] == es[..n];
    StepMeans(Run(s, es[..n], cfg), es[n], cfg);
  }

  /** Up to a step that does not stay and breaks. */
  lemma {:induction false} ConsistentUpTo(s: St, es: seq<Ev>, n: nat, cfg: Config)
    requires Consistent(s) && n <= |es| && forall k | 0 <= k < n :: StaysAt(s, es, k, cfg) || !BreaksAt(s, es, k, cfg)
    ensures Consistent(Run(s, es[..n], cfg))
  {
    if n > 0 {
      ConsistentUpTo(s, es, n - 1, cfg);
      StayPoint(s, es, n - 1, cfg);
    } else {
      assert es[..0] == [];
    }
  }

  /**
   What the states mean over every run from a consistent state, such as INIT after reset: the mailbox runs
   exactly outside INIT and inputs are active in SAFEOP and OP after every step, and between the parts of
   every DC cycle, if and only if no step of the run is one of the four kinds that break it.
   */
  lemma ConsistentOverRun(s: St, es: seq<Ev>, cfg: Config)
    requires Consistent(s)
    ensures (forall k | 0 <= k < |es| :: StaysAt(s, es, k, cfg))
            <==> (forall k | 0 <= k < |es| :: !BreaksAt(s, es, k, cfg))
  {
    forall k | 0 <= k < |es| && forall i | 0 <= i < k :: StaysAt(s, es, i, cfg) || !BreaksAt(s, es, i, cfg)
      ensures StaysAt(s, es, k, cfg) <==> !BreaksAt(s, es, k, cfg)
    {
      ConsistentUpTo(s, es, k, cfg);
      StayPoint(s, es, k, cfg);
    }
  }

  /** The first kind: OP is then entered without inputs. */
  lemma OpWithoutInputs(s: St, zero: ControlEnv, op: ControlEnv, cfg: Config)
    requires Consistent(s) && s.status == SafeOp && !s.opPending && s.dcsync == 0
    requires zero.control == 0 && op.control == ErrorBit + Op
    ensures var t := Run(s, [EvControl(zero), EvControl(op)], cfg);
            State(t.status) == Op && t.output && !t.input
  {
    var es := [EvControl(zero), EvControl(op)];
    assert es[..1] == [EvControl(zero)] && [EvControl(zero)][..0] == [];
    var s1 := Control(s, zero, cfg);
    assert Run(s, es[..1], cfg) == s1;
    StateTable(s, zero, cfg);
    ControlEffects(s, zero, cfg);
    StateTable(s1, op, cfg);
    ControlSafe(s, zero, cfg);
    ControlSafe(s1, op, cfg);
    ControlEffects(s1, op, cfg);
  }

  /** The second: in INIT and PREOP, a sync error reports SAFEOP, without inputs. */
  lemma SyncErrorAnywhere(s: St, seen: bool)
    requires Consistent(s) && (State(s.status) == Init || !s.input) && SC.Account(s.sync, s.limit, seen).1
    ensures var t := Sync0(s, seen); t.status == SafeOp + ErrorBit && !(t.mbxRun && t.input)
  {
  }
}
