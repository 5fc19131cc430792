/**
 Which state a request leads to: the state table of ESC_state, in the terms of the requests and of what
 their checks find, and what the states mean for the mailbox and the inputs over every run.
 */
module AlTable {
  import opened Base
  import opened AlSpec
  import opened AlSafety
  import opened AlHistory

  // ---------------------------------------------------------------- the state table

  /** A request that is acted upon: no error blocks it, and it is not OP asked for again while held. */
  predicate Acts(s: St, env: ControlEnv) {
    && !(HasError(s.status) && !HasError(env.control) && env.control % 32 != Init)
    && !(s.opPending && State(s.status) == SafeOp && State(env.control) == Op)
  }

  /** The transitions of the state machine. */
  predicate Allowed(from: nat, to: nat) {
    match to
    case 1 => from == Init || from == PreOp || from == Boot || from == SafeOp || from == Op
    case 2 => from == Init || from == PreOp || from == SafeOp || from == Op
    case 3 => from == Init || from == Boot
    case 4 => from == PreOp || from == SafeOp || from == Op
    case 8 => from == SafeOp || from == Op
    case _ => false
  }

  /** The SyncManagers and mappings check out, and the SYNC unit if it is asked. */
  predicate InputsCheck(env: ControlEnv, cfg: Config) {
    && env.rxOk && env.txOk && env.sm23 == SmOk
    && (cfg.useInterrupt && env.dc.DcChecked? ==> env.dc.code == 0)
  }

  /** What the transition from one state to another has to check. */
  predicate ChecksPass(s: St, from: nat, to: nat, env: ControlEnv, cfg: Config) {
    && (to == PreOp && from == Init ==> env.mbxOk)
    && (to == Boot ==> env.mbxOk)
    && (to == SafeOp && from != Op ==> InputsCheck(env, cfg))
    && (to == Op && from == SafeOp ==> s.dcsync == 0)
  }

  /** Why a request is refused: the state the slave reports with an error, and the AL status code. */
  datatype Refusal = Refusal(state: nat, code: u16)

  /** The cause of a refusal that is not that of the checks: no such state, or no such transition. */
  function NotAllowed(from: nat, to: nat): Refusal {
    if !(from in {1, 2, 3, 4, 8}) || !(to in {1, 2, 3, 4, 8}) then Refusal(if from == 8 then 4 else from, 0x0012)
    else if from == 1 then Refusal(1, 0x0011)
    else if from == 2 || from == 3 then Refusal(2, 0x0011)
    else Refusal(4, 0x0011)
  }

  /** The first check that fails on the way into a state. */
  function CheckFailed(to: nat, env: ControlEnv): Refusal {
    match to
    case 2 => Refusal(1, 0x0016)
    case 3 => Refusal(1, 0x0015)
    case _ =>
      if !env.rxOk then Refusal(2, 0x001D)
      else if !env.txOk then Refusal(2, 0x001E)
      else if env.sm23 == SmBadOutputs then Refusal(2, 0x001D)
      else if env.sm23 == SmBadInputs then Refusal(2, 0x001E)
      else Refusal(2, if env.dc.DcChecked? then env.dc.code else 0)
  }

  /** The outcome of a request in a state: entered, refused, or held for synchronisation. */
  datatype Outcome = Entered | Refused(why: Refusal) | Waiting

  function Verdict(s: St, from: nat, to: nat, env: ControlEnv, cfg: Config): Outcome {
    if !Allowed(from, to) then Refused(NotAllowed(from, to))
    else if ChecksPass(s, from, to, env, cfg) then Entered
    else if to == Op then Waiting
    else Refused(CheckFailed(to, env))
  }

  /** A transition does what the verdict says. */
  predicate Obeys(s: St, an: Al, to: nat, v: Outcome) {
    match v
    case Entered => an == to && !s.opPending
    case Refused(why) => why.code != 0 && an == why.state + 16 && s.error == why.code && !s.opPending
    case Waiting => an == SafeOp && s.opPending
  }

  lemma UnknownObeys(s: St, from: nat, to: nat, env: ControlEnv, cfg: Config)
    requires !s.opPending && from < 16 && to < 16 && !(IsState(from) && IsState(to))
    ensures var (s', an) := Transition(s, from, to, env, cfg); Obeys(s', an, to, Verdict(s, from, to, env, cfg))
  {
  }

  lemma InitObeys(s: St, from: nat, env: ControlEnv, cfg: Config)
    requires !s.opPending && IsState(from)
    ensures var (s', an) := Transition(s, from, Init, env, cfg);
            Obeys(s', an, Init, Verdict(s, from, Init, env, cfg))
  {
  }

  lemma PreOpObeys(s: St, from: nat, env: ControlEnv, cfg: Config)
    requires !s.opPending && IsState(from)
    ensures var (s', an) := Transition(s, from, PreOp, env, cfg);
            Obeys(s', an, PreOp, Verdict(s, from, PreOp, env, cfg))
  {
  }

  lemma BootObeys(s: St, from: nat, env: ControlEnv, cfg: Config)
    requires !s.opPending && IsState(from)
    ensures var (s', an) := Transition(s, from, Boot, env, cfg);
            Obeys(s', an, Boot, Verdict(s, from, Boot, env, cfg))
  {
  }

  lemma OpObeys(s: St, from: nat, env: ControlEnv, cfg: Config)
    requires !s.opPending && IsState(from)
    ensures var (s', an) := Transition(s, from, Op, env, cfg);
            Obeys(s', an, Op, Verdict(s, from, Op, env, cfg))
  {
  }

  lemma StartObeys(s: St, env: ControlEnv, cfg: Config)
    requires !s.opPending && env.rxOk && env.txOk
    ensures var (s', an) := StartInput(s, env.sm23, env.dc, cfg);
            && !s'.opPending
            && (if InputsCheck(env, cfg) then an == SafeOp
                else var why := CheckFailed(SafeOp, env);
                     why.code != 0 && an == why.state + 16 && s'.error == why.code)
  {
  }

  lemma EntryObeys(s: St, env: ControlEnv, cfg: Config)
    requires !s.opPending
    ensures var (s', an) := EnterSafeOp(s, env, cfg);
            && !s'.opPending
            && (if InputsCheck(env, cfg) then an == SafeOp
                else var why := CheckFailed(SafeOp, env);
                     why.code != 0 && an == why.state + 16 && s'.error == why.code)
  {
    if env.rxOk && env.txOk {
      StartObeys(s.(sm2Len := env.rxLen, sm3Len := env.txLen), env, cfg);
    }
  }

  lemma SafeOpObeys(s: St, from: nat, env: ControlEnv, cfg: Config)
    requires !s.opPending && IsState(from)
    ensures var (s', an) := Transition(s, from, SafeOp, env, cfg);
            Obeys(s', an, SafeOp, Verdict(s, from, SafeOp, env, cfg))
  {
    EntryObeys(s, env, cfg);
  }

  lemma TransitionObeys(s: St, from: nat, to: nat, env: ControlEnv, cfg: Config)
    requires !s.opPending && from < 16 && to < 16
    ensures var (s', an) := Transition(s, from, to, env, cfg); Obeys(s', an, to, Verdict(s, from, to, env, cfg))
  {
    if !(IsState(from) && IsState(to)) {
      UnknownObeys(s, from, to, env, cfg);
    } else if to == Init {
      InitObeys(s, from, env, cfg);
    } else if to == PreOp {
      PreOpObeys(s, from, env, cfg);
    } else if to == Boot {
      BootObeys(s, from, env, cfg);
    } else if to == SafeOp {
      SafeOpObeys(s, from, env, cfg);
    } else {
      OpObeys(s, from, env, cfg);
    }
  }

  /** What the slave reports after a transition: the code of an error, or none but a device id. */
  predicate Reports(t: St, to: nat, v: Outcome, deviceId: u16) {
    match v
    case Entered => Stands(t, to) && !t.opPending && (t.error != 0 ==> t.error == deviceId)
    case Refused(why) => t.status == why.state + 16 && t.error == why.code && why.code != 0 && !t.opPending
    case Waiting => Stands(t, SafeOp) && t.opPending && (t.error != 0 ==> t.error == deviceId)
  }

  /** The slave is in this state, without an error. */
  predicate Stands(t: St, state: nat) { State(t.status) == state && !HasError(t.status) }

  lemma ReportObeys(s: St, an: Al, to: nat, v: Outcome, control: u16, deviceId: u16)
    requires Obeys(s, an, to, v) && to < 16 && (v.Refused? ==> v.why.state < 16)
    ensures Reports(Report(s, an, control, deviceId), to, v, deviceId)
  {
    if v.Refused? {
      ErrorBitIn(v.why.state);
      ReportsError(s, an, control, deviceId);
    } else {
      NoErrorBit(if v.Entered? then to else SafeOp);
      ReportKeeps(s, an, control, deviceId);
      ReportsNone(s, an, control, deviceId);
    }
  }

  lemma ReportsError(s: St, an: Al, control: u16, deviceId: u16)
    requires HasError(an) && s.error != 0
    ensures Report(s, an, control, deviceId) == s.(status := an)
  {
  }

  lemma ReportsNone(s: St, an: Al, control: u16, deviceId: u16)
    requires !HasError(an)
    ensures Report(s, an, control, deviceId).error != 0 ==> Report(s, an, control, deviceId).error == deviceId
  {
  }

  lemma NoErrorBit(state: nat)
    requires state < 16
    ensures !HasError(state) && State(state) == state
  {
  }

  /**
   The state table. A request that is acted upon leads into the state it asks for, without an error, when
   the transition is allowed and its own checks pass. If not, the slave reports the state and the AL status
   code of what was wrong; only a request for OP under distributed clocks waits, in SAFEOP. A request that
   is not acted upon changes nothing.
   */
  lemma StateTable(s: St, env: ControlEnv, cfg: Config)
    ensures var t, from, to := Control(s, env, cfg), State(s.status), State(env.control);
            if Acts(s, env) then Reports(t, to, Verdict(s, from, to, env, cfg), env.deviceId)
            else t == s.(control := env.control)
  {
    if Acts(s, env) {
      PerformObeys(s.(control := env.control, opPending := false), env, cfg);
    }
  }

  lemma PerformObeys(s: St, env: ControlEnv, cfg: Config)
    requires !s.opPending
    ensures var from, to := State(s.status), State(env.control);
            Reports(Perform(s, env, cfg), to, Verdict(s, from, to, env, cfg), env.deviceId)
  {
    var from, to := State(s.status), State(env.control);
    var (s', an) := Transition(s, from, to, env, cfg);
    TransitionObeys(s, from, to, env, cfg);
    ReportObeys(s', an, to, Verdict(s, from, to, env, cfg), env.control, env.deviceId);
  }

  /** So a state is entered if and only if its transition is allowed and its checks pass. */
  lemma EnteredIff(s: St, env: ControlEnv, cfg: Config)
    requires Acts(s, env)
    ensures var t, from, to := Control(s, env, cfg), State(s.status), State(env.control);
            && (Stands(t, to) <==> Allowed(from, to) && ChecksPass(s, from, to, env, cfg))
            && (t.opPending <==> Allowed(from, to) && to == Op && !ChecksPass(s, from, to, env, cfg))
  {
    StateTable(s, env, cfg);
  }

  /** The identification: a request for the device id is answered with it, in the AL status code and with
      the identification bit, exactly if it succeeds or waits and there is an id, but for BOOT. */
  lemma IdentifiedIff(s: St, env: ControlEnv, cfg: Config)
    requires Acts(s, env)
    ensures var t := Control(s, env, cfg);
            && (AsksId(t.status) <==>
                AsksId(env.control) && env.deviceId != 0 && State(env.control) != Boot && !HasError(t.status))
            && (AsksId(t.status) ==> t.error == env.deviceId)
  {
    var s0 := s.(control := env.control, opPending := false);
    PerformIds(s0, State(s.status), State(env.control), env, cfg);
  }

  lemma PerformIds(s: St, from: nat, to: nat, env: ControlEnv, cfg: Config)
    requires !s.opPending && from == State(s.status) && to == State(env.control)
    ensures var t := Perform(s, env, cfg);
            && (AsksId(t.status) <==>
                AsksId(env.control) && env.deviceId != 0 && to != Boot && !HasError(t.status))
            && (AsksId(t.status) ==> t.error == env.deviceId)
  {
    var (s', an) := Transition(s, from, to, env, cfg);
    TransitionObeys(s, from, to, env, cfg);
    ErrorIffRefused(s', an, to, Verdict(s, from, to, env, cfg));
    ReportKeeps(s', an, env.control, env.deviceId);
    ReportIds(s', an, env.control, env.deviceId);
  }

  lemma ErrorIffRefused(s: St, an: Al, to: nat, v: Outcome)
    requires Obeys(s, an, to, v) && to < 16 && (v.Refused? ==> v.why.state < 16)
    ensures HasError(an) ==> s.error != 0
    ensures !HasError(an) ==> an == to || an == SafeOp
  {
    if v.Refused? {
      ErrorBitIn(v.why.state);
    }
  }

  lemma ErrorBitIn(state: nat)
    requires state < 16
    ensures HasError(state + 16)
  {
  }

  lemma ReportIds(s: St, an: Al, control: u16, deviceId: u16)
    ensures var r := Report(s, an, control, deviceId);
            && (AsksId(r.status) <==> Identifies(an, control, if HasError(an) then s.error else 0, deviceId))
            && (AsksId(r.status) ==> r.error == deviceId)
  {
    IdBits(an);
  }

  lemma IdBits(an: Al)
    ensures AsksId(an + IdBit) && !AsksId(an)
  {
  }

  // ---------------------------------------------------------------- what happens without a request

  /** Nobody looks at the SyncManagers: there is no mailbox, or the slave is in INIT or, without an error, BOOT. */
  predicate Unwatched(s: St) {
    !s.mbxRun || State(s.status) == 0 || State(s.status) == Init || s.status % 32 == Boot
  }

  /** What does not match is acted upon, without an error that waits for its acknowledgement. */
  predicate WatchesSm(s: St) {
    && !Unwatched(s)
    && (HasError(s.status) ==> HasError(s.control) || s.control % 32 == Init)
  }

  /** The error code of process data SyncManagers that do not match, or did not when last they were checked. */
  function SmCode(s: St, env: SmEnv): u16 {
    if env.sm23 == SmBadInputs || (env.sm23 == SmOk && s.smBadInputs) then 0x001E else 0x001D
  }

  /**
   A SyncManager change. Mailbox SyncManagers that do not match lead to INIT without a mailbox; process data
   SyncManagers that do not match lead to PREOP if inputs or outputs are active, and so does any change while
   they are active in PREOP with an error. Everything active stops, with the application in its safe state.
   Otherwise the state stays.
   */
  lemma SmChangeTable(s: St, env: SmEnv)
    ensures var t, active := SmChange(s, env), s.input || s.output;
            if WatchesSm(s) && !env.mbxOk then
              && t.status == 0x11 && t.error == 0x0016 && !t.mbxRun && !t.input && !t.output
              && t.safeCalls == s.safeCalls + (if active then 1 else 0)
            else if WatchesSm(s) && active && (env.sm23 != SmOk || s.status % 32 == 0x12) then
              && t.status == 0x12 && t.error == SmCode(s, env) && t.mbxRun && !t.input && !t.output
              && t.safeCalls == s.safeCalls + 1
            else t == s.(smBadInputs := t.smBadInputs)
  {
  }

  /** What does not match is remembered, acted upon or not. */
  lemma SmChangeNotes(s: St, env: SmEnv)
    ensures SmChange(s, env).smBadInputs
         == if Unwatched(s) then s.smBadInputs
            else if env.sm23 != SmOk then env.sm23 == SmBadInputs
            else env.mbxOk && s.smBadInputs
  {
  }

  /** SYNC0 missing under active outputs cuts a DC cycle short: SAFEOP with AL status code 0x002C. */
  lemma FatalSync(s: St, env: CycleEnv, cfg: Config)
    requires OutputsMatch(s) && env.rc == 0 && s.dcsync > 0 && s.output
    ensures var t := Cycle(s, env, cfg);
            && t.status == 0x14 && t.error == 0x002C && !t.output && t.safeCalls == s.safeCalls + 1
            && t.sync == s.sync.(syncError := true) && t.applied == s.applied && t.wd == s.wd
  {
  }
}
