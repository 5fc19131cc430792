/**
 The application layer state machine of the slave, as a transition table: AL control requests,
 SyncManager changes, errors, the held OP request, and the process data step. Registers of the
 EtherCAT slave controller and the application's answers come in as parameters.
 */
module AlSpec {
  import opened Base
  import SC = SyncCounter
  import OP = OpPending
  import WD = Watchdog

  const Init := 1
  const PreOp := 2
  const Boot := 3
  const SafeOp := 4
  const Op := 8
  const ErrorBit := 16
  const IdBit := 32

  const ErrInvalidStateChange: u16 := 0x0011
  const ErrUnknownState: u16 := 0x0012
  const ErrInvalidBootMbx: u16 := 0x0015
  const ErrInvalidMbx: u16 := 0x0016
  const ErrSync: u16 := 0x001A
  const ErrWatchdog: u16 := 0x001B
  const ErrInvalidOutputSm: u16 := 0x001D
  const ErrInvalidInputSm: u16 := 0x001E
  const ErrFatalSync: u16 := 0x002C

  /** A state with its error indication, before the identification bit is added. */
  type Al = x: int | 0 <= x < 32

  /** The four state bits of an AL status or control value. */
  function State(x: nat): nat { x % 16 }

  predicate HasError(x: nat) { x / 16 % 2 == 1 }

  predicate AsksId(x: nat) { x / 32 % 2 == 1 }

  /** How often outputs were applied while the AL status was OP, and while it was not. */
  datatype Applied = Applied(inOp: nat, outside: nat)

  function Apply(a: Applied, status: u8): Applied {
    if State(status) == Op then a.(inOp := a.inOp + 1) else a.(outside := a.outside + 1)
  }

  /** The part of ESCvar and of the statics of ecat_slv.c that the state machine uses, with a record
      of what the application was made to do: how often it was put in its safe state, and how often
      outputs were applied. */
  datatype St = St(
    status: u8, control: u16, error: u16,
    input: bool, output: bool,               // APPSTATE_INPUT and APPSTATE_OUTPUT of App.state
    mbxRun: bool,
    sm2Len: u16, sm3Len: u16, smBadInputs: bool,
    dcsync: u8, limit: u16, sync: SC.Sync, smEventSeen: bool,
    opPending: bool, wait: OP.Wait,
    wd: WD.Wd, swWatchdog: int, watchdogCount: int,
    safeCalls: nat, applied: Applied)

  /** The configuration the application hands over once. */
  datatype Config = Config(useInterrupt: bool, useHwWatchdog: bool)

  // ---------------------------------------------------------------- building blocks

  function StopOutput(s: St): St { s.(output := false, safeCalls := s.safeCalls + 1) }

  function StopInput(s: St): St { s.(input := false, output := false) }

  function StartOutput(s: St): St { s.(output := true) }

  datatype SmCheck = SmOk | SmBadOutputs | SmBadInputs

  /** ESC_checkSM23 leaves the kind of mismatch in SMtestresult. */
  function NoteSm(s: St, c: SmCheck): St {
    if c == SmOk then s else s.(smBadInputs := c == SmBadInputs)
  }

  function SmError(s: St): u16 { if s.smBadInputs then ErrInvalidInputSm else ErrInvalidOutputSm }

  /** The SYNC unit is off, or the application's handler checked it: its result and the sync mode
      and error counter limit it sets. */
  datatype DcCheck = DcOff | DcChecked(code: u16, dcsync: u8, limit: u16)

  function CheckDc(s: St, dc: DcCheck): (St, u16) {
    match dc
    case DcOff => (s.(dcsync := 0, opPending := false, sync := SC.SyncInit, smEventSeen := false), 0)
    case DcChecked(code, dcsync, limit) => (s.(dcsync := dcsync, limit := limit), code)
  }

  /** ESC_ALstatusgotoerror with state hooks that leave their arguments alone. */
  function GotoError(s: St, status: u8, code: u16): St {
    if State(status) >= 8 then s
    else (if s.output then StopOutput(s) else s).(opPending := false, error := code, status := status)
  }

  // ---------------------------------------------------------------- AL control requests

  /** What ESC_state reads and asks for: the AL control register, whether the mailbox
      SyncManagers check out, the sizes and validity of the two mappings, the process data
      SyncManagers, the SYNC unit, and the device identification. */
  datatype ControlEnv = ControlEnv(control: u16, mbxOk: bool, rxLen: u16, rxOk: bool, txLen: u16, txOk: bool,
                                   sm23: SmCheck, dc: DcCheck, deviceId: u16)

  predicate Acknowledges(control: u16) {
    HasError(control) || control % 32 == Init
  }

  /** An error not acknowledged blocks every request. */
  predicate Blocked(s: St, control: u16) {
    HasError(s.status) && !Acknowledges(control)
  }

  predicate IsState(x: nat) {
    x == Init || x == PreOp || x == Boot || x == SafeOp || x == Op
  }

  predicate KnownRequest(from: nat, to: nat) { IsState(from) && IsState(to) }

  /** The transition from one state to another that the request causes: the state machine after
      its side effects, and the status value to report. */
  function Transition(s: St, from: nat, to: nat, env: ControlEnv, cfg: Config): (St, Al) {
    if !KnownRequest(from, to) then
      var s := if from == Op then StopOutput(s) else s;
      var s := if to == 0 && from == SafeOp then StopInput(s) else s;
      (s.(error := ErrUnknownState), (if from == Op then SafeOp else from % 16) + ErrorBit)
    else if to == Init then
      (StopMailbox((if from == Op then StopInput(StopOutput(s)) else if from == SafeOp then StopInput(s) else s), from),
       Init)
    else if (from == Init && to == PreOp) || ((from == Init || from == Boot) && to == Boot) then
      StartMailbox(s, to, env.mbxOk)
    else if from == Init || (from == PreOp && (to == Boot || to == Op)) || (from == Boot) then
      (s.(error := ErrInvalidStateChange), (if from == Init then Init else PreOp) + ErrorBit)
    else if to == Boot then
      ((if from == Op then StopOutput(s) else s).(error := ErrInvalidStateChange), SafeOp + ErrorBit)
    else if to == PreOp then
      (if from == Op then StopInput(StopOutput(s)) else if from == SafeOp then StopInput(s) else s, PreOp)
    else if to == SafeOp then
      if from == Op then (StopOutput(s), SafeOp) else EnterSafeOp(s, env, cfg)
    else if from == SafeOp then RequestOp(s)
    else (s, Op)
  }

  function StopMailbox(s: St, from: nat): St { if from == Init then s else s.(mbxRun := false) }

  function StartMailbox(s: St, to: nat, ok: bool): (St, Al) {
    if ok then (s.(mbxRun := true), to % 16)
    else (s.(mbxRun := false, smBadInputs := false, error := if to == Boot then ErrInvalidBootMbx else ErrInvalidMbx),
          Init + ErrorBit)
  }

  /** Starting inputs: the SyncManagers are checked. */
  function BeginInput(s: St, sm23: SmCheck): (St, Al) {
    var s := NoteSm(s, sm23);
    if sm23 != SmOk then (s.(error := SmError(s)), PreOp + ErrorBit) else (s.(input := true, output := false), SafeOp)
  }

  /** Then the SYNC unit. */
  function FinishInput(s: St, dc: DcCheck): (St, Al) {
    var (s, code) := CheckDc(s, dc);
    if code > 0 then (StopInput(s).(error := code), PreOp + ErrorBit) else (s, SafeOp)
  }

  function StartInput(s: St, sm23: SmCheck, dc: DcCheck, cfg: Config): (St, Al) {
    var (s, an) := BeginInput(s, sm23);
    if an == SafeOp && cfg.useInterrupt then FinishInput(s, dc) else (s, an)
  }

  /** From PREOP or SAFEOP into SAFEOP: size both images, check the SyncManagers, then the SYNC
      unit if the application is interrupt driven. */
  function EnterSafeOp(s: St, env: ControlEnv, cfg: Config): (St, Al) {
    var s := s.(sm2Len := env.rxLen);
    if !env.rxOk then (s.(error := ErrInvalidOutputSm), PreOp + ErrorBit)
    else
      var s := s.(sm3Len := env.txLen);
      if !env.txOk then (s.(error := ErrInvalidInputSm), PreOp + ErrorBit)
      else StartInput(s, env.sm23, env.dc, cfg)
  }

  /** With distributed clocks OP is held until the slave is synchronised, else it starts at once. */
  function RequestOp(s: St): (St, Al) {
    if s.dcsync > 0 then (s.(opPending := true, wait := OP.WaitInit), SafeOp)
    else (StartOutput(s), Op)
  }

  /** Clear the error code of an error-free state, and answer a request for the device id. */
  function Report(s: St, an: Al, control: u16, deviceId: u16): St {
    var error := if HasError(an) then s.error else 0;
    if Identifies(an, control, error, deviceId) then s.(error := deviceId, status := an + IdBit)
    else s.(error := error, status := an)
  }

  /** The request asks for the device id, and no error code is in its place. */
  predicate Identifies(an: Al, control: u16, error: u16, deviceId: u16) {
    var state := control % 16;
    AsksId(control) && state != Boot && (state < SafeOp || an == SafeOp || an == Op) && error == 0 && deviceId != 0
  }

  /** A request that is acted upon. */
  function Perform(s: St, env: ControlEnv, cfg: Config): St {
    var (s, an) := Transition(s, State(s.status), State(env.control), env, cfg);
    Report(s, an, env.control, env.deviceId)
  }

  /** ESC_state: a blocked request is dropped, OP asked for again leaves a held request waiting,
      and any other request ends it and is acted upon. */
  function Control(s: St, env: ControlEnv, cfg: Config): St {
    var s := s.(control := env.control);
    if Blocked(s, env.control) then s
    else if s.opPending && State(s.status) == SafeOp && State(env.control) == Op then s
    else Perform(s.(opPending := false), env, cfg)
  }

  // ---------------------------------------------------------------- SyncManager changes

  datatype SmEnv = SmEnv(mbxOk: bool, sm23: SmCheck)

  /** ESC_sm_act_event: step down to INIT or PREOP when the SyncManagers no longer match. */
  function SmChange(s: St, env: SmEnv): St {
    var as0 := s.status % 32;
    if State(s.status) == 0 || State(s.status) == Init || as0 == Boot || !s.mbxRun then s
    else
      var c := NoteSm(if env.mbxOk then s else s.(smBadInputs := false), env.sm23);
      if Blocked(s, s.control) then c
      else if !env.mbxOk then LoseMailbox(c)
      else if (c.input || c.output) && (env.sm23 != SmOk || as0 == PreOp + ErrorBit) then LoseInputs(c)
      else c
  }

  /** Down to INIT, without a mailbox. */
  function LoseMailbox(s: St): St {
    var s := if s.input || s.output then StopInput(StopOutput(s)) else s;
    s.(mbxRun := false, error := ErrInvalidMbx, status := Init + ErrorBit)
  }

  /** Down to PREOP, without process data. */
  function LoseInputs(s: St): St {
    StopInput(StopOutput(s)).(error := SmError(s), status := PreOp + ErrorBit)
  }

  // ---------------------------------------------------------------- sync, held request, process data

  function Sync0(s: St, seen: bool): St {
    var (sync, trip) := SC.Account(s.sync, s.limit, seen);
    var s := s.(sync := sync);
    if trip then GotoError(s, SafeOp + ErrorBit, ErrSync) else s
  }

  function PeriodOf(s: St, sync0: bool, smEvent: bool, elapsed: nat): OP.Period {
    OP.Period(sync0, smEvent, elapsed, s.sync.counter, s.limit, s.sm2Len > 0)
  }

  function Pending(s: St, sync0: bool, smEvent: bool, elapsed: nat): St {
    if !s.opPending then s
    else
      var (wait, verdict) := OP.Step(s.wait, PeriodOf(s, sync0, smEvent, elapsed));
      Answer(s.(wait := wait), verdict)
  }

  function Answer(s: St, verdict: OP.Verdict): St {
    match verdict
    case Held => s
    case Accepted => StartOutput(s).(opPending := false, error := 0, status := Op)
    case Refused(code) => s.(opPending := false, error := code, status := SafeOp + ErrorBit)
  }

  /** What DIG_process meets: which of its parts to run, and the watchdog registers. */
  datatype DigEnv = DigEnv(watchdog: bool, rxPdo: bool, smEvent: bool, divider: u16, pdTime: u16, statusOk: bool)

  function WdCall(s: St, env: DigEnv): WD.Call {
    WD.Call(s.output && s.sm2Len != 0, env.divider, env.pdTime, env.smEvent, env.statusOk)
  }

  function HwWatchdog(s: St, env: DigEnv): (St, bool) {
    var r := WD.Check(s.wd, WdCall(s, env));
    var s := s.(wd := r.wd);
    (if r.trip then GotoError(s, SafeOp + ErrorBit, ErrWatchdog) else s, r.inCharge)
  }

  function SwWatchdog(s: St): St {
    var s := s.(swWatchdog := if s.swWatchdog > 0 then s.swWatchdog - 1 else s.swWatchdog);
    if s.swWatchdog <= 0 && s.output && s.sm2Len > 0 then GotoError(s, SafeOp + ErrorBit, ErrWatchdog)
    else if !s.output then s.(swWatchdog := s.watchdogCount)
    else s
  }

  function Watchdogs(s: St, env: DigEnv, cfg: Config): St {
    if !env.watchdog then s
    else if !cfg.useHwWatchdog then SwWatchdog(s)
    else
      var (s, inCharge) := HwWatchdog(s, env);
      if inCharge then s else SwWatchdog(s)
  }

  /** DIG_process: the watchdogs first, then new outputs are applied if outputs are active. */
  function Dig(s: St, env: DigEnv, cfg: Config): St {
    var s := Watchdogs(s, env, cfg);
    if env.rxPdo && env.smEvent && s.output then
      s.(swWatchdog := s.watchdogCount, applied := Apply(s.applied, s.status))
    else s
  }

  // ---------------------------------------------------------------- the DC cycle

  /** One turn of ecat_slv_run_dc: the result of the wait, its bound, and for each part that may
      run what it meets. */
  datatype CycleEnv = CycleEnv(rc: int, timeoutNs: nat, smEvent: bool, sync0Event: bool, stateEvent: bool,
                               dig: DigEnv, controlEvent: bool, control: ControlEnv, smChanged: bool, sm: SmEnv)

  function Cycle(s: St, env: CycleEnv, cfg: Config): St {
    if env.rc == 0 && s.dcsync > 0 && s.output then
      GotoError(s.(sync := s.sync.(syncError := true)), SafeOp + ErrorBit, ErrFatalSync)
    else if env.rc < 0 then s
    else
      var s := if env.rc == 0 then Pending(s, false, false, env.timeoutNs) else s;
      var s := if env.smEvent then Data(s, env, cfg) else s;
      var s := if env.sync0Event || (s.dcsync > 0 && env.rc == 1) then SyncEdge(s, env.timeoutNs) else s;
      if env.stateEvent then StateEvents(s, env, cfg) else s
  }

  /** The AL control and SyncManager change events of a pass. */
  function StateEvents(s: St, env: CycleEnv, cfg: Config): St {
    var s := if env.controlEvent then Control(s, env.control, cfg) else s;
    if env.smChanged then SmChange(s, env.sm) else s
  }

  function Data(s: St, env: CycleEnv, cfg: Config): St {
    var s := if s.dcsync == 0 then s else s.(smEventSeen := true);
    Dig(s, env.dig.(watchdog := true, rxPdo := true), cfg)
  }

  function SyncEdge(s: St, timeoutNs: nat): St {
    var seen := s.smEventSeen;
    Pending(Sync0(s, seen), true, seen, timeoutNs / 2).(smEventSeen := false)
  }

  // ---------------------------------------------------------------- runs

  datatype Ev =
    | EvControl(control: ControlEnv)
    | EvSmChange(sm: SmEnv)
    | EvSync0(seen: bool)
    | EvPending(sync0: bool, smEvent: bool, elapsed: nat)
    | EvDig(dig: DigEnv)
    | EvError(status: u8, code: u16)
    | EvCycle(cycle: CycleEnv)

  function Next(s: St, e: Ev, cfg: Config): St {
    match e
    case EvControl(env) => Control(s, env, cfg)
    case EvSmChange(env) => SmChange(s, env)
    case EvSync0(seen) => Sync0(s, seen)
    case EvPending(sync0, smEvent, elapsed) => Pending(s, sync0, smEvent, elapsed)
    case EvDig(env) => Dig(s, env, cfg)
    case EvError(status, code) => GotoError(s, status, code)
    case EvCycle(env) => Cycle(s, env, cfg)
  }

  function Run(s: St, es: seq<Ev>, cfg: Config): St {
    if es == [] then s else Next(Run(s, es[..|es| - 1], cfg), es[|es| - 1], cfg)
  }
}
