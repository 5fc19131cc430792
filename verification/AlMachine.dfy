/** The AL state machine and its monitors over mutable state, as esc.c and ecat_slv.c have them. */
module AlMachine {
  import opened Base
  import opened AlSpec
  import SC = SyncCounter
  import OP = OpPending
  import WD = Watchdog

  class Slave {
    // ESCvar
    var ALstatus: u8
    var ALcontrol: u16
    var ALerror: u16
    var appInput: bool          // APPSTATE_INPUT in App.state
    var appOutput: bool         // APPSTATE_OUTPUT in App.state
    var MBXrun: bool
    var sm2Len: u16
    var sm3Len: u16
    var smBadInputs: bool       // SMRESULT_ERRSM3 in SMtestresult
    var dcsync: u8
    var synccounterlimit: u16
    var synccounter: int        // int16_t
    var smeventmissed: u16
    var syncerror: bool
    var smEventSeen: bool
    var opPending: bool
    var opSeenSync0: bool
    var opSeenSm: bool
    var opPendingNs: nat        // uint64_t
    var opValidNs: nat          // uint64_t
    var watchdogcnt: int
    // statics of ecat_slv.c
    var watchdog: int
    var hwWdState: WD.Latch
    var hwWdQuiet: nat
    const cfg: Config
    // what the application was made to do
    ghost var safeCalls: nat
    ghost var applied: Applied

    ghost function Abs(): St
      reads this
    {
      St(ALstatus, ALcontrol, ALerror, appInput, appOutput, MBXrun, sm2Len, sm3Len, smBadInputs,
         dcsync, synccounterlimit, SC.Sync(synccounter, smeventmissed, syncerror), smEventSeen,
         opPending, OP.Wait(opPendingNs, opValidNs, opSeenSync0, opSeenSm),
         WD.Wd(hwWdState, hwWdQuiet), watchdog, watchdogcnt, safeCalls, applied)
    }

    /** ecat_slv_init leaves the slave in INIT with mailbox, inputs and outputs stopped. */
    constructor (cfg: Config, watchdogCount: int)
      ensures this.cfg == cfg
      ensures Abs() == St(Init, 0, 0, false, false, false, 0, 0, false, 0, 0, SC.SyncInit, false, false,
                          OP.WaitInit, WD.WdInit, watchdogCount, watchdogCount, 0, Applied(0, 0))
    {
      this.cfg := cfg;
      ALstatus, ALcontrol, ALerror := Init, 0, 0;
      appInput, appOutput, MBXrun := false, false, false;
      sm2Len, sm3Len, smBadInputs := 0, 0, false;
      dcsync, synccounterlimit, synccounter, smeventmissed, syncerror, smEventSeen := 0, 0, 0, 0, false, false;
      opPending, opSeenSync0, opSeenSm, opPendingNs, opValidNs := false, false, false, 0, 0;
      watchdogcnt, watchdog, hwWdState, hwWdQuiet := watchdogCount, watchdogCount, WD.Unchecked, 0;
      safeCalls, applied := 0, Applied(0, 0);
    }

    /** ESC_stopoutput, with its call of APP_safe_state. */
    method StopOutputs()
      modifies `appOutput, `safeCalls
      ensures Abs() == StopOutput(old(Abs()))
      ensures ALcontrol == old(ALcontrol)
    {
      appOutput := false;
      safeCalls := safeCalls + 1;
    }

    /** ESC_stopinput. */
    method StopInputs()
      modifies `appInput, `appOutput
      ensures Abs() == StopInput(old(Abs()))
      ensures ALcontrol == old(ALcontrol)
    {
      appInput, appOutput := false, false;
    }

    /** ESC_startmbx and ESC_startmbxboot; ok is the result of ESC_checkmbx. */
    method StartMbx(to: nat, ok: bool, code: u16) returns (an: Al)
      requires to < 16
      modifies `MBXrun, `smBadInputs, `ALerror
      ensures an == if ok then to else Init + ErrorBit
      ensures ALcontrol == old(ALcontrol)
      ensures Abs() == if ok then old(Abs()).(mbxRun := true)
                       else old(Abs()).(mbxRun := false, smBadInputs := false, error := code)
    {
      if ok {
        MBXrun := true;
        an := to;
      } else {
        smBadInputs := false;
        ALerror := code;
        MBXrun := false;
        an := Init + ErrorBit;
      }
    }

    /** The sync error counter and its record, cleared. */
    method ResetSync()
      modifies `synccounter, `smeventmissed, `syncerror
      ensures Abs() == old(Abs()).(sync := SC.SyncInit)
    {
      synccounter, smeventmissed, syncerror := 0, 0, false;
    }

    /** ESC_checkDC without a SYNC unit in use. */
    method ClearSync()
      modifies `dcsync, `opPending, `synccounter, `smeventmissed, `syncerror, `smEventSeen
      ensures Abs() == old(Abs()).(dcsync := 0, opPending := false, sync := SC.SyncInit, smEventSeen := false)
    {
      dcsync, opPending, smEventSeen := 0, false, false;
      ResetSync();
    }

    /** ESC_checkDC, with the handler's answer. */
    method CheckDcUnit(dc: DcCheck) returns (code: u16)
      modifies this
      ensures (Abs(), code) == CheckDc(old(Abs()), dc)
      ensures ALcontrol == old(ALcontrol)
    {
      match dc {
        case DcChecked(result, mode, limit) =>
          dcsync := mode;
          synccounterlimit := limit;
          code := result;
        case DcOff =>
          ClearSync();
          code := 0;
      }
    }

    /** The part of ESC_startinput that the SyncManager check decides. */
    method BeginInput(sm23: SmCheck) returns (an: Al)
      modifies `smBadInputs, `appInput, `appOutput, `ALerror
      ensures (Abs(), an) == AlSpec.BeginInput(old(Abs()), sm23)
    {
      an := SafeOp;
      if sm23 != SmOk {
        smBadInputs := sm23 == SmBadInputs;
        an := PreOp + ErrorBit;
      }
      if an != PreOp + ErrorBit {
        appInput, appOutput := true, false;
      } else {
        if smBadInputs {
          ALerror := ErrInvalidInputSm;
        } else {
          ALerror := ErrInvalidOutputSm;
        }
      }
    }

    /** The part of ESC_startinput for an application that is interrupt driven. */
    method FinishInput(dc: DcCheck) returns (an: Al)
      modifies this
      ensures (Abs(), an) == AlSpec.FinishInput(old(Abs()), dc)
      ensures ALcontrol == old(ALcontrol)
    {
      an := SafeOp;
      var result := CheckDcUnit(dc);
      if result > 0 {
        ALerror := result;
        an := PreOp + ErrorBit;
        appInput, appOutput := false, false;
      }
    }

    /** ESC_startinput called with the state SAFEOP. */
    method StartInput(sm23: SmCheck, dc: DcCheck) returns (an: Al)
      modifies this
      ensures (Abs(), an) == AlSpec.StartInput(old(Abs()), sm23, dc, cfg)
      ensures ALcontrol == old(ALcontrol)
    {
      an := BeginInput(sm23);
      if !cfg.useInterrupt {
        return;
      }
      if an != PreOp + ErrorBit {
        an := FinishInput(dc);
      }
    }

    /** The PREOP_TO_SAFEOP and SAFEOP_TO_SAFEOP case of ESC_state. */
    method ToSafeOp(env: ControlEnv) returns (an: Al)
      modifies this
      ensures Abs() == EnterSafeOp(old(Abs()), env, cfg).0 && an == EnterSafeOp(old(Abs()), env, cfg).1
      ensures ALcontrol == old(ALcontrol)
    {
      sm2Len := env.rxLen;
      if !env.rxOk {
        an := PreOp + ErrorBit;
        ALerror := ErrInvalidOutputSm;
        return;
      }
      sm3Len := env.txLen;
      if !env.txOk {
        an := PreOp + ErrorBit;
        ALerror := ErrInvalidInputSm;
        return;
      }
      an := StartInput(env.sm23, env.dc);
    }

    /** The cases of the switch that stop the mailbox on the way into INIT. */
    method LeaveToInit(from: nat)
      modifies `appInput, `appOutput, `MBXrun, `safeCalls
      ensures Abs() == (if from == Op then StopInput(StopOutput(old(Abs())))
                        else if from == SafeOp then StopInput(old(Abs())) else old(Abs())).(mbxRun := false)
    {
      if from == Op {
        StopOutputs();
      }
      if from == Op || from == SafeOp {
        StopInputs();
      }
      MBXrun := false;
    }

    /** The cases of the switch of ESC_state for requests into INIT, PREOP and BOOT; the new state
        is in the high four bits of as8, the old state in the low. */
    method SwitchDown(as8: nat, from: nat, to: nat, env: ControlEnv) returns (an: Al)
      requires KnownRequest(from, to) && as8 == 16 * to + from && to < SafeOp
      modifies this
      ensures Abs() == Transition(old(Abs()), from, to, env, cfg).0
              && an == Transition(old(Abs()), from, to, env, cfg).1
      ensures ALcontrol == old(ALcontrol)
    {
      an := from;
      match as8 {
        case 0x11 | 0x22 =>
        case 0x21 =>
          an := StartMbx(to, env.mbxOk, ErrInvalidMbx);
        case 0x31 | 0x33 =>
          an := StartMbx(to, env.mbxOk, ErrInvalidBootMbx);
        case 0x12 | 0x13 | 0x14 | 0x18 =>
          LeaveToInit(from);
          an := Init;
        case 0x32 | 0x23 =>
          an := PreOp + ErrorBit;
          ALerror := ErrInvalidStateChange;
        case 0x28 | 0x24 =>
          LeaveToPreOp(from);
          an := PreOp;
        case _ =>   // 0x34 and 0x38
          LeaveToBoot(from);
          an := SafeOp + ErrorBit;
      }
    }

    /** The cases OP_TO_PREOP and SAFEOP_TO_PREOP. */
    method LeaveToPreOp(from: nat)
      modifies `appInput, `appOutput, `safeCalls
      ensures Abs() == if from == Op then StopInput(StopOutput(old(Abs()))) else StopInput(old(Abs()))
    {
      if from == Op {
        StopOutputs();
      }
      StopInputs();
    }

    /** The cases SAFEOP_TO_BOOT and OP_TO_BOOT. */
    method LeaveToBoot(from: nat)
      modifies `appOutput, `safeCalls, `ALerror
      ensures Abs() == (if from == Op then StopOutput(old(Abs())) else old(Abs())).(error := ErrInvalidStateChange)
    {
      ALerror := ErrInvalidStateChange;
      if from == Op {
        StopOutputs();
      }
    }

    /** The SAFEOP_TO_OP case: the request is held while SYNC0 is in use. */
    method EnterOp() returns (an: Al)
      modifies this
      ensures (Abs(), an) == RequestOp(old(Abs())) && ALcontrol == old(ALcontrol)
    {
      if dcsync > 0 {
        opPending, opSeenSync0, opSeenSm, opPendingNs, opValidNs := true, false, false, 0, 0;
        an := SafeOp;
      } else {
        appOutput := true;
        an := Op;
      }
    }

    /** The cases for requests into SAFEOP and OP. */
    method SwitchUp(as8: nat, from: nat, to: nat, env: ControlEnv) returns (an: Al)
      requires KnownRequest(from, to) && as8 == 16 * to + from && to >= SafeOp
      modifies this
      ensures Abs() == Transition(old(Abs()), from, to, env, cfg).0
              && an == Transition(old(Abs()), from, to, env, cfg).1
      ensures ALcontrol == old(ALcontrol)
    {
      an := from;
      match as8 {
        case 0x88 =>
        case 0x41 | 0x81 =>
          an := Init + ErrorBit;
          ALerror := ErrInvalidStateChange;
        case 0x43 | 0x83 | 0x82 =>
          an := PreOp + ErrorBit;
          ALerror := ErrInvalidStateChange;
        case 0x42 | 0x44 =>
          an := ToSafeOp(env);
        case 0x84 =>
          an := EnterOp();
        case _ =>   // 0x48
          an := SafeOp;
          StopOutputs();
      }
    }

    /** The switch of ESC_state. */
    method Switch(as8: nat, from: nat, to: nat, env: ControlEnv) returns (an: Al)
      requires from < 16 && to < 16 && as8 == 16 * to + from
      modifies this
      ensures Abs() == Transition(old(Abs()), from, to, env, cfg).0
              && an == Transition(old(Abs()), from, to, env, cfg).1
      ensures ALcontrol == old(ALcontrol)
    {
      if IsState(from) && IsState(to) {
        if to < SafeOp {
          an := SwitchDown(as8, from, to, env);
        } else {
          an := SwitchUp(as8, from, to, env);
        }
        return;
      }
      an := from;
      if an == Op {
        StopOutputs();
        an := SafeOp;
      }
      if as8 == SafeOp {
        StopInputs();
      }
      an := an + ErrorBit;
      ALerror := ErrUnknownState;
    }

    /** Bits 0 to 4 of a register. */
    lemma LowBits(x: nat)
      ensures x % 32 % 16 == x % 16 && x % 32 / 16 == x / 16 % 2
    {
      var q, r := x / 32, x % 32;
      var a, b := r / 16, r % 16;
      DivIs(x, 2 * q + a, b);
      EvenPlus(q, a);
    }

    lemma DivIs(x: nat, q: nat, b: nat)
      requires x == 16 * q + b && b < 16
      ensures x / 16 == q && x % 16 == b
    {
    }

    lemma EvenPlus(q: nat, a: nat)
      requires a < 2
      ensures (2 * q + a) % 2 == a
    {
    }

    /** The masks ESC_state and ESC_sm_act_event apply to AL control and AL status: the old and
        the requested state, and whether an error not acknowledged blocks the request. */
    method Masks() returns (from: nat, to: nat, blocked: bool)
      ensures from == State(ALstatus) && to == State(ALcontrol)
      ensures blocked == Blocked(Abs(), ALcontrol)
    {
      var ac, an := ALcontrol % 32, ALstatus % 32;
      LowBits(ALcontrol);
      LowBits(ALstatus);
      from := an % 16;
      if ac / 16 == 1 || ac == Init {
        ac, an := ac % 16, an % 16;
      }
      blocked := an / 16 == 1 && ac / 16 != 1;
      to := ac % 16;
    }

    /** The end of ESC_state: the error code is cleared in an error-free state, an identification
        request may load the device id into it, and the AL status is written. */
    method ReportState(an: Al, deviceId: u16)
      modifies this
      ensures Abs() == Report(old(Abs()), an, ALcontrol, deviceId)
    {
      if an / 16 != 1 {
        ClearError();
      }
      var id := LoadId(an, deviceId);
      ALstatus := an + id;
    }

    /** The identification request of ESC_state: the bit for AL status. */
    method LoadId(an: Al, deviceId: u16) returns (id: nat)
      modifies `ALerror
      ensures id == if Identifies(an, ALcontrol, old(ALerror), deviceId) then IdBit else 0
      ensures ALerror == if id == IdBit then deviceId else old(ALerror)
    {
      id := 0;
      if ALcontrol / 32 % 2 == 1 {
        var state := ALcontrol % 16;
        if state != Boot && (state < SafeOp || an == SafeOp || an == Op) && ALerror == 0 && deviceId != 0 {
          ALerror := deviceId;
          id := IdBit;
        }
      }
    }

    /** ESC_state when an AL control event is present. */
    method HandleControl(env: ControlEnv)
      modifies this
      ensures Abs() == Control(old(Abs()), env, cfg)
    {
      ALcontrol := env.control;
      var from, to, blocked := Masks();
      if blocked {
        return;
      }
      if opPending {
        if 16 * to + from == 0x84 {
          return;
        }
        opPending := false;
      }
      PerformRequest(from, to, env);
    }

    /** The part of ESC_state that acts on a request. */
    method PerformRequest(from: nat, to: nat, env: ControlEnv)
      requires from == State(ALstatus) && to == State(env.control) && ALcontrol == env.control
      modifies this
      ensures Abs() == Perform(old(Abs()), env, cfg)
    {
      var an := Switch(16 * to + from, from, to, env);
      ReportState(an, env.deviceId);
    }

    /** ESC_sm_act_event when an SM change event is present. */
    method HandleSmChange(env: SmEnv)
      modifies this
      ensures Abs() == SmChange(old(Abs()), env)
    {
      var from, _, blocked := Masks();
      var as5 := ALstatus % 32;
      if from > Init && as5 != Boot && MBXrun {
        var ax23 := as5;
        if !env.mbxOk {
          smBadInputs := false;
        }
        if env.sm23 != SmOk {
          smBadInputs := env.sm23 == SmBadInputs;
          ax23 := PreOp + ErrorBit;
        }
        if !blocked {
          StepDown(env.mbxOk, ax23);
        }
      }
    }

    /** The two ways ESC_sm_act_event steps down. */
    method StepDown(mbxOk: bool, ax23: Al)
      modifies this
      ensures var c := old(Abs());
              Abs() == if !mbxOk then LoseMailbox(c)
                       else if (c.input || c.output) && ax23 == PreOp + ErrorBit then LoseInputs(c)
                       else c
    {
      if !mbxOk {
        if appInput || appOutput {
          StopBoth();
        }
        MBXrun := false;
        Fail(ErrInvalidMbx, Init + ErrorBit);
      } else if (appInput || appOutput) && ax23 == PreOp + ErrorBit {
        StopBoth();
        Fail(if smBadInputs then ErrInvalidInputSm else ErrInvalidOutputSm, ax23);
      }
    }

    /** ESC_stopoutput and ESC_stopinput. */
    method StopBoth()
      modifies `appInput, `appOutput, `safeCalls
      ensures Abs() == StopInput(StopOutput(old(Abs())))
    {
      StopOutputs();
      StopInputs();
    }

    /** AL status with an error and its code. */
    method Fail(code: u16, status: u8)
      modifies `ALerror, `ALstatus
      ensures Abs() == old(Abs()).(error := code, status := status)
    {
      ALerror, ALstatus := code, status;
    }

    /** ESC_ALstatusgotoerror. */
    method AlStatusGotoError(status: u8, code: u16)
      modifies this
      ensures Abs() == GotoError(old(Abs()), status, code)
      ensures ALcontrol == old(ALcontrol)
    {
      if status / 8 % 2 == 1 {
        return;
      }
      if appOutput {
        StopOutputs();
      }
      opPending := false;
      ALerror := code;
      ALstatus := status;
    }

    /** ecat_slv_sync0_account. */
    method Sync0Account(seen: bool)
      modifies this
      ensures Abs() == Sync0(old(Abs()), seen)
    {
      var trip := CountSync(seen);
      if trip {
        AlStatusGotoError(SafeOp + ErrorBit, ErrSync);
      }
    }

    /** The counting of ecat_slv_sync0_account, and whether the limit is passed. */
    method CountSync(seen: bool) returns (trip: bool)
      modifies `synccounter, `smeventmissed, `syncerror
      ensures var r := SC.Account(old(Abs()).sync, synccounterlimit, seen);
              Abs() == old(Abs()).(sync := r.0) && trip == r.1
    {
      var counter := synccounter;
      if seen {
        if counter > 0 {
          counter := counter - 1;
        }
      } else {
        counter := counter + 3;
        CountMissed();
      }
      trip := synccounterlimit > 0 && counter > synccounterlimit;
      StoreCounter(counter, trip);
    }

    /** smeventmissed, which stays at its largest value. */
    method CountMissed()
      modifies `smeventmissed
      ensures Abs() == old(Abs()).(sync := old(Abs()).sync.(missed := Min(old(smeventmissed) + 1, 0xFFFF)))
    {
      if smeventmissed < 0xFFFF {
        smeventmissed := smeventmissed + 1;
      }
    }

    /** The counter is stored in 16 bits; a trip latches the error and clears it. */
    method StoreCounter(counter: int, trip: bool)
      modifies `synccounter, `syncerror
      ensures Abs() == old(Abs()).(sync := old(Abs()).sync.(counter := if trip then 0 else SC.Int16(counter),
                                                            syncError := old(syncerror) || trip))
    {
      synccounter := SC.Int16(counter);
      if trip {
        syncerror := true;
        synccounter := 0;
      }
    }

    /** What ESC_op_pending_step notes of a period. */
    method NotePeriod(sync0: bool, smEvent: bool)
      modifies `opSeenSync0, `opSeenSm
      ensures Abs() == old(Abs()).(wait := old(Abs()).wait.(seenSync0 := old(opSeenSync0) || sync0,
                                                            seenSm := old(opSeenSm) || smEvent))
    {
      if sync0 {
        opSeenSync0 := true;
      }
      if smEvent {
        opSeenSm := true;
      }
    }

    /** The bookkeeping of ESC_op_pending_step. */
    method CountPeriod(sync0: bool, smEvent: bool, elapsed: nat)
      modifies `opPendingNs, `opSeenSync0, `opSeenSm, `opValidNs
      ensures var e := PeriodOf(old(Abs()), sync0, smEvent, elapsed);
              Abs() == old(Abs()).(wait := OP.Step(old(Abs()).wait, e).0)
    {
      opPendingNs := (opPendingNs + elapsed) % OP.Two64;
      NotePeriod(sync0, smEvent);
      var good := sync0 && (if synccounterlimit > 0 then synccounter < synccounterlimit else smEvent || sm2Len == 0);
      opValidNs := if good then (opValidNs + elapsed) % OP.Two64 else 0;
    }

    /** ESC_op_pending_step. */
    method OpPendingStep(sync0: bool, smEvent: bool, elapsed: nat)
      modifies this
      ensures Abs() == Pending(old(Abs()), sync0, smEvent, elapsed)
    {
      if !opPending {
        return;
      }
      CountPeriod(sync0, smEvent, elapsed);
      AnswerRequest();
    }

    /** The decision of ESC_op_pending_step. */
    method AnswerRequest()
      modifies this
      ensures Abs() == Answer(old(Abs()), OP.Decide(old(Abs()).wait, sm2Len > 0))
      ensures sm2Len == old(sm2Len)
    {
      if opValidNs >= OP.SyncValidNs && (opSeenSm || sm2Len == 0) {
        AcceptRequest();
      } else if opPendingNs >= OP.PendingTimeoutNs {
        RefuseRequest(if !opSeenSync0 then OP.ErrNoSync
                      else if !opSeenSm && sm2Len > 0 then OP.ErrWatchdog else OP.ErrSync);
      }
    }

    /** The held request is granted. */
    method AcceptRequest()
      modifies `opPending, `appOutput, `ALerror, `ALstatus
      ensures !opPending && appOutput && ALerror == 0 && ALstatus == Op
    {
      opPending := false;
      appOutput := true;
      ClearError();
      ALstatus := Op;
    }

    /** ESC_ALerror with 0, if there is a code to clear. */
    method ClearError()
      modifies `ALerror
      ensures ALerror == 0
    {
      if ALerror != 0 {
        ALerror := 0;
      }
    }

    /** The held request is refused. */
    method RefuseRequest(code: u16)
      modifies `opPending, `ALerror, `ALstatus
      ensures !opPending && ALerror == code && ALstatus == SafeOp + ErrorBit
    {
      opPending := false;
      ALerror := code;
      ALstatus := SafeOp + ErrorBit;
    }

    /** hw_watchdog_check. */
    method HwWatchdogCheck(env: DigEnv) returns (inCharge: bool)
      modifies this
      ensures Abs() == HwWatchdog(old(Abs()), env).0 && inCharge == HwWatchdog(old(Abs()), env).1
      ensures ALcontrol == old(ALcontrol)
    {
      inCharge := true;
      if !appOutput || sm2Len == 0 {
        hwWdState, hwWdQuiet := WD.Unchecked, 0;
        return;
      }
      if hwWdState == WD.Unchecked {
        if env.pdTime == 0 || env.divider == 0 {
          hwWdState := WD.Disabled;
        } else {
          hwWdState := WD.Waiting;
        }
      }
      if hwWdState == WD.Disabled {
        inCharge := false;
        return;
      }
      var expired := Watch(env);
      if expired {
        AlStatusGotoError(SafeOp + ErrorBit, ErrWatchdog);
      }
    }

    /** The part of hw_watchdog_check for an armed watchdog: whether it has expired. */
    method Watch(env: DigEnv) returns (expired: bool)
      requires hwWdState == WD.Waiting || hwWdState == WD.Running
      modifies `hwWdState, `hwWdQuiet
      ensures hwWdState == if env.smEvent then WD.Running else old(hwWdState)
      ensures hwWdQuiet == if env.smEvent then 0 else if old(hwWdQuiet) < WD.QuietCycles then old(hwWdQuiet) + 1
                           else old(hwWdQuiet)
      ensures expired == (!env.smEvent && old(hwWdQuiet) >= WD.QuietCycles && !env.statusOk && hwWdState == WD.Running)
    {
      expired := false;
      if env.smEvent {
        if hwWdState == WD.Waiting {
          hwWdState := WD.Running;
        }
        hwWdQuiet := 0;
        return;
      }
      if hwWdQuiet < WD.QuietCycles {
        hwWdQuiet := hwWdQuiet + 1;
        return;
      }
      if !env.statusOk {
        if hwWdState == WD.Running {
          expired := true;
        }
      }
    }

    /** The watchdog part of DIG_process. */
    method CheckWatchdogs(env: DigEnv)
      modifies this
      ensures Abs() == Watchdogs(old(Abs()), env, cfg)
    {
      if !env.watchdog {
        return;
      }
      if cfg.useHwWatchdog {
        var inCharge := HwWatchdogCheck(env);
        if inCharge {
          return;
        }
      }
      SoftwareWatchdog();
    }

    /** The software watchdog counter of DIG_process. */
    method SoftwareWatchdog()
      modifies this
      ensures Abs() == SwWatchdog(old(Abs()))
    {
      if watchdog > 0 {
        watchdog := watchdog - 1;
      }
      if watchdog <= 0 && appOutput && sm2Len > 0 {
        AlStatusGotoError(SafeOp + ErrorBit, ErrWatchdog);
      } else if !appOutput {
        watchdog := watchdogcnt;
      }
    }

    /** DIG_process. */
    method DigProcess(env: DigEnv)
      modifies this
      ensures Abs() == Dig(old(Abs()), env, cfg)
    {
      CheckWatchdogs(env);
      if env.rxPdo && appOutput && env.smEvent {
        watchdog := watchdogcnt;
        applied := Apply(applied, ALstatus);
      }
    }

    /** The process data branch of ecat_slv_run_dc. */
    method OnData(env: CycleEnv)
      modifies this
      ensures Abs() == Data(old(Abs()), env, cfg)
    {
      if dcsync != 0 {
        smEventSeen := true;
      }
      DigProcess(env.dig.(watchdog := true, rxPdo := true));
    }

    /** The SYNC0 branch of ecat_slv_run_dc. */
    method OnSyncEdge(timeoutNs: nat)
      modifies this
      ensures Abs() == SyncEdge(old(Abs()), timeoutNs)
    {
      var seen := smEventSeen;
      Sync0Account(seen);
      EndPeriod(seen, timeoutNs);
    }

    /** The rest of the SYNC0 branch, for a period with or without process data. */
    method EndPeriod(seen: bool, timeoutNs: nat)
      modifies this
      ensures Abs() == Pending(old(Abs()), true, seen, timeoutNs / 2).(smEventSeen := false)
    {
      OpPendingStep(true, seen, timeoutNs / 2);
      smEventSeen := false;
    }

    /** ecat_slv_run_dc, without its mailbox and EEPROM parts. */
    method RunDc(env: CycleEnv)
      modifies this
      ensures Abs() == Cycle(old(Abs()), env, cfg)
    {
      if env.rc == 0 && dcsync > 0 && appOutput {
        syncerror := true;
        AlStatusGotoError(SafeOp + ErrorBit, ErrFatalSync);
        return;
      }
      if env.rc < 0 {
        return;
      }
      if env.rc == 0 {
        OpPendingStep(false, false, env.timeoutNs);
      }
      if env.smEvent {
        OnData(env);
      }
      if env.sync0Event || (dcsync > 0 && env.rc == 1) {
        OnSyncEdge(env.timeoutNs);
      }
      if env.stateEvent {
        OnStateEvents(env);
      }
    }

    /** The part of ecat_slv_run_dc that handles AL control and SyncManager changes. */
    method OnStateEvents(env: CycleEnv)
      modifies this
      ensures Abs() == StateEvents(old(Abs()), env, cfg)
    {
      if env.controlEvent {
        HandleControl(env.control);
      }
      if env.smChanged {
        HandleSmChange(env.sm);
      }
    }
  }
}
