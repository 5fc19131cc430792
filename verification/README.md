# Verification model of the EtherCAT slave stack

This project models the protocol handlers of the stack in Dafny 4.11 and proves what they promise,
for every input, every run or every reachable state. `dafny verify dfyconfig.toml` checks it.

Each component comes as a module of plain functions, which say what one step does to the state (an
`...Spec` module, or the first part of a file), a class whose methods are written the way the C code
is and are proved to take exactly those steps, and lemmas that state what the steps amount to over
whole runs.

| file | component |
|---|---|
| `Eoe.dfy`, `EoeChannel.dfy` | EoE fragmenting and reassembly (`soes/esc_eoe.c`), and both ends over a channel that loses fragments |
| `SyncCounter.dfy`, `OpPending.dfy`, `Watchdog.dfy` | the sync error counter, the held request for OP and the hardware watchdog latch, each against its history |
| `AlSpec.dfy`, `AlMachine.dfy` | the AL state machine with its monitors and the DC loop (`soes/esc.c`, `soes/ecat_slv.c`) |
| `AlSafety.dfy`, `AlHistory.dfy` | output safety and the histories of the monitors over every run |
| `AlTable.dfy`, `AlStates.dfy`, `AlOutputs.dfy` | the state table, what the states mean for mailbox and inputs, and when outputs are applied, over every run |
| `Mailbox.dfy`, `MailboxIntake.dfy`, `MailboxLeak.dfy` | the mailbox buffers: claiming, posting, backup, the order of replies; which messages are kept and what a repeat request does; buffers that are never requested |
| `Foe.dfy`, `FoeTransfer.dfy` | FoE download into a flush buffer (`soes/esc_foe.c`), and whole files from the request on |
| `Lan9252.dfy` | splitting of accesses to the LAN9252 (`soes/hal/linux-lan9252-spidev/esc_hw.c`) |
| `Dictionary.dfy`, `PdoMap.dfy` | the object dictionary searches and `sizeOfPDO` (`soes/esc_coe.c`) |
| `BitSlice.dfy`, `ProcessImage.dfy` | bit slices across words, packing and unpacking of the process image |
| `SdoTransfer.dfy`, `SdoAccess.dfy` | SDO upload and download of single entries: expedited, normal, segmented; access rights and command bytes |
| `CompleteAccess.dfy`, `CaTransfer.dfy`, `CaServer.dfy` | Complete Access: the layout and the loop, the transfers, the handlers |
| `OdList.dfy` | the list of objects in fragments |
| `Interleaving.dfy` | other services between the segments of a transfer, which share its counters |
| `HeldReply.dfy` | `ESC_coeprocess` and the reply a download may hold back |
| `Generator.dfy` | the layout arithmetic of `tools/gen_od.py`, its agreement with `sizeOfPDO`, and the round trip through the image it lays out |

## What does not hold, and when it does

Some properties one would expect are false of the code. Each has a lemma with the exact condition.

- The window law of the sync error counter holds for the limits 1..32767 only; the counter is an
  int16_t (`SyncCounter.LawIff`).
- `ESC_sm_act_event` does not clear `op_pending`: a step-down from SAFEOP leaves the request held, and
  the slave can then enter OP from PREOP (`AlSafety.HeldNext`, `AlSafety.HeldOverRun`,
  `AlSafety.HeldRequestOutlivesStepDown`).
- A request for state 0 in SAFEOP stops the inputs of a slave that stays there, and OP can then be entered
  without them; a sync error reports SAFEOP from INIT and PREOP too. These, a step-down under a held
  request and an error of the application to a state that does not fit are the only steps after which
  the AL state no longer says what runs (`AlStates.ConsistentOverRun`, `AlStates.OpWithoutInputs`,
  `AlStates.SyncErrorAnywhere`).
- The comment on `ESC_startmbxboot` names AL status code 0x0016 for a failed check; the code reports 0x0015
  (`soes/esc.c:374`, `soes/esc.c:394`, `AlTable.StateTable`).
- EoE frames over 2016 bytes are sent but never delivered (`EoeChannel.DeliverableIff`), and where the
  channel loses 15 frames in a row, fragments of frames 16 apart can be put together as one, unless the
  mailbox takes any frame in one fragment (`EoeChannel.MixesIff`).
- A frame too short for the time stamp it is marked with is delivered with a length just below 4 GiB
  (`EoeSpec.DeliversIff`).
- FoE: a failed last write after full packets is acknowledged as success (`FoeSpec.FailureRefusedIff`),
  and a full packet written in part is answered with an error and an acknowledgement
  (`FoeSpec.RefusedYetAckedIff`).
- A repeat request with nothing posted and no backup stays due until there is one (`MailboxIntake.RepeatLaw`).
- A mailbox repeat request with a posted buffer and no backup writes the receive buffer
  (`MailboxSpec.SendsBufferZeroIff`), and replies keep their order only with up to three buffers
  (`MailboxOrder.InOrderIff`).
- A normal SDO download keeps 16 bits of the announced size. A longer one is refused, but for entries of
  flexible length it is answered as taken, and cut without a word if the 16 bits announce no more than
  came (`SdoLaws.SizeFieldIff`).
- A list request, or a count of the objects, in the middle of a segmented upload overwrites its size and
  position (`Interleaving.InterruptedIff`). An upload of at most 4 bytes does not end a segmented transfer
  that is open (`SdoLaws.LeavesOpenIff`).
- A list request, a count or an upload in the middle of a segmented Complete Access download defeats the
  check that all announced bytes have come (`Interleaving.WholeIff`, `Interleaving.HarmlessMeans`).
- The upload of an entry of 0 bits announces a byte (`SdoLaws.UploadLaw`).
- Entries of more than 64 bits off a byte boundary are moved by memcpy from the byte below and overwrite
  their neighbours (`ProcessImage.ApartIff`).
- Complete Access: an entry that may not be read goes out as zeros, so it is not restored
  (`CaLaws.RestoresIff`); a bit entry can pick up stale bits behind an unreadable one
  (`CaLaws.ExactIff`), and loses the bits beyond its byte (`CaLaws.CrossingIff`); a download that
  announces 0 bytes reaches every entry (`CaLaws.StopIff`), and one shorter than the object can fill its
  last entry with bytes from behind the request (`CaLaws.ReceivedOnlyIff`). For string objects the loop
  returns its abort code where a size is expected, and the callers round that code up to bytes before
  they send it (`soes/esc_coe.c:690-697`, `soes/esc_coe.c:1044-1050`): the comments there say that it is
  the abort code, the master gets 0x00C02001 (`CaTransferLaws.StringUploadIff`,
  `CaTransferLaws.StringDownloadIff`). With 11..13 bytes of mailbox data an expedited download can be
  taken for the start of a segmented one (`CaTransferLaws.TransferRoundTrip`).
- A Complete Access download whose last segment comes too early leaves its claimed mailbox buffer unsent
  (`CompleteAccess.Server.DownloadSegment`, `MailboxLeaks.LosesIff`). It is lost until the mailboxes stop,
  and the slave falls silent once fewer than two of the sending buffers are left and none is idle
  (`MailboxLeaks.CanClaimIff`).
- The list of an empty dictionary says that 65535 fragments are left (`OdListLaws.NoneLeftIff`).
- A CoE request of fewer than 8 bytes is answered twice (`CoeTable.ShortRequest`).
- While a reply is held, an SDO request that finds no buffer for its answer is dropped without one
  (`HeldLaws.BusyIff`). A CoE request of an unknown service is still answered with an SDO abort
  (`HeldLaws.SdoDuringHoldIff`). An SDO request with a command of none of the four known kinds, such
  as an abort, blocks the mailbox until it is stopped (`HeldLaws.BlockedUntilStop`,
  `HeldLaws.ReleasedIff`).
- The generator does not check that rows of the object list have distinct indexes, that padding and
  counts fit 8 bits, or that sub-entries are dense (`GenLaws.AscendsIff`, `GenLaws.MappingWordIff`,
  `GenLaws.CountIff`, `GenLaws.ValidIff`; `GenLaws.Clean` collects what `GenLaws.Agreement` needs). It
  says of 0x1C12 and 0x1C13 that their highest subindex is 1, so that a master cannot read further
  assignments, although a comment at `tools/gen_od.py:470-472` promises that it can
  (`GenLaws.AssignmentReadIff`).

## Model

| member | source | states |
|---|---|---|
| `EoeSpec.HeaderFields` | soes/esc_eoe.c:858-893 | the two header words of a fragment read back as the fragment number, offset and frame number put into them, cut to 6, 6 and 4 bits, and the last-fragment bit |
| `EoeSpec.CountAt` | soes/esc_eoe.c:845-885 | how a frame is cut: where fragment k starts, and that a fragment is the last exactly when the rest fits the mailbox |
| `EoeSpec.CountBound` | soes/esc_eoe.c:845-885 | a frame of n bytes takes at most n/32 rounded up fragments, so at most 63 up to 2016 bytes |
| `Eoe.Sender.InitTx` | soes/esc_eoe.c:948-965 | the transmit half is reset |
| `Eoe.Sender.SendFragment` | soes/esc_eoe.c:828-921 | one call: fetches a frame if none is under way, and sends the next fragment if a mailbox buffer is free; the whole new state and the fragment, by the step function |
| `Eoe.Sender.SendClaimed` | soes/esc_eoe.c:845-921 | the part of the call with a claimed buffer |
| `Eoe.Receiver.InitRx` | soes/esc_eoe.c:927-943 | the receive half is reset, with a fresh buffer if one can be had |
| `Eoe.Receiver.Accept` | soes/esc_eoe.c:748-788 | whether a fragment continues or starts a frame |
| `Eoe.Receiver.ReceiveFragment` | soes/esc_eoe.c:730-822 | one received fragment: stored, delivered or dropped; the whole new state and the delivery, by the step function |
| `EoeSpec.DeliversIff` | soes/esc_eoe.c:748-822 | a frame is delivered exactly with an accepted last fragment that fits, to its port, and without the four bytes of a time stamp in its length, which for a shorter frame is just below 4 GiB |
| `EoeChannel.SenderConserves` | soes/esc_eoe.c:828-921 | over every run of calls, what was sent followed by what is owed is exactly the fragments of the frames taken, in order: a call without a buffer neither skips nor repeats one |
| `EoeChannel.RunTracks` | soes/esc_eoe.c:730-822 | after any reception over the lossy channel the receiver holds exactly the unbroken run of fragments that ends with the last one received, or nothing |
| `EoeChannel.LossyChannel` | soes/esc_eoe.c:730-822 | any subsequence of the fragments with neighbours fewer than 16 frames apart: each delivery is one of the frames, whole, in order, at most once; with buffers available, exactly the frames that arrived whole |
| `EoeChannel.EndToEnd` | soes/esc_eoe.c:730-921 | sender, lossy channel and receiver together, from the calls of the sender to the deliveries |
| `EoeChannel.Lossless` | soes/esc_eoe.c:730-921 | without loss exactly the frames sent are delivered |
| `EoeChannel.DeliverableIff` | soes/esc_eoe.c:858-866 | a single frame comes through exactly when it is no longer than 2016 bytes: the size field has 6 bits of 32 bytes |
| `EoeChannel.NeverOversize` | soes/esc_eoe.c:757-806 | whatever arrives, no delivery is longer than 2016 bytes |
| `EoeChannel.SixteenApartMixes` | soes/esc_eoe.c:873-876 | frames 16 apart share a frame number: fragment 0 of one and fragment 1 of the other are put together as one frame |
| `EoeChannel.MixesIff` | soes/esc_eoe.c:730-822 | for every mailbox size and gap bound: every delivery of every reception whose neighbours are fewer than that many frames apart is a sent frame, if and only if the bound is at most 16 or the mailbox takes any frame in one fragment |
| `SyncCounter.CountsWindows` | soes/ecat_slv.c:217-254 | counting one period gives the largest window score of the longer history |
| `SyncCounter.WindowLaw` | soes/ecat_slv.c:217-254 | since the last reset the counter is the largest score of 3 per miss less 1 per hit over all windows that end now, for the limits 1..32767 |
| `SyncCounter.TripsExactly` | soes/ecat_slv.c:240-252 | a period trips exactly when some window that ends with it scores more than the limit |
| `SyncCounter.QuietIff` | soes/ecat_slv.c:217-254 | a history trips nowhere exactly when none of its windows scores more than the limit |
| `SyncCounter.Tolerance` | soes/ecat_slv.c:217-254 | from a cleared counter limit/3 misses in a row are tolerated and one more is not |
| `SyncCounter.WithinBudget` | soes/ecat_slv.c:217-254 | a rate of misses within the budget of every window never trips |
| `SyncCounter.MissedSaturates` | soes/ecat_slv.c:228-236 | smeventmissed counts the misses and stays at 65535 |
| `SyncCounter.LawIff` | soes/ecat_slv.c:240-246 | the law holds of every run exactly for the limits 1..32767; under any other the 16-bit counter wraps |
| `OpPending.InSyncIff` | soes/esc.c:1364-1417 | the incremental count of good time says exactly whether the trailing good periods reach 200 ms |
| `OpPending.DecidesByHistory` | soes/esc.c:1364-1417 | a held request is decided exactly as its whole history says: accepted, refused with the code of what was missing, or held |
| `OpPending.FirstDecision` | soes/esc.c:1364-1417 | the decision over a run is the judgement on the shortest history that is not held |
| `OpPending.AnsweredInTime` | soes/esc.c:1394-1416 | a request is answered by the time 8.1 s have passed |
| `OpPending.StartsAgainIff` | soes/esc.c:1386-1392 | which period starts the count of good sync again: one without SYNC0, with the counter at its limit, or without a limit and without the data of existing outputs; every other adds to it |
| `Watchdog.LatchIsHistory` | soes/ecat_slv.c:311-383 | within a stretch of active outputs the latch runs exactly when process data arrived in it, and the quiet count is the number of quiet calls in a row, at most 16 |
| `Watchdog.TripsIff` | soes/ecat_slv.c:350-383 | a call trips exactly when it is at least the 17th quiet one in a row of an armed stretch that has seen data, with the status bit clear |
| `Watchdog.StretchRestarts` | soes/ecat_slv.c:311-330 | a call without active outputs ends the stretch |
| `Watchdog.FallsBackIff` | soes/ecat_slv.c:311-345 | the software counter is in charge exactly in an unarmed stretch |
| `Watchdog.SetUpIff` | soes/ecat_slv.c:311-346 | inactive outputs leave nothing to watch; the first call with active ones leaves them to the hardware watchdog exactly if divider and ticks make a time |
| `AlSafety.TransitionSafe` | soes/esc.c:1155-1345 | a transition reports OP exactly when it leaves the outputs active, and every departure from OP calls for the safe state |
| `AlSafety.GotoErrorSafe` | soes/esc.c:54-88 | an error state entered from anywhere keeps outputs and state in agreement |
| `AlSafety.DigSafe` | soes/ecat_slv.c:389-460 | outputs are applied only while the AL status is OP, before and after the call |
| `AlSafety.CycleSafe` | soes/ecat_slv.c:587-712 | the DC cycle, which composes the steps, keeps outputs and state in agreement, and applies outputs only at a moment at which the AL status is OP |
| `AlSafety.RunSafe` | soes/esc.c:1103-1417 | over every run of events outputs are active exactly in OP, a held request has none, APP_safe_state is called at least once for each departure from OP, and cb_apply_rxpdo is never called while the AL status is not OP |
| `AlSafety.HeldNext` | soes/esc.c:945-1029 | every step but a SyncManager change keeps a held request in SAFEOP; a SyncManager change does so exactly unless the mailbox runs, no error blocks, and the mailbox SyncManagers do not check out or inputs are active and the process data ones do not |
| `AlSafety.HeldCycle` | soes/ecat_slv.c:587-712 | a DC cycle keeps a held request in SAFEOP exactly unless it gets to a SyncManager change that meets these guards with the request still held |
| `AlSafety.HeldOverRun` | soes/esc.c:1364-1417 | a held request is in SAFEOP at every point of a run exactly when no SyncManager change of the run, alone or in a DC cycle, meets these guards under it |
| `AlSafety.HeldRequestOutlivesStepDown` | soes/esc.c:985-1016 | the step-down leaves the request held: from PREOP with an error the slave then goes straight to OP |
| `AlSafety.PendingFollowsHistory` | soes/esc.c:1364-1417 | the machine answers a held request exactly as its history decides |
| `AlSafety.RequestStartsHistory` | soes/esc.c:1278-1300 | a request for OP under DC starts with an empty history, in SAFEOP |
| `AlSafety.TripEndsStretch` | soes/ecat_slv.c:404-422 | a watchdog trip stops the outputs and ends the stretch: at most one trip in each |
| `AlSafety.SyncTripStops` | soes/ecat_slv.c:240-252 | a sync error takes the slave to SAFEOP with outputs off, the counter cleared and the error latched |
| `AlHistory.LatchOverRun` | soes/ecat_slv.c:311-383 | over every run of the state machine the watchdog latch is the one that the calls of hw_watchdog_check made so far lead to |
| `AlHistory.TripOverRun` | soes/ecat_slv.c:350-383 | after every run, a check of the hardware watchdog drops the slave to SAFEOP with an error exactly when the last stretch of active outputs is armed, has seen data and ends, with this call, in 17 quiet ones, with the status bit clear |
| `AlHistory.HeldHistoryOverRun` | soes/esc.c:1364-1417 | over every run, what a held request has waited for are the periods since it was made, of single steps and of DC cycles, and none of them decided it |
| `AlHistory.HeldBriefly` | soes/esc.c:1394-1416 | no run of the state machine holds a request for 8.1 s, or past a moment at which its history calls for an answer |
| `AlHistory.CounterOverRun` | soes/ecat_slv.c:217-254 | over every run with limits in 1..32767, also changing ones, the sync error counter is the largest window score of the SYNC0 periods since it was last cleared, by a trip or by the SYNC unit found off |
| `AlHistory.SyncTripOverRun` | soes/ecat_slv.c:240-252 | after every such run in OP, a SYNC0 drops the slave to SAFEOP with an error exactly when some window that ends with it scores more than the limit |
| `AlTable.StateTable` | soes/esc.c:1103-1362 | the state table: a request that is acted upon enters the state it asks for if the transition is allowed and its own checks pass; else the slave reports the state and the AL status code of what was wrong, or waits in SAFEOP for synchronisation; a request not acted upon changes nothing |
| `AlTable.EnteredIff` | soes/esc.c:1155-1345 | a requested state is entered without error if and only if (old, requested) is one of the allowed pairs and its checks pass: the mailbox SyncManagers into PREOP and BOOT, both mappings, the process data SyncManagers and the SYNC unit into SAFEOP, no distributed clocks into OP; a request for OP is held exactly if only the last fails |
| `AlTable.IdentifiedIff` | soes/esc.c:1353-1358 | a request for the device id is answered with it exactly if it succeeds or waits, there is an id, and BOOT was not asked for |
| `AlTable.SmChangeTable` | soes/esc.c:945-1029 | which state and AL status code a SyncManager change leads to, by what no longer matches; else the state stays |
| `AlTable.SmChangeNotes` | soes/esc.c:945-1029 | which SyncManager did not match is remembered for the AL status code, acted upon or not |
| `AlTable.FatalSync` | soes/ecat_slv.c:594-602 | a missing SYNC0 under active outputs: SAFEOP with 0x002C, the error latched, and nothing else of the cycle runs |
| `AlStates.ControlEffects` | soes/esc.c:1155-1345 | what a request starts and stops: inputs, mailbox, sizes of the images, sync mode and limit by the transition and what it found; the safe state exactly on the way out of OP |
| `AlStates.ConsistentOverRun` | soes/esc.c:1103-1417 | over every run the mailbox runs exactly outside INIT, inputs are active in SAFEOP and OP and a held request is in SAFEOP, after each step and between the parts of each DC cycle, if and only if no step is a request for state 0 in SAFEOP, a sync error without mailbox or inputs, an error of the application to a state that does not fit, or a step-down under a held request |
| `AlStates.OpWithoutInputs` | soes/esc.c:1333-1336 | a request for state 0 in SAFEOP and then one for OP lead into OP without inputs |
| `AlStates.SyncErrorAnywhere` | soes/ecat_slv.c:240-252 | in INIT or without inputs a sync error reports SAFEOP all the same |
| `AlOutputs.DigLaw` | soes/ecat_slv.c:389-432 | one call of DIG_process applies outputs, once and in OP, exactly if it handles outputs, new ones have arrived and they are still active after the watchdogs; an expired watchdog leads to SAFEOP with 0x001B, and otherwise the state stays; the software watchdog starts anew with new or inactive outputs and else counts down |
| `AlOutputs.AppliedOverRun` | soes/ecat_slv.c:389-432 | over every run, DC cycles included, outputs are applied in OP once for each such call, and never else |
| `AlOutputs.SwCountedOverRun` | soes/ecat_slv.c:402-421 | over every run the software watchdog is the start value less the calls without new outputs since the last with, or with inactive ones |
| `AlOutputs.SwTripOverRun` | soes/ecat_slv.c:402-421 | after every run, a call that asks the software watchdog takes the slave out of OP exactly when outputs are active and it is at least the watchdogcnt-th in a row without new ones |
| `AlOutputs.ServedIff` | soes/ecat_slv.c:632-661 | after every run, the SYNC0 of a DC cycle counts as served exactly if process data have arrived under distributed clocks since the last one |
| `AlMachine.Slave.AlStatusGotoError` | soes/esc.c:54-88 | the whole new state by the step function |
| `AlMachine.Slave.CheckDcUnit` | soes/esc.c:273-304 | sync mode, limit and the cleared counters by the step function |
| `AlMachine.Slave.StartInput` | soes/esc.c:812-886 | starting inputs: the SyncManager check, then the SYNC unit; a failure from SAFEOP leaves the inputs active |
| `AlMachine.Slave.Switch` | soes/esc.c:1155-1345 | the switch over old and new state: the transition table |
| `AlMachine.Slave.HandleControl` | soes/esc.c:1103-1362 | ESC_state: acknowledgement, the held request, the switch, the device identification and the status |
| `AlMachine.Slave.HandleSmChange` | soes/esc.c:945-1029 | ESC_sm_act_event |
| `AlMachine.Slave.Sync0Account` | soes/ecat_slv.c:217-254 | one SYNC0 period accounted for |
| `AlMachine.Slave.OpPendingStep` | soes/esc.c:1364-1417 | one period of a held request |
| `AlMachine.Slave.HwWatchdogCheck` | soes/ecat_slv.c:311-383 | one call of the hardware watchdog check |
| `AlMachine.Slave.DigProcess` | soes/ecat_slv.c:389-460 | one call of DIG_process |
| `AlMachine.Slave.RunDc` | soes/ecat_slv.c:600-700 | one pass of the DC loop |
| `MailboxSpec.NextKeeps` | soes/esc.c:410-687 | every step of the mailbox keeps the bookkeeping |
| `MailboxSpec.RunKeeps` | soes/esc.c:410-687 | over every run txcue counts the claimed and requested buffers, the backup and the posted buffer are each the only one of their kind and distinct, a posted buffer means the mailbox is not free, and buffer 0 only receives |
| `MailboxSpec.TxcueFits` | soes/esc.c:503-529 | no run overflows the byte txcue |
| `MailboxSpec.SendsBufferZeroIff` | soes/esc.c:613-641 | a repeat request writes buffer 0 exactly with a buffer posted and no backup, and nothing else does |
| `MailboxSpec.CounterLaw` | soes/esc.c:510-527 | the mailbox counter goes round from 1 to 7, one step with each claim |
| `MailboxOrder.FirstInFirstOut` | soes/esc.c:534-542 | with at most three buffers replies leave in the order of their requests |
| `MailboxOrder.Overtakes` | soes/esc.c:503-542 | with more a later reply can overtake an earlier one |
| `MailboxOrder.InOrderIff` | soes/esc.c:503-542 | replies leave in order, in every run, exactly with at most three buffers |
| `MailboxIntake.IntakeLaw` | soes/esc.c:644-684 | when a message is read in, and that it then is the one to be handled if and only if its length is valid and its counter is 0 or differs from that of the message read in before; an error reply goes to one of invalid length |
| `MailboxIntake.IntakeOverRun` | soes/esc.c:665-684 | over every run the messages kept are exactly those read in, less invalid ones and immediate repetitions since the last stop, in order and once each |
| `MailboxIntake.KeptUntil` | soes/esc.c:665-712 | a kept message stays in buffer 0 exactly until a handler drops it, none is found for it, or the mailboxes stop |
| `MailboxIntake.UnclaimedLaw` | soes/esc.c:691-712 | a message that no handler takes is dropped and answered with an error if there is an idle buffer |
| `MailboxIntake.RepeatLaw` | soes/esc.c:615-642 | a repeat request sends the backup, marks a posted message to be sent again, and is served once; with neither it stays due |
| `MailboxIntake.ReadLaw` | soes/esc.c:589-613 | a read message becomes the backup, the old one is free, and one marked goes out again |
| `MailboxIntake.RepeatThenRead` | soes/esc.c:589-642 | a message asked for again while the next is posted: the master gets both, in order |
| `MailboxIntake.StopResets` | soes/esc.c:410-435 | stopping leaves the mailbox as after a reset, but for its counter |
| `MailboxIntake.StartServed` | soes/esc.c:346-371 | starting takes the repeat bit as it stands for served |
| `Mailbox.Pool.ClaimBuffer` | soes/esc.c:503-529 | the last idle buffer is claimed and counted |
| `Mailbox.Pool.MbxProcess` | soes/esc.c:571-687 | one call of ESC_mbxprocess, branch by branch |
| `Mailbox.Pool.XoeProcess` | soes/esc.c:691-712 | a request that no protocol took is answered with an error and dropped |
| `Mailbox.Pool.StopMbx` | soes/esc.c:410-435 | all buffers idle |
| `FoeSpec.FWriteStreams` | soes/esc_foe.c:147-179 | FOE_fwrite extends the written stream by the bytes it takes, and takes all that fit unless a write fails |
| `FoeSpec.WriteStream` | soes/esc_foe.c:393-508 | over every accepted run the blocks written and the flush buffer concatenate to the payloads, every block has the buffer size, address_offset counts the bytes flushed, fposition the bytes received and at most fend, and packets are numbered 1, 2, 3 and so on |
| `FoeSpec.TransferComplete` | soes/esc_foe.c:435-508 | a last packet that is not refused leaves all bytes passed to write_function, in full blocks but for the last |
| `FoeSpec.RefusedIff` | soes/esc_foe.c:435-500 | an empty packet is refused exactly for a wrong number; any other exactly for a wrong number, too many bytes, a failed write, or, if it is full, an acknowledgement that cannot be sent |
| `FoeSpec.FailureRefusedIff` | soes/esc_foe.c:457-463 | a failed write makes the server refuse the packet exactly if the packet is not empty: after an empty one the failure is acknowledged as success |
| `FoeSpec.RefusedYetAckedIff` | soes/esc_foe.c:479-489 | a refused packet is acknowledged all the same exactly if it is full, passes the 32-bit size check, was written in part, and finds a buffer; the acknowledgement then has number 0 |
| `FoeSpec.RefusalReplies` | soes/esc_foe.c:435-508 | what a refused packet is answered with: the code for its number, its size or its writes, and when an acknowledgement goes with it |
| `FoeSpec.RefusalCloses` | soes/esc_foe.c:222-239 | after a refused packet no file is open, and nothing of it is left in the flush buffer |
| `FoeTransfer.OpenLaw` | soes/esc_foe.c:393-430 | a write request opens the file, with fend its max_data, and is acknowledged as packet 0, if and only if no transfer is under way, the file was found and a buffer is free; else the code of each |
| `FoeTransfer.NotOpen` | soes/esc_foe.c:442-446 | a packet outside a transfer is refused as illegal |
| `FoeTransfer.LastAcked` | soes/esc_foe.c:459-465 | the packet that ends a file closes it, and is acknowledged by its number if there is a buffer |
| `FoeTransfer.PacketsCut` | soes/esc_foe.c:435-508 | every file below 4 GiB is cut into full packets and a shorter last one, numbered 1, 2, 3 and so on |
| `FoeTransfer.FileTakenIff` | soes/esc_foe.c:393-508 | from the request on, if nothing else goes wrong, a file is taken, each packet acknowledged by its number and all bytes passed on in order, if and only if it is at most max_data long |
| `Foe.Server.Write` | soes/esc_foe.c:147-179 | FOE_fwrite over the flush buffer |
| `Foe.Server.Close` | soes/esc_foe.c:187-198 | FOE_fclose flushes what is left |
| `Foe.Server.Acknowledgement` | soes/esc_foe.c:283-310 | FOE_send_ack |
| `Foe.Server.WriteRequest` | soes/esc_foe.c:393-430 | FOE_write with the positions FOE_fopen resets |
| `Foe.Server.DataRequest` | soes/esc_foe.c:435-508 | FOE_data |
| `Lan9252.CsrChunkSize` | soes/hal/linux-lan9252-spidev/esc_hw.c:606-624 | the largest naturally aligned size of 1, 2 or 4 that fits |
| `Lan9252.ChunkSizes` | soes/hal/linux-lan9252-spidev/esc_hw.c:606-624 | which accesses move four bytes, two, or one, by address and length |
| `Lan9252.TilesCover` | soes/hal/linux-lan9252-spidev/esc_hw.c:679-697 | the chunks of an access cover every byte of the range exactly once and nothing else |
| `Lan9252.FifoRangeMeaning` | soes/hal/linux-lan9252-spidev/esc_hw.c:417-436 | pram_fifo_range is the number of words the rest of the transfer touches, at most 16 |
| `Lan9252.ReadPram` | soes/hal/linux-lan9252-spidev/esc_hw.c:439-515 | exactly the bytes of the range are read, for any alignment and any batches |
| `Lan9252.WritePram` | soes/hal/linux-lan9252-spidev/esc_hw.c:520-599 | exactly the bytes of the range are written |
| `Lan9252.ReadCsr` | soes/hal/linux-lan9252-spidev/esc_hw.c:330-357 | the register path reads exactly the range, in a tiling of aligned chunks |
| `Lan9252.WriteCsr` | soes/hal/linux-lan9252-spidev/esc_hw.c:360-386 | the register path writes exactly the range |
| `Lan9252.EscRead` | soes/hal/linux-lan9252-spidev/esc_hw.c:667-722 | ESC_read, whichever path the address takes |
| `Lan9252.EscWrite` | soes/hal/linux-lan9252-spidev/esc_hw.c:725-760 | ESC_write, whichever path the address takes |
| `Lan9252.WriteThenRead` | soes/hal/linux-lan9252-spidev/esc_hw.c:667-760 | a write followed by a read returns the bytes written and leaves the rest of the buffer alone |
| `Dictionary.FindObject` | soes/esc_coe.c:83-95 | the object with an index, or none; only the sentinel has its own index |
| `Dictionary.FindSubindex` | soes/esc_coe.c:51-75 | the entry with a subindex: the dense guess and the scan give the same answer |
| `Dictionary.FindsSentinelIff` | soes/esc_coe.c:83-95 | a search finds the sentinel exactly when asked for index 0xffff |
| `PdoMap.MapWord` | soes/esc_coe.c:158-215 | one mapping word: refused exactly when the table is full or the entry does not exist |
| `PdoMap.MapPdo` | soes/esc_coe.c:151-219 | the entries of one PDO |
| `PdoMap.MapAssigned` | soes/esc_coe.c:140-221 | the assigned PDOs; one that does not exist is passed over |
| `PdoMap.SizeOfPdo` | soes/esc_coe.c:118-238 | size, number of mappings and table, as a function of the mapping words; -1 exactly when the table is too small or an entry does not exist |
| `PdoMap.Tiles` | soes/esc_coe.c:145-238 | the recorded intervals tile the image from bit 0 to the total, and the size is the total in bytes modulo 65536 |
| `PdoMap.NamesEntries` | soes/esc_coe.c:176-212 | every entry of the table is the one its mapping word names, and the others are padding |
| `BitSlice.MaskBits` | soes/esc_coe.c:1684-1690 | the mask has exactly its low bits set, for 64 bits too |
| `BitSlice.Get` | soes/esc_coe.c:1682-1705 | the two-word form reads exactly the slice, for every offset and length |
| `BitSlice.Set` | soes/esc_coe.c:1715-1739 | the two-word form changes exactly the slice |
| `ProcessImage.Objects.PdoPack` | soes/esc_coe.c:1905-1945 | the image after packing, as the fold over the mapping table |
| `ProcessImage.Objects.PdoUnpack` | soes/esc_coe.c:1952-1986 | the storage after unpacking, as the fold over the mapping table |
| `ProcessImage.PackLeavesRest` | soes/esc_coe.c:1905-1945 | padding and all bits outside the mapped intervals keep their value |
| `ProcessImage.PackHolds` | soes/esc_coe.c:1905-1945 | after packing each mapped interval holds its entry: later entries do not disturb it |
| `ProcessImage.UnpackStores` | soes/esc_coe.c:1952-1986 | unpacking stores what an interval of the entry holds, and leaves other storage alone |
| `ProcessImage.RoundTrip` | soes/esc_coe.c:1905-1986 | unpacking after packing restores a mapped entry exactly when its mapped bits carry its value |
| `ProcessImage.ApartIff` | soes/esc_coe.c:1919-1945 | the mapped entries share no bit of the image if and only if each ends before the next starts, with those of more than 64 bits moved down to a byte boundary and rounded up to bytes |
| `ProcessImage.MappingApart` | soes/esc_coe.c:118-238 | the same of every mapping that sizeOfPDO accepts, which touches no bit past its bytes; entries of more than 64 bits on byte boundaries are enough |
| `ProcessImage.MappedRoundTrip` | soes/esc_coe.c:118-238 | the round trip for every mapping that sizeOfPDO accepts |
| `ProcessImage.MovedAs` | soes/esc_coe.c:1905-1995 | how an entry is moved: as its bits at the bit it is mapped to up to 64, as whole bytes from the byte it is mapped into beyond |
| `SdoLaws.UploadLaw` | soes/esc_coe.c:352-500 | an upload, whatever the sizes, whichever segment requests find no buffer, and whatever transfer it replaces, does this if and only if the entry has a bit: each message announces the bytes it carries and fits the mailbox, together they are the entry, and the last-segment bit is set exactly in the last segment |
| `SdoLaws.SegmentsLaw` | soes/esc_coe.c:779-839 | the same of the segments of any transfer under way |
| `SdoLaws.UploadEndsIff` | soes/esc_coe.c:455-475 | an upload is still going on after k answered segment requests exactly when the entry is longer than 4 bytes and than the first message and k segments hold |
| `SdoLaws.LeavesOpenIff` | soes/esc_coe.c:401-475 | an upload requested while a segmented transfer is open leaves that open exactly for entries of at most 4 bytes, or when it repeats the request that opened it |
| `Interleaving.ListedFields` | soes/esc_coe.c:1258-1306 | a count of the objects leaves the number n of fragments of the list in frags and n - 1 in fragsleft, a list of them n and 0, in whatever turns it was sent |
| `Interleaving.SentBehind` | soes/esc_coe.c:779-839 | what an upload sends behind such a request: the bytes from the new position to the new size, out of what lies at its pointer; it is over after at most n answered segment requests |
| `Interleaving.InterruptedIff` | soes/esc_coe.c:1258-1376 | an upload with a count or a list of the objects in its middle sends the entry exactly when as many bytes were left as then go out (one, or n), and they are the same |
| `SdoLaws.UploadThenDownload` | soes/esc_coe.c:845-1000 | the messages of a finished upload, taken as downloads by an entry of the same size up to 65535, store exactly its bytes |
| `SdoLaws.SizeFieldIff` | soes/esc_coe.c:872-950 | a normal download that announces its entry's size: to an entry of fixed length it is taken exactly when the size fits 16 bits; to one of flexible length it is always answered as taken, and goes on as the master expects, beyond 16 bits, exactly when the low 16 bits announce more than 4 bytes and more than came |
| `Sdo.FillSegment` | soes/esc_coe.c:790-822 | one segment out of what ESCvar.data points to |
| `Sdo.Server.Upload` | soes/esc_coe.c:352-500 | SDO_upload: state and answer, or the abort code of what is wrong |
| `Sdo.Server.UploadSegment` | soes/esc_coe.c:779-839 | SDO_uploadsegment: nothing changes without a buffer |
| `Sdo.Server.Download` | soes/esc_coe.c:845-1000 | SDO_download: state, stored bytes and answer, or the abort code |
| `Sdo.Server.DownloadSegment` | soes/esc_coe.c:1130-1201 | SDO_downloadsegment for a single entry, also when no download is open |
| `SdoAccess.AccessBits` | soes/esc_coe.c:33-41 | reading and writing are allowed by the bit of the flags for PREOP, SAFEOP and OP, in no other state |
| `SdoAccess.EveryWord` | soes/esc_coe.h:96-112 | every flags word is that of six access bits and what is behind them |
| `SdoAccess.DownloadAccessIff` | soes/esc_coe.c:865-991 | for every flags word and AL state a download to an entry is refused for access exactly if its bit for the state is clear, or there is none: as read-only if just the three read bits are set, else as not in this state; nothing is stored then |
| `SdoAccess.UploadAccessIff` | soes/esc_coe.c:373-380 | the same of an upload, refused as write-only |
| `SdoAccess.NamedAccess` | soes/esc_coe.c:33-41 | where entries of the named access types may be written: RWpre in PREOP only, RO never, RW in all three states |
| `SdoAccess.LocateLaw` | soes/esc_coe.c:365-505 | an entry is found exactly if there is an object with its index and a row with its subindex, and the abort code tells what is missing |
| `SdoAccess.UploadCommand` | soes/esc_coe.c:389-478 | the command byte of the answer: expedited with its unused bytes for up to 4, else normal with the size |
| `SdoAccess.UploadHooks` | soes/esc_coe.c:414-494 | a code of the hook before the access refuses an upload and begins nothing; one of the hook after it replaces the answer of what is sent in one message |
| `SdoAccess.DownloadOutcome` | soes/esc_coe.c:872-979 | the answer to a download to a writable entry: of another size it is refused but for strings and arrays; the code of the hook before the access refuses it, that of the hook after it replaces the answer of what came in one message |
| `SdoAccess.SegmentSent` | soes/esc_coe.c:790-822 | a segment sent carries the toggle bit of its request, the last bit and the number of unused bytes |
| `SdoAccess.SegmentTaken` | soes/esc_coe.c:1130-1201 | a segment received is stored behind those before and answered with its toggle bit |
| `SdoAccess.CaSegmentTaken` | soes/esc_coe.c:1130-1201 | the same in a Complete Access download, or refused if bytes are missing |
| `SdoAccess.CaUploadOutcome` | soes/esc_coe.c:658-755 | a Complete Access upload: refused for an object that is not moved, too large for the buffer, or by the hook, in this order, else answered with its command byte and size, or the code of the hook after the access if it is sent in one message |
| `SdoAccess.CaDownloadOutcome` | soes/esc_coe.c:1010-1125 | a Complete Access download: refused for an object that is not moved or too small, by the hook, or for the buffer, in this order, else stored or begun as a transfer |
| `CaLaws.Disjoint` | soes/esc_coe.c:562-628 | entries lie one after the other, the last one inside the total; byte entries at byte boundaries |
| `CaLaws.ByteEntrySent` | soes/esc_coe.c:572-592 | an upload carries every byte entry at its place, or zeros if it may not be read |
| `CaLaws.BitEntrySent` | soes/esc_coe.c:601-619 | what an upload carries for a bit entry: its bits, or-ed with stale ones unless the first entry of its byte may be read |
| `CaLaws.ExactIff` | soes/esc_coe.c:560-619 | a readable bit is carried exactly, whatever the buffer held, if and only if the first entry of its byte may be read too, or the bit is set, or it lies in byte 1, which is cleared first |
| `CaLaws.CrossingIff` | soes/esc_coe.c:608-613 | an upload depends on a bit of a bit entry, for some content of the buffer, exactly if the entry may be read and the bit lies in the byte the entry starts in |
| `CaLaws.StopIff` | soes/esc_coe.c:623-634 | the loop reaches an entry exactly when it is the first, lies before the given number of bytes, or that number is 0 |
| `CaLaws.DownloadEntries` | soes/esc_coe.c:593-634 | a download changes exactly the byte entries it reaches that may be written, each to its own slice |
| `CaLaws.ReceivedOnlyIff` | soes/esc_coe.c:623-634 | an entry that a download reaches takes received bytes only, exactly if it ends within the bytes announced or is empty |
| `CaLaws.RoundTrip` | soes/esc_coe.c:539-637 | downloading a previous upload: every writable byte entry takes what the upload read, all else stays |
| `CaLaws.RestoresIff` | soes/esc_coe.c:577-598 | a writable byte entry gets its value back exactly when the upload could read it or it held zeros |
| `CaTransferLaws.StartSends` | soes/esc_coe.c:700-755 | an upload that is not refused starts a proper transfer of the image |
| `Interleaving.Atomic` | soes/esc_coe.c:1150-1196 | a segmented download, with segments in any number and services in between that leave frags and fragsleft alone: it ends exactly with a last segment by which all announced bytes have come, changes no entry before, and moves the announced bytes then |
| `Interleaving.Gathers` | soes/esc_coe.c:1139-1148 | the buffer gathers the bytes of the segments in order, whatever comes in between, as long as no Complete Access upload is answered, which puts its own image there |
| `Interleaving.ChangesNothing` | soes/esc_coe.c:1130-1201 | before the segment that ends it, a download changes no entry, whatever comes in between, other downloads excepted |
| `Interleaving.WholeIff` | soes/esc_coe.c:1155-1159 | with a list request, a count or an upload between the segments, as often as one likes, every run that ends has all announced bytes, if and only if what that service leaves in the counters tells of no fewer bytes than are missing |
| `Interleaving.HarmlessMeans` | soes/esc_coe.c:1274-1376 | that is: for a count, if all but one byte came with the first message; for a list, if no more are missing than it has fragments; for an upload, if it has no fewer bytes than the download |
| `Interleaving.EndsEarly` | soes/esc_coe.c:1155-1196 | else a run of one-byte segments ends the download before its bytes have come |
| `CaTransferLaws.StringUploadIff` | soes/esc_coe.c:686-698 | an upload is refused with 0x00C02001, which is no abort code, exactly for string objects and for objects of that many bytes; with the code for Complete Access not supported exactly for objects too large for the buffer, or of that many bytes, and never for string objects |
| `CaTransferLaws.StringDownloadIff` | soes/esc_coe.c:1042-1050 | a download is refused with 0x00C02001 exactly for string objects and for objects of that many bytes |
| `CaTransferLaws.StringObjectIff` | soes/esc_coe.c:545-552 | which objects are refused as string objects |
| `CaTransferLaws.TransferRoundTrip` | soes/esc_coe.c:658-1201 | the round trip over the mailbox, expedited, normal or segmented, from the upload request to the stored entries; it ends with everything stored exactly if the image has more than 4 bytes or fits the mailbox |
| `CompleteAccess.Server.SubindexLoop` | soes/esc_coe.c:539-637 | the loop in all its uses: for the size, into a buffer, out of a buffer |
| `CompleteAccess.Server.GetVariables` | soes/esc_coe.c:511-537 | the access a request names, or an abort code |
| `CompleteAccess.Server.Upload` | soes/esc_coe.c:658-774 | SDO_upload_complete_access |
| `CompleteAccess.Server.UploadSegment` | soes/esc_coe.c:779-839 | SDO_uploadsegment out of the buffer |
| `CompleteAccess.Server.Download` | soes/esc_coe.c:1010-1128 | SDO_download_complete_access |
| `CompleteAccess.Server.DownloadSegment` | soes/esc_coe.c:1130-1201 | SDO_downloadsegment for Complete Access, also when no download is open; what it does with the pool of buffers: a last segment that comes too early claims a buffer and never requests it |
| `MailboxLeaks.LosesIff` | soes/esc_coe.c:1136-1160 | run on the pool, these calls leave the claimed buffer claimed exactly if the last segment came too early |
| `MailboxLeaks.LeakStays` | soes/esc.c:503-542 | through every run such a buffer stays claimed, and keeps its place in txcue, until the mailboxes stop |
| `MailboxLeaks.CanClaimIff` | soes/esc.c:503-687 | with some buffers lost, some run still claims one for a reply if and only if one is idle now or at least two of those that send are not lost |
| `OdListLaws.ListLaw` | soes/esc_coe.c:1243-1372 | the fragments of a non-empty dictionary carry every index once and in order, fragments left counts down to 0, only the last is complete, each fits the mailbox, and a turn without a buffer neither skips nor repeats |
| `OdListLaws.NoneLeftIff` | soes/esc_coe.c:1258-1307 | a list of one fragment says that none is left exactly when the dictionary has an object; of an empty one 65535 are said to be left |
| `OdListLaws.RequestLaw` | soes/esc_coe.c:1243-1332 | a list request by its type: counts, list, or refused as unsupported; without a buffer no answer and no list; the objects are counted anew in any case |
| `OdList.Server.GetOdList` | soes/esc_coe.c:1243-1331 | SDO_getodlist |
| `OdList.Server.GetOdListCont` | soes/esc_coe.c:1336-1377 | SDO_getodlistcont |
| `HeldLaws.RunConsistent` | soes/esc_coe.c:1530-1675 | in every state that the process gets into, the protocol at work belongs to the request in the mailbox |
| `HeldLaws.BusyTurn` | soes/esc_coe.c:1575-1584 | a turn that takes up an SDO request during a hold drops it from the mailbox, and answers SERVICEINWORK if there is a buffer, else nothing |
| `HeldLaws.BusyIff` | soes/esc_coe.c:1575-1584 | every SDO request taken up in a hold is answered SERVICEINWORK if and only if each turn that takes one up finds a buffer |
| `HeldLaws.HeldLaw` | soes/esc_coe.c:281-332 | the life of a held reply over every run: quiet while held, the SDO requests answered in the hold being those that found a buffer, in order, and all answered SERVICEINWORK; at most one reply at the end, for the held index and subindex, none after a stop, and no stray completion until the next hold |
| `HeldLaws.SdoDuringHoldIff` | soes/esc_coe.c:1655-1670 | an SDO response or abort is sent during a hold exactly when a turn that finds a buffer meets a CoE request of an unknown service |
| `HeldLaws.BlockedUntilStop` | soes/esc_coe.c:1585-1624 | an SDO request no handler takes stays in the mailbox, unanswered, until the mailboxes stop |
| `HeldLaws.ReleasedIff` | soes/esc_coe.c:1575-1624 | a turn is done with an SDO request exactly when a handler takes it or a reply is held |
| `CoeTable.SdoHandler` | soes/esc_coe.c:1575-1624 | the handler of an SDO request by its command specifier, Complete Access bit and length |
| `CoeTable.OtherHandler` | soes/esc_coe.c:1625-1669 | the handler of the information services 1, 3 and 5, and of none else |
| `CoeTable.ShortRequest` | soes/esc_coe.c:1540-1554 | a request too short for CoE is answered twice, as of invalid size and as of no supported protocol |
| `CoeTable.TurnEnds` | soes/esc_coe.c:1530-1670 | how a turn ends with each handler: the mailbox free again and at most one reply with its code, the reply held back, or the request still at work |
| `CoeTable.ListGoesOn` | soes/esc_coe.c:1555-1559 | a list goes on turn by turn, once its last part is read and there is a buffer |
| `CoeTable.OtherProtocol` | soes/esc.c:691-712 | a request that is not for CoE leaves the mailbox: without a reply if FoE or EoE takes it, else answered as not supported |
| `CoeTable.GetsIn` | soes/esc.c:410-435 | stopping the mailboxes ends everything; a request gets in exactly while they run and the one before is done with |
| `HeldReply.Process.Complete` | soes/esc_coe.c:302-332 | ESC_SDO_complete |
| `HeldReply.Process.StopMbx` | soes/esc.c:410-435 | stopping the mailboxes cancels the hold |
| `HeldReply.Process.Hold` | soes/esc_coe.c:915-932 | a download whose hook asks for time is held, or refused if it does not fit one mailbox |
| `HeldReply.Process.Coeprocess` | soes/esc_coe.c:1530-1675 | the dispatch of ESC_coeprocess |
| `GenSpec.Sorts` | tools/gen_od.py:252-254 | the sort is a permutation in ascending order |
| `GenLaws.MappingWordIff` | tools/gen_od.py:426-427 | a mapping word says what its slot is exactly when subindex and length fit 8 bits |
| `GenLaws.AscendsIff` | tools/gen_od.py:516-533 | the object list ascends strictly up to its sentinel exactly when no two rows share an index and none has the sentinel's |
| `GenLaws.CountIff` | tools/gen_od.py:448-449 | sub 0 of a mapping object counts its entries exactly when there are fewer than 256 |
| `GenLaws.AssignmentReadIff` | tools/gen_od.py:524-525 | a master reads the k-th assigned PDO exactly for k up to 1: the list says that the highest subindex is 1 |
| `GenLaws.PdosLaid` | tools/gen_od.py:263-295 | every slot of a PDO is padding or an entry of the dictionary with that entry's length, and fills whole bytes |
| `GenLaws.PdosFollow` | tools/gen_od.py:263-368 | build_pdos returns the template once for each axis, numbered on and with the objects of that axis, then the extra blocks, each entry in its slot |
| `GenLaws.SmFitsIff` | tools/gen_od.py:370-392 | the SyncManager layout is accepted if and only if all three copies of the outputs end before the inputs and all of those in the process RAM |
| `GenLaws.ObjTable` | tools/gen_od.py:486-510 | the table of a clean object is dense, with each sub-entry at its subindex |
| `GenLaws.ValidIff` | tools/gen_od.py:486-510 | the table emitted for an object is one the search of the stack relies on exactly when its sub-entries are numbered without gaps |
| `GenLaws.DirectionAgrees` | soes/esc_coe.c:118-238 | sizeOfPDO over the emitted words of one direction gives the generator's byte count, within the mappings reserved, and every word has the length of the entry it names |
| `GenLaws.Agreement` | tools/gen_od.py:1176-1179 | for every accepted description that meets what the generator leaves unchecked, dictionary, sizes, lengths and the SyncManager layout agree with what the stack checks |
| `GenImage.GeneratedRoundTrip` | tools/gen_od.py:330-392 | from an accepted, clean description to the process image: what the emitted mapping names comes back through the image exactly when its mapped bits carry it, and no bit past the bytes the generator counted is touched |
| `GenImage.TypesAgree` | tools/gen_od.py:34-50 | the C type the stack moves a data type as is the one the generator declares for it, of the length of the entry but for a bool; which other data types have one |
| `GenImage.EmittedConstants` | tools/gen_od.py:440-486 | the emitted counts, mapping words, assignments and SyncManager types are read-only constants whose length is that of their type |
| `Generator.BuildObjects` | tools/gen_od.py:237-260 | build_objects |
| `Generator.ResolvePdo` | tools/gen_od.py:263-295 | resolve_pdo |
| `Generator.BuildPdos` | tools/gen_od.py:330-367 | build_pdos |

## Left out

- SPI transfers, GPIO edges, deadlines, resets and chip bring-up: I/O and timing; `ESC_read` and
  `ESC_write` work on an abstract memory, and the FIFO reports any count its range allows.
- The read of the AL event register that may follow an access (`soes/hal/linux-lan9252-spidev/esc_hw.c:653-760`).
- The benchmark and mirror programs, the ESI text with its refusal of types that have no ESI equivalent,
  C and C++ formatting, names and banners.
- EEPROM emulation, the EoE IP parameter accessors, the FoE file name and password check, and the FoE
  read path, which is not compiled in.
- Application hooks: they come in as the codes they return, an upload hook keeps the size, a state hook
  leaves the states alone.
- Enabling and disabling SyncManagers, and the other ESC registers that the AL state machine writes beside
  AL status and its code.
- `EoeChannel.SenderConserves`: the application provides a free_buffer callback; without one a frame would
  be sent again.
- Big-endian layouts, debug printing and atomic sections: a single thread on a little-endian machine.
- Requests that would overrun a buffer: lengths that agree with the data are preconditions of the
  handlers, and so is a buffer as large as the object of a Complete Access download.
- Which bytes a mailbox buffer holds: the mailbox bookkeeping and the protocol handlers are modelled
  apart, with the claim of a buffer as an input of each handler.
- Transfers that other services interrupt are modelled apart from the undisturbed ones (`Interleaving`);
  there, a request that starts another segmented transfer of an entry ends the one it interrupts.
- SDO Get Object Description and Get Entry Description: single messages, seen by the dispatch only.
- COE_initDefaultValues and COE_maxSub.
- `Sdo.Server.DownloadSegment`: ESCvar.data is a place in the dictionary, so no segment before the first
  transfer, when it is NULL; and none that moves fragsleft past the end of an upload under way.
- `CompleteAccess.Server.DownloadSegment`: the same; ESCvar.index names an object. The one function of the
  code is modelled twice, for each meaning of ESCvar.data; a transfer does not change its kind midway.
- `MailboxSpec.RunKeeps`: pools of up to 255 buffers, because the 8-bit loop of ESC_stopmbx never ends with
  more.
- `AlSafety.RunSafe`: state hooks that do not rewrite the old or the new state.
- `PdoMap.SizeOfPdo`: tables that end before 255, because the 8-bit loops never end otherwise, and no PDO
  under the index of the sentinel, which has no table.
- `ProcessImage.RoundTrip`: entries of up to 64 bits whose data type has a C type.
- `SdoLaws.UploadThenDownload`: entries with a bit, because of an empty one the master gets a byte that is
  not its own.
- `OdListLaws.ListLaw`: a mailbox of at least 16 bytes, so that a fragment has room for an index.
- `GenSpec.Sorts`: the sort of the Python library, of which the permutation and the order matter.
- `Generator.BuildObjects`: the YAML loading and merging, and the value, storage and access fields, which
  do not take part in the layout.
- The bootstrap word string of the SII (`tools/gen_od.py:788-799`): four constants in hexadecimal.
