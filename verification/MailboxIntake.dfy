/**
 What becomes of the messages the master writes, and of its repeat requests: each message read in is kept
 or dropped by its length and counter, kept once and until it is handled, and a repeat request is served once.
 */
module MailboxIntake {
  import opened Base
  import opened MailboxSpec

  // ---------------------------------------------------------------- one message

  /** A requested message goes out in this call. */
  predicate Posts(m: Mbx, env: MbxEnv) {
    m.txcue > 0 && (m.free || !env.outFull) && exists i :: 0 < i < |m.buf| && m.buf[i] == OutReq
  }

  /** A message is read in by this call: the mailbox runs, there is no read event or repeat request to serve
      first, nothing is posted or goes out now, no protocol is at work, and the last message is handled. */
  predicate ReadsIn(m: Mbx, env: MbxEnv)
    requires 0 < |m.buf|
  {
    && m.running && m.outpost == 0 && env.repeatBit == m.toggle && !Posts(m, env)
    && env.inFull && m.buf[0] == Idle && !m.xoe
  }

  /** A message of valid length that is not the one before once more; the counter 0 is not compared. */
  predicate IsNew(bad: bool, cnt: nat, before: nat) {
    !bad && (cnt == 0 || cnt != before)
  }

  /** Buffer 0 takes a message to be handled. */
  predicate Takes(m: Mbx, t: Mbx)
    requires 0 < |m.buf| && 0 < |t.buf|
  {
    m.buf[0] == Idle && t.buf[0] == InClaim
  }

  /** One error reply is asked for, in a buffer that was idle, unless all are in use. */
  ghost predicate Answered(m: Mbx, t: Mbx)
    requires 0 < |m.buf| == |t.buf|
  {
    var others, after := m.buf[1..], t.buf[1..];
    if Idle in others then
      && t.txcue == m.txcue + 1
      && exists n :: 0 <= n < |others| && others[n] == Idle && after == others[n := OutReq]
    else t.txcue == m.txcue && after == others
  }

  lemma ErrorAnswers(m: Mbx)
    requires 0 < |m.buf|
    ensures Answered(m, Error(m)) && Error(m).buf[0] == m.buf[0]
    ensures Error(m) == m.(buf := Error(m).buf, txcue := Error(m).txcue, cnt := Error(m).cnt)
  {
    var n, others := LastIn(m.buf, Idle), m.buf[1..];
    if n != 0 {
      assert others[n - 1] == Idle;
      assert Error(m).buf[1..] == others[n - 1 := OutReq];
    } else {
      assert forall i | 0 <= i < |others| :: others[i] == m.buf[i + 1];
    }
  }

  lemma PostsIff(m: Mbx, env: MbxEnv)
    requires Inv(m)
    ensures var (t, written) := PostNext(m, env.outFull);
            && (Posts(m, env) <==> written != []) && t.buf[0] == m.buf[0] && |t.buf| == |m.buf|
            && (if Posts(m, env) then t.outpost != 0 else t == m)
            && t.xoe == m.xoe && t.inCnt == m.inCnt
  {
  }

  /**
   A message is read in exactly under these guards. It then is the one to be handled if and only if its length
   is valid and its counter is 0 or differs from that of the message read in before; if not, buffer 0 is free
   again, with an error reply to a message of invalid length. The protocols are run for it, and after a read
   event if one of them is at work.
   */
  lemma IntakeLaw(m: Mbx, env: MbxEnv)
    requires Inv(m) && (m.outpost != 0 && !env.read ==> env.outFull)
    ensures var t := Process(m, env).mbx;
            && |t.buf| == |m.buf|
            && (Takes(m, t) <==> ReadsIn(m, env) && IsNew(env.badLength, env.msgCnt, m.inCnt))
            && t.inCnt == (if ReadsIn(m, env) then env.msgCnt else m.inCnt)
            && (!Takes(m, t) ==> t.buf[0] == m.buf[0])
            && (Process(m, env).work <==>
                  ReadsIn(m, env) || (m.running && m.outpost != 0 && env.read && m.xoe))
            && (ReadsIn(m, env) ==> if env.badLength then Answered(m, t)
                                    else t.buf[1..] == m.buf[1..] && t.txcue == m.txcue)
  {
    if m.running && !(m.outpost != 0 && env.read) && env.repeatBit == m.toggle {
      PostsIff(m, env);
      if ReadsIn(m, env) {
        ReadInLaw(m, env);
      }
    }
  }

  lemma ReadInLaw(m: Mbx, env: MbxEnv)
    requires Inv(m) && TakesIn(m, env)
    ensures var (t, work) := TakeIn(m, env);
            && work && |t.buf| == |m.buf| && t.inCnt == env.msgCnt
            && t.buf[0] == (if IsNew(env.badLength, env.msgCnt, m.inCnt) then InClaim else Idle)
            && if env.badLength then Answered(m, t) else t.buf[1..] == m.buf[1..] && t.txcue == m.txcue
  {
    var m1 := Receive(m);
    ErrorAnswers(m1);
    var e := Error(m1);
    assert m1.buf[1..] == m.buf[1..] && e.buf[0 := Idle][1..] == e.buf[1..] && m1.buf[0 := Idle][1..] == m.buf[1..];
  }

  /** A kept message stays until a handler drops it, no handler is found for it, or the mailbox stops. */
  lemma KeptUntil(m: Mbx, e: Ev)
    requires Inv(m) && Fair(m, e) && m.buf[0] == InClaim
    ensures Next(m, e).buf[0] == InClaim <==>
              !(e.EvStop? || (e.EvHandle? && e.drop) || (e.EvUnclaimed? && m.running && !m.xoe))
  {
    NextKeeps(m, e);
    match e
    case EvProcess(env) => IntakeLaw(m, env);
    case EvSend => ErrorKeeps(m);
    case _ =>
  }

  /** A message that no handler takes is answered with an error and dropped. */
  lemma UnclaimedLaw(m: Mbx)
    requires Inv(m)
    ensures var t := Unclaimed(m);
            if m.running && !m.xoe && m.buf[0] == InClaim then t.buf != [] && t.buf[0] == Idle && Answered(m, t)
            else t == m
  {
    ErrorAnswers(m);
    var e := Error(m);
    assert e.buf[0 := Idle][1..] == e.buf[1..];
  }

  // ---------------------------------------------------------------- over every run

  /** What happens on the way in: the mailbox stops, or step number at reads in a message. */
  datatype In = Stopped | Read(at: nat, bad: bool, cnt: nat)

  function InOf(m: Mbx, e: Ev, at: nat): seq<In>
    requires 0 < |m.buf|
  {
    match e
    case EvStop => [Stopped]
    case EvProcess(env) => if ReadsIn(m, env) then [Read(at, env.badLength, env.msgCnt)] else []
    case _ => []
  }

  /** The messages that the first n steps of a run read in. */
  ghost function Incoming(ms: seq<Mbx>, es: seq<Ev>, n: nat): seq<In>
    requires n <= |es| && |ms| == |es| + 1 && forall i | 0 <= i < |ms| :: 0 < |ms[i].buf|
  {
    if n == 0 then [] else Incoming(ms, es, n - 1) + InOf(ms[n - 1], es[n - 1], n - 1)
  }

  /** The counter of the message before; none since a stop. */
  function Before(h: seq<In>): nat {
    if h == [] || h[|h| - 1].Stopped? then 0 else h[|h| - 1].cnt
  }

  /** The steps whose message is valid and no immediate repetition. */
  function NewOnes(h: seq<In>): seq<nat> {
    if h == [] then []
    else
      var rest, x := h[..|h| - 1], h[|h| - 1];
      NewOnes(rest) + if x.Read? && IsNew(x.bad, x.cnt, Before(rest)) then [x.at] else []
  }

  /** The steps of a run in which buffer 0 takes a message to be handled. */
  ghost function Kept(ms: seq<Mbx>, n: nat): seq<nat>
    requires n < |ms| && forall i | 0 <= i < |ms| :: 0 < |ms[i].buf|
  {
    if n == 0 then [] else Kept(ms, n - 1) + if Takes(ms[n - 1], ms[n]) then [n - 1] else []
  }

  lemma StepIntake(m: Mbx, e: Ev, h: seq<In>, at: nat)
    requires Inv(m) && Fair(m, e) && m.inCnt == Before(h)
    ensures var t, h' := Next(m, e), h + InOf(m, e, at);
            && |t.buf| == |m.buf| && t.inCnt == Before(h')
            && NewOnes(h') == NewOnes(h) + if Takes(m, t) then [at] else []
  {
    var x := InOf(m, e, at);
    assert h + [] == h && NewOnes(h) + [] == NewOnes(h);
    if x != [] {
      assert (h + x)[..|h|] == h;
    }
    NextKeeps(m, e);
    match e
    case EvProcess(env) => IntakeLaw(m, env);
    case EvSend => ErrorKeeps(m);
    case EvUnclaimed => ErrorKeeps(m);
    case _ =>
  }

  lemma {:induction false} IntakeUpTo(ms: seq<Mbx>, es: seq<Ev>, n: nat)
    requires IsRun(ms, es) && n <= |es| && ms[0].inCnt == 0
    requires forall i | 0 <= i < |ms| :: Inv(ms[i]) && 0 < |ms[i].buf|
    ensures ms[n].inCnt == Before(Incoming(ms, es, n)) && Kept(ms, n) == NewOnes(Incoming(ms, es, n))
  {
    if n > 0 {
      IntakeUpTo(ms, es, n - 1);
      StepIntake(ms[n - 1], es[n - 1], Incoming(ms, es, n - 1), n - 1);
    }
  }

  /**
   Over every run from a stopped mailbox, the messages kept are exactly those read in, less the ones of invalid
   length and the immediate repetitions since the last stop, in order and once each.
   */
  lemma IntakeOverRun(ms: seq<Mbx>, es: seq<Ev>)
    requires IsRun(ms, es) && exists n :: 2 <= n <= 255 && ms[0] == MbxInit(n)
    ensures forall i | 0 <= i < |ms| :: 0 < |ms[i].buf|
    ensures Kept(ms, |es|) == NewOnes(Incoming(ms, es, |es|))
  {
    RunKeeps(ms, es);
    IntakeUpTo(ms, es, |es|);
  }

  // ---------------------------------------------------------------- repeat requests

  /** A repeat request is due: the mailbox runs, and there is no read event to serve first. */
  predicate AskedAgain(m: Mbx, env: MbxEnv) {
    m.running && !(m.outpost != 0 && env.read) && env.repeatBit != m.toggle
  }

  /**
   A repeat request sends the backup, and the message posted waits to be sent again; it is served once: the
   next call with the same bit is no repeat request. Without a backup and a message posted it stays due.
   */
  lemma RepeatLaw(m: Mbx, env: MbxEnv)
    requires Inv(m) && AskedAgain(m, env)
    ensures var r := Process(m, env);
            && !r.work
            && if m.outpost == 0 && m.backup == 0 then r.mbx == m && r.written == [] && AskedAgain(r.mbx, env)
               else
                 && r.written == [m.backup] && r.mbx.toggle == env.repeatBit && !r.mbx.free
                 && |r.mbx.buf| == |m.buf| && (m.outpost != 0 ==> r.mbx.buf[m.outpost] == Again)
                 && (forall i | 0 <= i < |m.buf| && (i == 0 || i != m.outpost) :: r.mbx.buf[i] == m.buf[i])
                 && r.mbx == m.(buf := r.mbx.buf, free := r.mbx.free, toggle := r.mbx.toggle)
                 && forall later: MbxEnv | later.repeatBit == env.repeatBit :: !AskedAgain(r.mbx, later)
  {
    TxcueFits(m);
  }

  /** A read event makes the message posted the backup and frees the one before; a message that waits to be
      sent again goes out a second time. */
  lemma ReadLaw(m: Mbx, env: MbxEnv)
    requires Inv(m) && m.running && m.outpost != 0 && env.read
    ensures var r, again := Process(m, env), m.buf[m.outpost] == Again;
            && |r.mbx.buf| == |m.buf| && r.mbx.buf[m.outpost] == Backup
            && (m.backup != 0 ==> r.mbx.buf[m.backup] == Idle)
            && (forall i | 0 <= i < |m.buf| && i != m.outpost && (i != m.backup || i == 0) :: r.mbx.buf[i] == m.buf[i])
            && r.mbx.outpost == 0 && r.mbx.backup == m.outpost && r.mbx.free == !again
            && r.written == (if again then [m.outpost] else []) && r.work == m.xoe
  {
    TxcueFits(m);
  }

  /** So when the master asks for a message again while the next is posted, it gets both, in order: the backup
      at once, and the next when it has read that. */
  lemma RepeatThenRead(m: Mbx, ask: MbxEnv, read: MbxEnv)
    requires Inv(m) && m.running && m.outpost != 0 && m.backup != 0 && ask.repeatBit != m.toggle && !ask.read
    requires read.read
    ensures var r1 := Process(m, ask);
            var r2 := Process(r1.mbx, read);
            && r1.written + r2.written == [m.backup, m.outpost]
            && r2.mbx.backup == m.outpost && r2.mbx.buf[m.outpost] == Backup && r2.mbx.buf[m.backup] == Idle
  {
    RepeatLaw(m, ask);
    RepeatKeeps(m, ask.repeatBit);
    TxcueFits(m);
    ReadLaw(Process(m, ask).mbx, read);
  }

  // ---------------------------------------------------------------- start and stop

  /** Stopping leaves the mailbox as after a reset, but for its counter: nothing is claimed, posted or kept, the
      out mailbox is free, no protocol is at work and no message is remembered. */
  lemma StopResets(m: Mbx)
    requires Inv(m)
    ensures Stop(m).running == Stop(m).xoe == false && Stop(m).free && Stop(m).inCnt == 0 && Stop(m).cnt == m.cnt
    ensures |Stop(m).buf| == |m.buf| && forall i | 0 <= i < |m.buf| :: Stop(m).buf[i] == Idle
    ensures Stop(m) == MbxInit(|m.buf|).(cnt := m.cnt)
  {
  }

  /** Starting changes nothing but that the mailbox runs, and takes the repeat bit as it stands for served. */
  lemma StartServed(m: Mbx, env: MbxEnv)
    ensures var t := Start(m, env.repeatBit);
            t.running && !AskedAgain(t, env) && t == m.(running := true, toggle := t.toggle)
  {
  }
}
