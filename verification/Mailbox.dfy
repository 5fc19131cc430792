/**
 The mailbox buffer protocol of esc.c: a pool of buffers, of which buffer 0 receives and the others
 are claimed, requested, posted, kept as backup and repeated; and its bookkeeping in txcue,
 mbxoutpost and mbxbackup.
 */
module MailboxSpec {
  import opened Base

  /** MBXstate_idle .. MBXstate_again. */
  datatype Buf = Idle | InClaim | OutClaim | OutReq | OutPost | Backup | Again

  /** MBXcontrol and the mailbox fields of ESCvar. */
  datatype Mbx = Mbx(buf: seq<Buf>, txcue: nat, outpost: nat, backup: nat, free: bool, cnt: nat,
                     xoe: bool, toggle: bool, running: bool, inCnt: nat)

  /** The number of buffers in a state. */
  function CountIn(bs: seq<Buf>, b: Buf): nat {
    if bs == [] then 0 else CountIn(bs[..|bs| - 1], b) + (if bs[|bs| - 1] == b then 1 else 0)
  }

  /** Buffers waiting to go out: claimed or requested. */
  function Waiting(bs: seq<Buf>): nat { CountIn(bs, OutClaim) + CountIn(bs, OutReq) }

  lemma {:induction false} CountUpdate(bs: seq<Buf>, n: nat, b: Buf, x: Buf)
    requires n < |bs|
    ensures CountIn(bs[n := b], x) == CountIn(bs, x) - (if bs[n] == x then 1 else 0) + (if b == x then 1 else 0)
  {
    var m := |bs| - 1;
    if n < m {
      assert bs[n := b][..m] == bs[..m][n := b];
      CountUpdate(bs[..m], n, b, x);
    } else {
      assert bs[n := b][..m] == bs[..m];
    }
  }

  lemma {:induction false} CountNone(bs: seq<Buf>, x: Buf)
    requires x !in bs
    ensures CountIn(bs, x) == 0
  {
    if bs != [] {
      CountNone(bs[..|bs| - 1], x);
    }
  }

  lemma {:induction false} CountDisjoint(bs: seq<Buf>)
    ensures Waiting(bs) <= |bs|
    ensures bs != [] && bs[0] != OutClaim && bs[0] != OutReq ==> Waiting(bs) <= |bs| - 1
  {
    if bs != [] {
      CountDisjoint(bs[..|bs| - 1]);
    }
  }

  // ---------------------------------------------------------------- the bookkeeping invariant

  /** At most the buffer named n is in one of the states, and n is 0 or is in one of them. */
  ghost predicate Names(bs: seq<Buf>, n: nat, a: Buf, b: Buf) {
    && n < |bs|
    && (forall i | 0 <= i < |bs| :: (bs[i] == a || bs[i] == b) <==> (i == n && n != 0))
  }

  ghost predicate Inv(m: Mbx) {
    && 2 <= |m.buf| <= 255
    && (m.buf[0] == Idle || m.buf[0] == InClaim)
    && (forall i | 0 < i < |m.buf| :: m.buf[i] != InClaim)
    && m.txcue == Waiting(m.buf)
    && Names(m.buf, m.backup, Backup, Backup)
    && Names(m.buf, m.outpost, OutPost, Again)
    && (m.outpost != 0 ==> !m.free)
    && m.cnt <= 7
  }

  /** txcue is a byte, and no run of the protocol overflows it. */
  lemma TxcueFits(m: Mbx)
    requires Inv(m)
    ensures m.txcue <= 255 && m.txcue < |m.buf|
    ensures m.outpost != 0 ==> m.outpost != m.backup
  {
    CountDisjoint(m.buf);
    assert m.outpost != 0 ==> m.buf[m.outpost] == OutPost || m.buf[m.outpost] == Again;
  }

  // ---------------------------------------------------------------- steps

  /** The last buffer of the pool in a given state, buffer 0 excepted; 0 if there is none. */
  function LastIn(bs: seq<Buf>, b: Buf): (n: nat)
    ensures n != 0 ==> n < |bs| && bs[n] == b && forall i | n < i < |bs| :: bs[i] != b
    ensures n == 0 ==> forall i | 0 < i < |bs| :: bs[i] != b
  {
    if |bs| <= 1 then 0
    else if bs[|bs| - 1] == b then |bs| - 1
    else
      var n := LastIn(bs[..|bs| - 1], b);
      assert n != 0 ==> bs[..|bs| - 1][n] == bs[n];
      assert forall i | 0 < i < |bs| - 1 :: bs[i] == bs[..|bs| - 1][i];
      n
  }

  /** The next value of the mailbox counter: 1..7, never 0. */
  function NextCnt(cnt: nat): nat { if (cnt + 1) % 8 == 0 then 1 else (cnt + 1) % 8 }

  /** ESC_claimbuffer. */
  function Claim(m: Mbx): (Mbx, nat) {
    var n := LastIn(m.buf, Idle);
    if n == 0 then (m, 0)
    else (m.(buf := m.buf[n := OutClaim], cnt := NextCnt(m.cnt), txcue := m.txcue + 1), n)
  }

  /** A handler asks for a claimed buffer to be sent, or gives another reply in one already asked for. */
  function Request(m: Mbx, n: nat): Mbx
    requires n < |m.buf|
  {
    m.(buf := m.buf[n := OutReq])
  }

  /** What ESC_mbxprocess meets: the SM1 read event, the status bits of both mailbox SyncManagers
      and the repeat bit as they stand after the status refresh, and of a message read in: whether
      its length is invalid, and its counter. */
  datatype MbxEnv = MbxEnv(read: bool, inFull: bool, outFull: bool, repeatBit: bool, badLength: bool, msgCnt: nat)

  /** The message number that goes to the chip, if any, and whether there is work for the protocols. */
  datatype Effect = Effect(mbx: Mbx, written: seq<nat>, work: bool)

  function Process(m: Mbx, env: MbxEnv): Effect
    requires m.backup < |m.buf| && m.outpost < |m.buf| && 0 < |m.buf|
  {
    if !m.running then Effect(m, [], false)
    else if m.outpost != 0 && env.read then OutRead(m)
    else if env.repeatBit != m.toggle then Repeat(m, env.repeatBit)
    else
      var (posted, written) := PostNext(m, env.outFull);
      var (m', work) := TakeIn(posted, env);
      Effect(m', written, work)
  }

  /** The master has read the posted message: it becomes the backup, and the old backup is free. */
  function OutRead(m: Mbx): Effect
    requires m.backup < |m.buf| && m.outpost < |m.buf|
  {
    var freed := if m.backup != 0 then m.buf[m.backup := Idle] else m.buf;
    var again := freed[m.outpost] == Again;
    Effect(m.(buf := freed[m.outpost := Backup], free := !again, backup := m.outpost, outpost := 0),
           if again then [m.outpost] else [], m.xoe)
  }

  /** The master asks for the last message again. */
  function Repeat(m: Mbx, bit: bool): Effect
    requires m.backup < |m.buf| && m.outpost < |m.buf|
  {
    if m.outpost == 0 && m.backup == 0 then Effect(m, [], false)
    else
      Effect(m.(buf := if m.outpost != 0 then m.buf[m.outpost := Again] else m.buf, free := false, toggle := bit),
             [m.backup], false)
  }

  /** A requested message is posted if the out mailbox is free. */
  function PostNext(m: Mbx, outFull: bool): (Mbx, seq<nat>) {
    var n := LastIn(m.buf, OutReq);
    if m.txcue > 0 && (m.free || !outFull) && n != 0 then
      (m.(buf := m.buf[n := OutPost], free := false, outpost := n, txcue := m.txcue - 1), [n])
    else (m, [])
  }

  /** A message is read in if there is one, nothing is posted and nothing is in progress. */
  predicate TakesIn(m: Mbx, env: MbxEnv)
    requires 0 < |m.buf|
  {
    env.inFull && m.buf[0] == Idle && m.outpost == 0 && !m.xoe
  }

  function TakeIn(m: Mbx, env: MbxEnv): (Mbx, bool)
    requires 0 < |m.buf|
  {
    if TakesIn(m, env) then
      (DropRepeated(DropInvalid(Receive(m), env.badLength), env.msgCnt).(inCnt := env.msgCnt), true)
    else (m, false)
  }

  function Receive(m: Mbx): Mbx
    requires 0 < |m.buf|
  {
    m.(buf := m.buf[0 := InClaim])
  }

  /** A message of invalid length is answered with an error and dropped. */
  function DropInvalid(m: Mbx, bad: bool): (m': Mbx)
    requires 0 < |m.buf|
    ensures |m'.buf| == |m.buf|
  {
    if bad then DropIn(Error(m)) else m
  }

  /** A message with the counter of the one before is a repetition and dropped. */
  function DropRepeated(m: Mbx, cnt: nat): Mbx
    requires 0 < |m.buf|
  {
    if cnt != 0 && cnt == m.inCnt then DropIn(m) else m
  }

  function DropIn(m: Mbx): Mbx
    requires 0 < |m.buf|
  {
    m.(buf := m.buf[0 := Idle])
  }

  /** MBX_error, and every handler that answers: claim a buffer and request it, if there is one. */
  function Error(m: Mbx): (m': Mbx)
    ensures |m'.buf| == |m.buf|
  {
    var (c, n) := Claim(m);
    if n == 0 then c else Request(c, n)
  }

  /** A protocol handler: it may start or end a protocol transfer and drop the message read in. */
  function Handle(m: Mbx, xoe: bool, drop: bool): Mbx
    requires 0 < |m.buf|
  {
    (if drop then DropIn(m) else m).(xoe := xoe)
  }

  /** ESC_xoeprocess: a message no protocol took is answered with an error and dropped. */
  function Unclaimed(m: Mbx): Mbx
    requires 0 < |m.buf|
  {
    if m.running && !m.xoe && m.buf[0] == InClaim then DropIn(Error(m)) else m
  }

  /** ESC_startmbx after a passed check. */
  function Start(m: Mbx, repeatBit: bool): Mbx { m.(running := true, toggle := repeatBit) }

  /** ESC_stopmbx. */
  function Stop(m: Mbx): Mbx {
    m.(buf := seq(|m.buf|, i => Idle), txcue := 0, outpost := 0, backup := 0, free := true,
       xoe := false, toggle := false, running := false, inCnt := 0)
  }

  function MbxInit(buffers: nat): Mbx {
    Mbx(seq(buffers, i => Idle), 0, 0, 0, true, 0, false, false, false, 0)
  }

  // ---------------------------------------------------------------- runs

  datatype Ev =
    | EvStart(repeatBit: bool)
    | EvStop
    | EvProcess(env: MbxEnv)
    | EvClaim
    | EvSend
    | EvRequest(n: nat)
    | EvHandle(xoe: bool, drop: bool)
    | EvUnclaimed

  /** What the surroundings guarantee: a buffer is requested only when claimed or already
      requested, and SM1 reports full from a post until its read event. */
  predicate Fair(m: Mbx, e: Ev) {
    match e
    case EvRequest(n) => 0 < n < |m.buf| && (m.buf[n] == OutClaim || m.buf[n] == OutReq)
    case EvProcess(env) => m.outpost != 0 && !env.read ==> env.outFull
    case _ => true
  }

  function Next(m: Mbx, e: Ev): Mbx
    requires m.backup < |m.buf| && m.outpost < |m.buf| && Fair(m, e)
  {
    match e
    case EvStart(bit) => Start(m, bit)
    case EvStop => Stop(m)
    case EvProcess(env) => Process(m, env).mbx
    case EvClaim => Claim(m).0
    case EvSend => Error(m)
    case EvRequest(n) => Request(m, n)
    case EvHandle(xoe, drop) => Handle(m, xoe, drop)
    case EvUnclaimed => Unclaimed(m)
  }

  /** A run: the states before, between and after its steps. */
  ghost predicate IsRun(ms: seq<Mbx>, es: seq<Ev>) {
    && |ms| == |es| + 1
    && forall i | 0 <= i < |es| ::
         && ms[i].backup < |ms[i].buf| && ms[i].outpost < |ms[i].buf| && Fair(ms[i], es[i])
         && ms[i + 1] == Next(ms[i], es[i])
  }

  lemma ClaimKeeps(m: Mbx)
    requires Inv(m)
    ensures Inv(Claim(m).0) && (Claim(m).1 != 0 ==> Claim(m).0.buf[Claim(m).1] == OutClaim)
  {
    var n := LastIn(m.buf, Idle);
    if n != 0 {
      CountUpdate(m.buf, n, OutClaim, OutClaim);
      CountUpdate(m.buf, n, OutClaim, OutReq);
    }
  }

  lemma RequestKeeps(m: Mbx, n: nat)
    requires Inv(m) && 0 < n < |m.buf| && (m.buf[n] == OutClaim || m.buf[n] == OutReq)
    ensures Inv(Request(m, n))
  {
    CountUpdate(m.buf, n, OutReq, OutClaim);
    CountUpdate(m.buf, n, OutReq, OutReq);
  }

  lemma ErrorKeeps(m: Mbx)
    requires Inv(m)
    ensures Inv(Error(m)) && Error(m).buf[0] == m.buf[0]
    ensures Error(m).(buf := m.buf, cnt := m.cnt, txcue := m.txcue) == m
  {
    ClaimKeeps(m);
    var (c, n) := Claim(m);
    if n != 0 {
      RequestKeeps(c, n);
    }
  }

  lemma DropKeeps(m: Mbx)
    requires Inv(m)
    ensures Inv(DropIn(m))
  {
    CountUpdate(m.buf, 0, Idle, OutClaim);
    CountUpdate(m.buf, 0, Idle, OutReq);
  }

  lemma OutReadKeeps(m: Mbx)
    requires Inv(m) && m.outpost != 0
    ensures Inv(OutRead(m).mbx)
  {
    var freed := if m.backup != 0 then m.buf[m.backup := Idle] else m.buf;
    if m.backup != 0 {
      CountUpdate(m.buf, m.backup, Idle, OutClaim);
      CountUpdate(m.buf, m.backup, Idle, OutReq);
    }
    CountUpdate(freed, m.outpost, Backup, OutClaim);
    CountUpdate(freed, m.outpost, Backup, OutReq);
  }

  lemma RepeatKeeps(m: Mbx, bit: bool)
    requires Inv(m)
    ensures Inv(Repeat(m, bit).mbx)
  {
    if m.outpost != 0 {
      CountUpdate(m.buf, m.outpost, Again, OutClaim);
      CountUpdate(m.buf, m.outpost, Again, OutReq);
    }
  }

  lemma PostKeeps(m: Mbx, outFull: bool)
    requires Inv(m) && (m.outpost != 0 ==> outFull)
    ensures Inv(PostNext(m, outFull).0)
    ensures PostNext(m, outFull).0.buf[0] == m.buf[0]
  {
    var n := LastIn(m.buf, OutReq);
    if m.txcue > 0 && (m.free || !outFull) && n != 0 {
      CountUpdate(m.buf, n, OutPost, OutClaim);
      CountUpdate(m.buf, n, OutPost, OutReq);
    }
  }

  lemma ReceiveKeeps(m: Mbx)
    requires Inv(m)
    ensures Inv(Receive(m))
  {
    CountUpdate(m.buf, 0, InClaim, OutClaim);
    CountUpdate(m.buf, 0, InClaim, OutReq);
  }

  lemma TakeInKeeps(m: Mbx, env: MbxEnv)
    requires Inv(m)
    ensures Inv(TakeIn(m, env).0)
  {
    ReceiveKeeps(m);
    var m1 := Receive(m);
    ErrorKeeps(m1);
    DropKeeps(Error(m1));
    DropKeeps(DropInvalid(m1, env.badLength));
  }

  lemma AllIdle(n: nat)
    ensures Waiting(seq(n, i => Idle)) == 0
  {
    CountNone(seq(n, i => Idle), OutClaim);
    CountNone(seq(n, i => Idle), OutReq);
  }

  lemma NextKeeps(m: Mbx, e: Ev)
    requires Inv(m) && Fair(m, e)
    ensures Inv(Next(m, e)) && |Next(m, e).buf| == |m.buf|
  {
    match e
    case EvStart(_) =>
    case EvStop => AllIdle(|m.buf|);
    case EvProcess(env) => ProcessKeeps(m, env);
    case EvClaim => ClaimKeeps(m);
    case EvSend => ErrorKeeps(m);
    case EvRequest(n) => RequestKeeps(m, n);
    case EvHandle(_, _) => DropKeeps(m);
    case EvUnclaimed =>
      ErrorKeeps(m);
      DropKeeps(Error(m));
  }

  lemma ProcessKeeps(m: Mbx, env: MbxEnv)
    requires Inv(m) && (m.outpost != 0 && !env.read ==> env.outFull)
    ensures Inv(Process(m, env).mbx) && |Process(m, env).mbx.buf| == |m.buf|
  {
    if m.running {
      if m.outpost != 0 && env.read {
        OutReadKeeps(m);
      } else if env.repeatBit != m.toggle {
        RepeatKeeps(m, env.repeatBit);
      } else {
        PostKeeps(m, env.outFull);
        TakeInKeeps(PostNext(m, env.outFull).0, env);
      }
    }
  }

  /** A repeat request sends the backup; with a message posted but no backup kept it sends the
      receive buffer instead, and in no other case is buffer 0 ever sent. */
  lemma SendsBufferZeroIff(m: Mbx, env: MbxEnv)
    requires Inv(m) && m.running && (m.outpost != 0 && !env.read ==> env.outFull)
    ensures 0 in Process(m, env).written <==>
              m.outpost != 0 && !env.read && env.repeatBit != m.toggle && m.backup == 0
  {
  }

  /** The mailbox counter of a claimed buffer goes round from 1 to 7: it is never 0 and differs from the one
      before. */
  lemma CounterLaw(m: Mbx)
    requires m.cnt <= 7 && Claim(m).1 != 0
    ensures Claim(m).0.cnt == (if m.cnt == 7 then 1 else m.cnt + 1)
    ensures 1 <= Claim(m).0.cnt <= 7 && Claim(m).0.cnt != m.cnt
  {
  }

  /**
   The bookkeeping holds over every run from a stopped mailbox of 2..255 buffers: txcue is the
   number of claimed and requested buffers, mbxbackup and mbxoutpost name the only buffers in
   their states, an outstanding post means the out mailbox is not free, and buffer 0 only receives.
   */
  lemma {:induction false} RunKeeps(ms: seq<Mbx>, es: seq<Ev>)
    requires IsRun(ms, es) && exists n :: 2 <= n <= 255 && ms[0] == MbxInit(n)
    ensures forall i | 0 <= i < |ms| :: Inv(ms[i])
  {
    var n :| 2 <= n <= 255 && ms[0] == MbxInit(n);
    AllIdle(n);
    if es != [] {
      var k := |es| - 1;
      RunKeeps(ms[..k + 1], es[..k]);
      assert Inv(ms[..k + 1][k]);
      NextKeeps(ms[k], es[k]);
      forall i | 0 <= i < |ms| ensures Inv(ms[i]) {
        assert i <= k ==> ms[i] == ms[..k + 1][i];
      }
    }
  }
}

/** The mailbox handlers over mutable state, as esc.c has them. */
module Mailbox {
  import opened Base
  import opened MailboxSpec

  class Pool {
    const buf: array<Buf>   // MBXcontrol
    var txcue: nat
    var mbxoutpost: nat
    var mbxbackup: nat
    var mbxfree: bool
    var mbxcnt: nat
    var xoe: bool           // a protocol transfer is in progress
    var toggle: bool
    var MBXrun: bool
    var mbxincnt: nat

    ghost function Abs(): Mbx
      reads this, buf
    {
      Mbx(buf[..], txcue, mbxoutpost, mbxbackup, mbxfree, mbxcnt, xoe, toggle, MBXrun, mbxincnt)
    }

    ghost predicate Valid()
      reads this, buf
    {
      Inv(Abs())
    }

    constructor (buffers: nat)
      requires 2 <= buffers <= 255
      ensures fresh(buf) && Valid() && Abs() == MbxInit(buffers)
    {
      buf := new Buf[buffers](_ => Idle);
      txcue, mbxoutpost, mbxbackup, mbxfree, mbxcnt := 0, 0, 0, true, 0;
      xoe, toggle, MBXrun, mbxincnt := false, false, false, 0;
      new;
      AllIdle(buffers);
      assert buf[..] == seq(buffers, i => Idle);
    }

    /** The scan of ESC_claimbuffer and ESC_outreqbuffer, from the end of the pool down to 1. */
    method Scan(b: Buf) returns (n: nat)
      requires 0 < buf.Length
      ensures n == LastIn(buf[..], b)
    {
      n := buf.Length - 1;
      while n > 0 && buf[n] != b
        invariant n < buf.Length
        invariant forall i | n < i < buf.Length :: buf[..][i] != b
      {
        n := n - 1;
      }
      assert n > 0 ==> buf[..][n] == b;
    }

    /** ESC_claimbuffer. */
    method ClaimBuffer() returns (n: nat)
      requires Valid()
      modifies this, buf
      ensures Valid() && (Abs(), n) == Claim(old(Abs()))
      ensures n < buf.Length
    {
      ClaimKeeps(Abs());
      n := Scan(Idle);
      if n > 0 {
        buf[n] := OutClaim;
        CountMessage();
        txcue := txcue + 1;
      }
    }

    /** The mailbox counter of the next message. */
    method CountMessage()
      modifies `mbxcnt
      ensures mbxcnt == NextCnt(old(mbxcnt))
    {
      mbxcnt := (mbxcnt + 1) % 8;
      if mbxcnt == 0 {
        mbxcnt := 1;
      }
    }

    /** MBX_error; every handler that answers claims and requests its buffer the same way. */
    method MbxError()
      requires Valid()
      modifies this, buf
      ensures Valid() && Abs() == Error(old(Abs()))
    {
      ErrorKeeps(Abs());
      var n := ClaimBuffer();
      if n > 0 {
        buf[n] := OutReq;
      }
    }

    /** The read event branch of ESC_mbxprocess. */
    method OutMailboxRead() returns (written: seq<nat>, work: bool)
      requires Valid() && mbxoutpost != 0
      modifies this, buf
      ensures Valid() && Effect(Abs(), written, work) == OutRead(old(Abs()))
    {
      OutReadKeeps(Abs());
      written := [];
      mbxfree := true;
      if mbxbackup != 0 {
        buf[mbxbackup] := Idle;
      }
      if buf[mbxoutpost] == Again {
        written := [mbxoutpost];
        mbxfree := false;
      }
      buf[mbxoutpost] := Backup;
      mbxbackup := mbxoutpost;
      mbxoutpost := 0;
      work := xoe;
    }

    /** The repeat request branch of ESC_mbxprocess. */
    method RepeatRequest(bit: bool) returns (written: seq<nat>)
      requires Valid()
      modifies this, buf
      ensures Valid() && Effect(Abs(), written, false) == Repeat(old(Abs()), bit)
    {
      RepeatKeeps(Abs(), bit);
      written := [];
      if mbxoutpost != 0 || mbxbackup != 0 {
        if mbxoutpost != 0 {
          buf[mbxoutpost] := Again;
        }
        written := [mbxbackup];
        mbxfree := false;
        toggle := bit;
      }
    }

    /** The posting part of ESC_mbxprocess. */
    method PostRequested(outFull: bool) returns (written: seq<nat>)
      requires Valid() && (mbxoutpost != 0 ==> outFull)
      modifies this, buf
      ensures Valid() && (Abs(), written) == PostNext(old(Abs()), outFull)
    {
      PostKeeps(Abs(), outFull);
      written := [];
      if txcue > 0 && (mbxfree || !outFull) {
        var n := Scan(OutReq);
        if n > 0 {
          written := [n];
          Post(n);
        }
      }
    }

    /** A requested buffer is posted. */
    method Post(n: nat)
      requires 0 < n < buf.Length && txcue > 0
      modifies `mbxfree, `mbxoutpost, `txcue, buf
      ensures !mbxfree && mbxoutpost == n && txcue == old(txcue) - 1 && buf[..] == old(buf[..])[n := OutPost]
    {
      mbxfree := false;
      buf[n] := OutPost;
      mbxoutpost := n;
      txcue := txcue - 1;
    }

    /** The receiving part of ESC_mbxprocess. */
    method ReadIn(env: MbxEnv) returns (work: bool)
      requires Valid()
      modifies this, buf
      ensures Valid() && (Abs(), work) == TakeIn(old(Abs()), env)
    {
      TakeInKeeps(Abs(), env);
      ReceiveKeeps(Abs());
      work := false;
      if env.inFull && buf[0] == Idle && mbxoutpost == 0 && !xoe {
        buf[0] := InClaim;
        assert Abs() == Receive(old(Abs()));
        if env.badLength {
          MbxError();
          buf[0] := Idle;
        }
        assert Abs() == DropInvalid(Receive(old(Abs())), env.badLength);
        if env.msgCnt != 0 && env.msgCnt == mbxincnt {
          buf[0] := Idle;
        }
        mbxincnt := env.msgCnt;
        work := true;
      }
    }

    /** ESC_mbxprocess; written lists the buffers handed to the chip. */
    method MbxProcess(env: MbxEnv) returns (written: seq<nat>, work: bool)
      requires Valid() && (mbxoutpost != 0 && !env.read ==> env.outFull)
      modifies this, buf
      ensures Valid() && Effect(Abs(), written, work) == Process(old(Abs()), env)
    {
      written, work := [], false;
      if !MBXrun {
        return;
      }
      if mbxoutpost != 0 && env.read {
        written, work := OutMailboxRead();
        return;
      }
      if env.repeatBit != toggle {
        written := RepeatRequest(env.repeatBit);
        return;
      }
      written := PostRequested(env.outFull);
      work := ReadIn(env);
    }

    /** ESC_xoeprocess. */
    method XoeProcess()
      requires Valid()
      modifies this, buf
      ensures Valid() && Abs() == Unclaimed(old(Abs()))
    {
      NextKeeps(Abs(), EvUnclaimed);
      if MBXrun && !xoe && buf[0] == InClaim {
        MbxError();
        buf[0] := Idle;
      }
    }

    /** ESC_stopmbx. */
    method StopMbx()
      requires Valid()
      modifies this, buf
      ensures Valid() && Abs() == Stop(old(Abs()))
    {
      NextKeeps(Abs(), EvStop);
      MBXrun := false;
      IdleAll();
      ClearFields();
    }

    /** The fields that ESC_stopmbx clears. */
    method ClearFields()
      modifies `mbxoutpost, `mbxbackup, `xoe, `mbxfree, `toggle, `mbxincnt, `txcue
      ensures mbxoutpost == mbxbackup == mbxincnt == txcue == 0 && !xoe && mbxfree && !toggle
    {
      mbxoutpost, mbxbackup, xoe, mbxfree, toggle, mbxincnt, txcue := 0, 0, false, true, false, 0, 0;
    }

    /** The loop of ESC_stopmbx. */
    method IdleAll()
      modifies buf
      ensures buf[..] == seq(buf.Length, i => Idle)
    {
      for n := 0 to buf.Length
        invariant forall i | 0 <= i < n :: buf[i] == Idle
      {
        buf[n] := Idle;
      }
    }
  }
}

/** In which order queued replies leave. */
module MailboxOrder {
  import opened Base
  import opened MailboxSpec

  /** Replies are claimed and requested in one go, as all handlers but the failing exits of the
      segmented download do. */
  predicate Prompt(es: seq<Ev>) {
    forall i | 0 <= i < |es| :: !es[i].EvClaim? && !es[i].EvRequest?
  }

  /** The buffer a reply goes to, if any. */
  function Sent(m: Mbx): seq<nat> {
    if Claim(m).1 == 0 then [] else [Claim(m).1]
  }

  /** The buffer a step posts, if any. */
  function Posted(m: Mbx, e: Ev): seq<nat>
    requires m.backup < |m.buf| && m.outpost < |m.buf|
  {
    if !e.EvProcess? || Idles(m, e.env) then [] else PostNext(m, e.env.outFull).1
  }

  /** The requested buffers, oldest first, after a step. */
  function QueueAfter(m: Mbx, q: seq<nat>, e: Ev): seq<nat>
    requires m.backup < |m.buf| && m.outpost < |m.buf| && Fair(m, e)
  {
    match e
    case EvStop => []
    case EvSend => q + Sent(m)
    case EvUnclaimed => if m.running && !m.xoe && m.buf[0] == InClaim then q + Sent(m) else q
    case EvProcess(env) =>
      if Idles(m, env) then q else QueueTaking(PostNext(m, env.outFull).0, QueuePosted(m, q, e), env)
    case _ => q
  }

  /** ESC_mbxprocess does nothing, or only sees to a read or repeat event. */
  predicate Idles(m: Mbx, env: MbxEnv) {
    !m.running || (m.outpost != 0 && env.read) || env.repeatBit != m.toggle
  }

  function QueuePosted(m: Mbx, q: seq<nat>, e: Ev): seq<nat>
    requires m.backup < |m.buf| && m.outpost < |m.buf|
  {
    if Posted(m, e) == [] then q else Without(q, Posted(m, e)[0])
  }

  function QueueTaking(m: Mbx, q: seq<nat>, env: MbxEnv): seq<nat>
    requires 0 < |m.buf|
  {
    if TakesIn(m, env) && env.badLength then q + Sent(Receive(m)) else q
  }

  function Without(q: seq<nat>, n: nat): seq<nat> {
    if q == [] then [] else (if q[0] == n then [] else [q[0]]) + Without(q[1..], n)
  }

  /** The queue after the first n steps of a run. */
  ghost function Queue(ms: seq<Mbx>, es: seq<Ev>, n: nat): seq<nat>
    requires IsRun(ms, es) && n <= |es|
  {
    if n == 0 then [] else QueueAfter(ms[n - 1], Queue(ms, es, n - 1), es[n - 1])
  }

  /** Every post takes the oldest request. */
  ghost predicate InOrder(ms: seq<Mbx>, es: seq<Ev>)
    requires IsRun(ms, es)
  {
    forall n | 0 <= n < |es| :: Posted(ms[n], es[n]) <= Queue(ms, es, n)
  }

  /** With one or two reply buffers the queue is read off their states. */
  ghost predicate QueueIs(m: Mbx, q: seq<nat>) {
    Inv(m) && QueueOf(m.buf, q)
  }

  ghost predicate QueueOf(bs: seq<Buf>, q: seq<nat>) {
    && 2 <= |bs| <= 3 && OutClaim !in bs
    && q == (if |bs| == 3 && bs[2] == OutReq then [2] else []) + (if bs[1] == OutReq then [1] else [])
    && (|bs| == 3 && bs[1] == OutReq ==> bs[2] != Idle)
  }

  lemma SendQueue(m: Mbx, q: seq<nat>)
    requires QueueIs(m, q)
    ensures QueueIs(Error(m), q + Sent(m)) && Error(m).buf[0] == m.buf[0]
  {
    ErrorKeeps(m);
    var n := Claim(m).1;
    if n == 0 {
      assert Error(m) == m && q + [] == q;
    } else {
      Queued(m.buf, q, n);
      assert Error(m).buf == m.buf[n := OutReq];
    }
  }

  /** A reply goes to the end of the queue. */
  lemma Queued(bs: seq<Buf>, q: seq<nat>, n: nat)
    requires QueueOf(bs, q) && n == LastIn(bs, Idle) != 0
    ensures QueueOf(bs[n := OutReq], q + [n])
  {
    if |bs| == 3 && n == 2 {
      assert bs[1] != OutReq && q == [];
    }
  }

  lemma PostQueue(m: Mbx, q: seq<nat>, outFull: bool)
    requires QueueIs(m, q) && (m.outpost != 0 ==> outFull)
    ensures var (p, posted) := PostNext(m, outFull);
            && posted <= q && QueueIs(p, if posted == [] then q else Without(q, posted[0]))
  {
    PostKeeps(m, outFull);
    assert Without([2, 1], 2) == [1] by {
      assert [2, 1][1..] == [1];
      WithoutOne(1, 2);
    }
    WithoutOne(2, 2);
    WithoutOne(1, 1);
  }

  lemma WithoutOne(a: nat, n: nat)
    ensures Without([a], n) == if a == n then [] else [a]
  {
    assert [a][1..] == [];
  }

  lemma ProcessQueue(m: Mbx, q: seq<nat>, env: MbxEnv)
    requires QueueIs(m, q) && (m.outpost != 0 && !env.read ==> env.outFull)
    ensures Posted(m, EvProcess(env)) <= q
    ensures QueueIs(Process(m, env).mbx, QueueAfter(m, q, EvProcess(env)))
  {
    if Idles(m, env) {
      IdleQueue(m, q, env);
    } else {
      BusyQueue(m, q, env);
    }
  }

  lemma BusyQueue(m: Mbx, q: seq<nat>, env: MbxEnv)
    requires QueueIs(m, q) && (m.outpost != 0 && !env.read ==> env.outFull) && !Idles(m, env)
    ensures Posted(m, EvProcess(env)) <= q
    ensures QueueIs(Process(m, env).mbx, QueueAfter(m, q, EvProcess(env)))
  {
    var p, q1 := PostNext(m, env.outFull).0, QueuePosted(m, q, EvProcess(env));
    PostedQueue(m, q, env);
    TakeInQueue(p, q1, env);
    BusyProcess(m, env, p);
  }

  lemma PostedQueue(m: Mbx, q: seq<nat>, env: MbxEnv)
    requires QueueIs(m, q) && (m.outpost != 0 && !env.read ==> env.outFull) && !Idles(m, env)
    ensures Posted(m, EvProcess(env)) <= q
    ensures QueueIs(PostNext(m, env.outFull).0, QueuePosted(m, q, EvProcess(env)))
  {
    PostQueue(m, q, env.outFull);
  }

  /** A call with nothing to repeat posts, then takes in. */
  lemma BusyProcess(m: Mbx, env: MbxEnv, p: Mbx)
    requires m.backup < |m.buf| && m.outpost < |m.buf| && 0 < |m.buf| && !Idles(m, env)
    requires p == PostNext(m, env.outFull).0
    ensures Process(m, env).mbx == TakeIn(p, env).0
  {
  }

  lemma IdleQueue(m: Mbx, q: seq<nat>, env: MbxEnv)
    requires QueueIs(m, q) && Idles(m, env)
    ensures QueueIs(Process(m, env).mbx, q)
  {
    if m.running {
      if m.outpost != 0 && env.read {
        OutReadKeeps(m);
      } else {
        RepeatKeeps(m, env.repeatBit);
      }
    }
  }

  /** Buffer 0 only receives, so what happens to it leaves the queue alone. */
  lemma ReceiveQueue(m: Mbx, q: seq<nat>, b: Buf)
    requires QueueIs(m, q) && (b == Idle || b == InClaim)
    ensures QueueIs(m.(buf := m.buf[0 := b]), q)
  {
    ReceiveBuffer(m, b);
    assert OutClaim !in m.buf[0 := b];
  }

  lemma ReceiveBuffer(m: Mbx, b: Buf)
    requires Inv(m) && (b == Idle || b == InClaim)
    ensures Inv(m.(buf := m.buf[0 := b]))
  {
    CountUpdate(m.buf, 0, b, OutClaim);
    CountUpdate(m.buf, 0, b, OutReq);
  }

  lemma TakeInQueue(m: Mbx, q: seq<nat>, env: MbxEnv)
    requires QueueIs(m, q)
    ensures QueueIs(TakeIn(m, env).0, QueueTaking(m, q, env))
  {
    if TakesIn(m, env) {
      ReceiveQueue(m, q, InClaim);
      DropInvalidQueue(Receive(m), q, env.badLength);
      var m2, q2 := DropInvalid(Receive(m), env.badLength), QueueTaking(m, q, env);
      DropRepeatedQueue(m2, q2, env.msgCnt);
      CounterQueue(DropRepeated(m2, env.msgCnt), q2, env.msgCnt);
    }
  }

  lemma DropRepeatedQueue(m: Mbx, q: seq<nat>, cnt: nat)
    requires QueueIs(m, q)
    ensures QueueIs(DropRepeated(m, cnt), q)
  {
    ReceiveQueue(m, q, Idle);
  }

  lemma CounterQueue(m: Mbx, q: seq<nat>, cnt: nat)
    requires QueueIs(m, q)
    ensures QueueIs(m.(inCnt := cnt), q)
  {
  }

  lemma DropInvalidQueue(m: Mbx, q: seq<nat>, bad: bool)
    requires QueueIs(m, q)
    ensures QueueIs(DropInvalid(m, bad), if bad then q + Sent(m) else q)
  {
    if bad {
      SendQueue(m, q);
      ReceiveQueue(Error(m), q + Sent(m), Idle);
    }
  }

  lemma NextQueue(m: Mbx, q: seq<nat>, e: Ev)
    requires QueueIs(m, q) && Fair(m, e) && Prompt([e])
    ensures Posted(m, e) <= q && QueueIs(Next(m, e), QueueAfter(m, q, e))
  {
    assert !([e][0]).EvClaim? && !([e][0]).EvRequest?;
    NextKeeps(m, e);
    match e
    case EvProcess(env) => ProcessQueue(m, q, env);
    case EvSend => SendQueue(m, q);
    case EvUnclaimed => SendQueue(m, q);
    case _ =>
  }

  lemma InitQueue(n: nat)
    requires 2 <= n <= 3
    ensures QueueIs(MbxInit(n), [])
  {
    AllIdle(n);
  }

  lemma {:induction false} RunQueue(ms: seq<Mbx>, es: seq<Ev>, n: nat)
    requires IsRun(ms, es) && Prompt(es) && n <= |es|
    requires ms[0] == MbxInit(2) || ms[0] == MbxInit(3)
    ensures QueueIs(ms[n], Queue(ms, es, n))
  {
    if n == 0 {
      InitQueue(2);
      InitQueue(3);
    } else {
      RunQueue(ms, es, n - 1);
      NextQueue(ms[n - 1], Queue(ms, es, n - 1), es[n - 1]);
    }
  }

  /** Over every run of a mailbox with buffers for at most two replies, replies are posted in the
      order in which they were requested. */
  lemma FirstInFirstOut(ms: seq<Mbx>, es: seq<Ev>)
    requires IsRun(ms, es) && Prompt(es)
    requires ms[0] == MbxInit(2) || ms[0] == MbxInit(3)
    ensures InOrder(ms, es)
  {
    forall n | 0 <= n < |es| ensures Posted(ms[n], es[n]) <= Queue(ms, es, n) {
      RunQueue(ms, es, n);
      NextQueue(ms[n], Queue(ms, es, n), es[n]);
    }
  }

  // ---------------------------------------------------------------- more than two reply buffers

  const IdleEnv := MbxEnv(false, false, false, false, false, 0)

  /** Three replies, the first two of them posted and read, then a fourth. */
  const OvertakingRun: seq<Ev> := [
    EvStart(false), EvSend, EvSend, EvSend,
    EvProcess(IdleEnv), EvProcess(IdleEnv.(read := true)), EvProcess(IdleEnv), EvProcess(IdleEnv.(read := true)),
    EvSend, EvProcess(IdleEnv)]

  lemma LastIs(bs: seq<Buf>, b: Buf, n: nat)
    requires 0 < n < |bs| && bs[n] == b && forall i | n < i < |bs| :: bs[i] != b
    ensures LastIn(bs, b) == n
  {
  }

  /** What the state of a pool of n buffers is after the first sends and posts. */
  function Shape(n: nat, last: Buf, second: Buf, third: Buf): seq<Buf>
    requires n >= 4
  {
    seq(n, i => if i == n - 1 then last else if i == n - 2 then second else if i == n - 3 then third else Idle)
  }

  /** The state after k steps of that run. */
  function Overtaking(n: nat, k: nat): Mbx
    requires n >= 4 && k <= 10
  {
    var a, b := n - 1, n - 2;
    if k == 0 then MbxInit(n)
    else if k == 1 then Mbx(Shape(n, Idle, Idle, Idle), 0, 0, 0, true, 0, false, false, true, 0)
    else if k == 2 then Mbx(Shape(n, OutReq, Idle, Idle), 1, 0, 0, true, 1, false, false, true, 0)
    else if k == 3 then Mbx(Shape(n, OutReq, OutReq, Idle), 2, 0, 0, true, 2, false, false, true, 0)
    else if k == 4 then Mbx(Shape(n, OutReq, OutReq, OutReq), 3, 0, 0, true, 3, false, false, true, 0)
    else if k == 5 then Mbx(Shape(n, OutPost, OutReq, OutReq), 2, a, 0, false, 3, false, false, true, 0)
    else if k == 6 then Mbx(Shape(n, Backup, OutReq, OutReq), 2, 0, a, true, 3, false, false, true, 0)
    else if k == 7 then Mbx(Shape(n, Backup, OutPost, OutReq), 1, b, a, false, 3, false, false, true, 0)
    else if k == 8 then Mbx(Shape(n, Idle, Backup, OutReq), 1, 0, b, true, 3, false, false, true, 0)
    else if k == 9 then Mbx(Shape(n, OutReq, Backup, OutReq), 2, 0, b, true, 4, false, false, true, 0)
    else Mbx(Shape(n, OutPost, Backup, OutReq), 1, a, b, false, 4, false, false, true, 0)
  }

  lemma SendShape(n: nat, k: nat)
    requires n >= 4 && (k == 1 || k == 2 || k == 3 || k == 8)
    ensures Error(Overtaking(n, k)) == Overtaking(n, k + 1)
    ensures Sent(Overtaking(n, k)) == [if k == 1 || k == 8 then n - 1 else if k == 2 then n - 2 else n - 3]
  {
    var at := if k == 1 || k == 8 then n - 1 else if k == 2 then n - 2 else n - 3;
    LastIs(Overtaking(n, k).buf, Idle, at);
    assert Overtaking(n, k).buf[at := OutClaim][at := OutReq] == Overtaking(n, k + 1).buf;
  }

  lemma PostShape(n: nat, k: nat)
    requires n >= 4 && (k == 4 || k == 6 || k == 9)
    ensures Process(Overtaking(n, k), IdleEnv).mbx == Overtaking(n, k + 1)
    ensures Posted(Overtaking(n, k), EvProcess(IdleEnv)) == [if k == 6 then n - 2 else n - 1]
  {
    var at := if k == 6 then n - 2 else n - 1;
    LastIs(Overtaking(n, k).buf, OutReq, at);
    assert Overtaking(n, k).buf[at := OutPost] == Overtaking(n, k + 1).buf;
  }

  lemma ReadShape(n: nat, k: nat)
    requires n >= 4 && (k == 5 || k == 7)
    ensures Process(Overtaking(n, k), IdleEnv.(read := true)).mbx == Overtaking(n, k + 1)
  {
    var m := Overtaking(n, k);
    if k == 7 {
      assert m.buf[m.backup := Idle][m.outpost := Backup] == Overtaking(n, 8).buf;
    } else {
      assert m.buf[m.outpost := Backup] == Overtaking(n, 6).buf;
    }
  }

  lemma OvertakingStep(n: nat, k: nat)
    requires n >= 4 && k < 10
    ensures Fair(Overtaking(n, k), OvertakingRun[k])
    ensures Next(Overtaking(n, k), OvertakingRun[k]) == Overtaking(n, k + 1)
  {
    if k == 0 {
      assert MbxInit(n).buf == Shape(n, Idle, Idle, Idle);
    } else if k == 1 || k == 2 || k == 3 || k == 8 {
      SendShape(n, k);
    } else if k == 5 || k == 7 {
      ReadShape(n, k);
    } else {
      PostShape(n, k);
    }
  }

  function OvertakingStates(n: nat): seq<Mbx>
    requires n >= 4
  {
    seq(11, k requires 0 <= k <= 10 => Overtaking(n, k))
  }

  lemma OvertakingIsRun(n: nat)
    requires n >= 4
    ensures IsRun(OvertakingStates(n), OvertakingRun)
  {
    forall k | 0 <= k < 10
      ensures Fair(OvertakingStates(n)[k], OvertakingRun[k])
      ensures OvertakingStates(n)[k + 1] == Next(OvertakingStates(n)[k], OvertakingRun[k])
    {
      OvertakingStep(n, k);
    }
  }

  /** With three or more reply buffers a later reply can overtake an earlier one. */
  lemma Overtakes(n: nat) returns (ms: seq<Mbx>)
    requires n >= 4
    ensures IsRun(ms, OvertakingRun) && Prompt(OvertakingRun) && ms[0] == MbxInit(n) && !InOrder(ms, OvertakingRun)
  {
    ms := OvertakingStates(n);
    OvertakingIsRun(n);
    OvertakingQueueIs(n, ms, 9);
    PostShape(n, 9);
    assert OvertakingQueue(n, 9)[0] != n - 1;
  }

  /** The requests pending after k steps of that run, oldest first. */
  function OvertakingQueue(n: nat, k: nat): seq<nat>
    requires n >= 4 && k <= 9
  {
    if k <= 1 then []
    else if k == 2 then [n - 1]
    else if k == 3 then [n - 1, n - 2]
    else if k == 4 then [n - 1, n - 2, n - 3]
    else if k <= 6 then [n - 2, n - 3]
    else if k <= 8 then [n - 3]
    else [n - 3, n - 1]
  }

  lemma OvertakingPost(n: nat, k: nat)
    requires n >= 4 && (k == 4 || k == 6)
    ensures OvertakingRun[k] == EvProcess(IdleEnv)
    ensures QueueAfter(Overtaking(n, k), OvertakingQueue(n, k), OvertakingRun[k]) == OvertakingQueue(n, k + 1)
  {
    PostShape(n, k);
    var rest: seq<nat> := if k == 4 then [n - 2, n - 3] else [n - 3];
    var at := if k == 4 then n - 1 else n - 2;
    assert OvertakingQueue(n, k) == [at] + rest;
    HeadPosted(Overtaking(n, k), at, rest);
  }

  /** A turn that posts the oldest request and takes nothing in leaves the others. */
  lemma HeadPosted(m: Mbx, at: nat, rest: seq<nat>)
    requires m.backup < |m.buf| && m.outpost < |m.buf| && 0 < |m.buf| && Fair(m, EvProcess(IdleEnv))
    requires Posted(m, EvProcess(IdleEnv)) == [at] && at !in rest
    ensures QueueAfter(m, [at] + rest, EvProcess(IdleEnv)) == rest
  {
    WithoutHead(at, rest);
  }

  lemma OvertakingQueueStep(n: nat, k: nat)
    requires n >= 4 && k < 9
    ensures Fair(Overtaking(n, k), OvertakingRun[k])
    ensures QueueAfter(Overtaking(n, k), OvertakingQueue(n, k), OvertakingRun[k]) == OvertakingQueue(n, k + 1)
  {
    OvertakingStep(n, k);
    if k == 1 || k == 2 || k == 3 || k == 8 {
      SendShape(n, k);
    } else if k == 4 || k == 6 {
      OvertakingPost(n, k);
    } else if k == 5 || k == 7 {
      assert Idles(Overtaking(n, k), IdleEnv.(read := true));
    }
  }

  lemma {:induction false} OvertakingQueueIs(n: nat, ms: seq<Mbx>, k: nat)
    requires n >= 4 && IsRun(ms, OvertakingRun) && k <= 9
    requires forall j | 0 <= j <= 10 :: ms[j] == Overtaking(n, j)
    ensures Queue(ms, OvertakingRun, k) == OvertakingQueue(n, k)
  {
    if k > 0 {
      OvertakingQueueIs(n, ms, k - 1);
      OvertakingQueueStep(n, k - 1);
    }
  }

  lemma {:induction false} WithoutHead(a: nat, q: seq<nat>)
    requires a !in q
    ensures Without([a] + q, a) == q
  {
    assert ([a] + q)[1..] == q;
    WithoutAbsent(a, q);
  }

  lemma {:induction false} WithoutAbsent(a: nat, q: seq<nat>)
    requires a !in q
    ensures Without(q, a) == q
  {
    if q != [] {
      WithoutAbsent(a, q[1..]);
    }
  }

  ghost predicate InOrderRun(n: nat, ms: seq<Mbx>, es: seq<Ev>) {
    IsRun(ms, es) && Prompt(es) && ms[0] == MbxInit(n) ==> InOrder(ms, es)
  }

  /** Replies leave in the order of their requests, in every run, exactly when the mailbox has no
      more than three buffers. */
  lemma InOrderIff(n: nat)
    requires 2 <= n <= 255
    ensures (forall ms, es :: InOrderRun(n, ms, es)) <==> n <= 3
  {
    if n <= 3 {
      forall ms, es ensures InOrderRun(n, ms, es) {
        if IsRun(ms, es) && Prompt(es) && ms[0] == MbxInit(n) {
          FirstInFirstOut(ms, es);
        }
      }
    } else {
      var ms := Overtakes(n);
      assert !InOrderRun(n, ms, OvertakingRun);
    }
  }
}
