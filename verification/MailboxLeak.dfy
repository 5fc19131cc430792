/**
 Buffers that are claimed and never requested, as the failing exits of a segmented Complete Access
 download leave them: what is left of the mailbox.
 */
module MailboxLeaks {
  import opened Base
  import opened MailboxSpec

  /** These buffers are claimed. */
  ghost predicate Claimed(m: Mbx, lost: set<nat>) {
    forall i | i in lost :: 0 < i < |m.buf| && m.buf[i] == OutClaim
  }

  /** A step that leaves lost buffers lost: none of them is requested, and the mailboxes do not stop. */
  ghost predicate Leaves(m: Mbx, e: Ev, lost: set<nat>) {
    && m.backup < |m.buf| && m.outpost < |m.buf| && Fair(m, e)
    && !e.EvStop? && (e.EvRequest? ==> e.n !in lost)
  }

  /** A run of such steps. */
  ghost predicate Leaky(m: Mbx, es: seq<Ev>, lost: set<nat>)
    decreases |es|
  {
    es != [] ==> Leaves(m, es[0], lost) && Leaky(Next(m, es[0]), es[1..], lost)
  }

  ghost function After(m: Mbx, es: seq<Ev>, lost: set<nat>): Mbx
    requires Leaky(m, es, lost)
    decreases |es|
  {
    if es == [] then m else After(Next(m, es[0]), es[1..], lost)
  }

  // ---------------------------------------------------------------- lost buffers stay lost

  lemma ErrorLeaves(m: Mbx, lost: set<nat>)
    requires Claimed(m, lost)
    ensures Claimed(Claim(m).0, lost) && Claimed(Error(m), lost)
  {
  }

  lemma DropLeaves(m: Mbx, lost: set<nat>)
    requires Claimed(m, lost) && 0 < |m.buf|
    ensures Claimed(DropIn(m), lost) && Claimed(Receive(m), lost)
  {
  }

  lemma PostLeaves(m: Mbx, lost: set<nat>, outFull: bool)
    requires Claimed(m, lost)
    ensures Claimed(PostNext(m, outFull).0, lost)
  {
  }

  lemma TakeInLeaves(m: Mbx, lost: set<nat>, env: MbxEnv)
    requires Claimed(m, lost) && 0 < |m.buf|
    ensures Claimed(TakeIn(m, env).0, lost)
  {
    DropLeaves(m, lost);
    var m1 := Receive(m);
    ErrorLeaves(m1, lost);
    DropLeaves(Error(m1), lost);
    DropLeaves(DropInvalid(m1, env.badLength), lost);
  }

  lemma ProcessLeaves(m: Mbx, lost: set<nat>, env: MbxEnv)
    requires Inv(m) && Claimed(m, lost)
    ensures Claimed(Process(m, env).mbx, lost)
  {
    PostLeaves(m, lost, env.outFull);
    TakeInLeaves(PostNext(m, env.outFull).0, lost, env);
  }

  lemma StepLeaves(m: Mbx, e: Ev, lost: set<nat>)
    requires Inv(m) && Claimed(m, lost) && Leaves(m, e, lost)
    ensures Claimed(Next(m, e), lost) && Inv(Next(m, e)) && |Next(m, e).buf| == |m.buf|
  {
    NextKeeps(m, e);
    match e
    case EvProcess(env) => ProcessLeaves(m, lost, env);
    case EvClaim => ErrorLeaves(m, lost);
    case EvSend => ErrorLeaves(m, lost);
    case EvHandle(_, _) => DropLeaves(m, lost);
    case EvUnclaimed =>
      ErrorLeaves(m, lost);
      DropLeaves(Error(m), lost);
    case _ =>
  }

  lemma {:induction false} CountAtLeast(bs: seq<Buf>, lost: set<nat>)
    requires forall i | i in lost :: i < |bs| && bs[i] == OutClaim
    ensures |lost| <= CountIn(bs, OutClaim)
  {
    if bs != [] {
      var n := |bs| - 1;
      CountAtLeast(bs[..n], lost - {n});
      assert lost <= (lost - {n}) + {n};
    } else {
      assert lost == {};
    }
  }

  /** Through every run a buffer that is claimed and never requested stays claimed until the mailboxes
      stop, and keeps its place in txcue. */
  lemma {:induction false} LeakStays(m: Mbx, es: seq<Ev>, lost: set<nat>)
    requires Inv(m) && Claimed(m, lost) && Leaky(m, es, lost)
    ensures var t := After(m, es, lost);
            Inv(t) && Claimed(t, lost) && |t.buf| == |m.buf| && |lost| <= t.txcue
    decreases |es|
  {
    if es == [] {
      CountAtLeast(m.buf, lost);
    } else {
      StepLeaves(m, es[0], lost);
      LeakStays(Next(m, es[0]), es[1..], lost);
    }
  }

  // ---------------------------------------------------------------- when no reply can be claimed any more

  ghost predicate HasIdle(m: Mbx) {
    exists i :: 0 < i < |m.buf| && m.buf[i] == Idle
  }

  lemma ClaimsIff(m: Mbx)
    ensures Claim(m).1 != 0 <==> HasIdle(m)
  {
  }

  /** Some run that leaves the lost buffers lost leads to a claim that succeeds. */
  ghost predicate CanClaim(m: Mbx, lost: set<nat>) {
    exists es :: Leaky(m, es, lost) && Claim(After(m, es, lost)).1 != 0
  }

  lemma ClaimsNow(m: Mbx, lost: set<nat>)
    requires HasIdle(m)
    ensures CanClaim(m, lost)
  {
    ClaimsIff(m);
    assert Leaky(m, [], lost) && After(m, [], lost) == m;
  }

  lemma ClaimsLater(m: Mbx, e: Ev, lost: set<nat>)
    requires Leaves(m, e, lost) && CanClaim(Next(m, e), lost)
    ensures CanClaim(m, lost)
  {
    var es :| Leaky(Next(m, e), es, lost) && Claim(After(Next(m, e), es, lost)).1 != 0;
    var all := [e] + es;
    assert all[0] == e && all[1..] == es;
    assert Leaky(m, all, lost) && After(m, all, lost) == After(Next(m, e), es, lost);
  }

  /** The buffers that send. */
  ghost function Senders(n: nat): (s: set<nat>)
    ensures forall i | i in s :: 0 < i < n
    ensures forall i | 0 < i < n :: i in s
    ensures n > 0 ==> |s| == n - 1
  {
    if n <= 1 then {} else Senders(n - 1) + {n - 1}
  }

  lemma {:induction false} SubsetSize<T>(a: set<T>, b: set<T>)
    requires a <= b
    ensures |a| <= |b|
  {
    if a != {} {
      var x :| x in a;
      SubsetSize(a - {x}, b - {x});
    }
  }

  /** All but one of the buffers that send are lost. */
  predicate FewLeft(m: Mbx, lost: set<nat>) { |lost| + 2 >= |m.buf| }

  /** With so many lost there are not both a backup and a posted buffer, so none becomes idle. */
  lemma NotBoth(m: Mbx, lost: set<nat>)
    requires Inv(m) && Claimed(m, lost) && FewLeft(m, lost)
    ensures m.outpost == 0 || m.backup == 0
  {
    if m.outpost != 0 && m.backup != 0 {
      TxcueFits(m);
      var used := lost + {m.outpost} + {m.backup};
      assert m.outpost !in lost && m.backup !in lost + {m.outpost};
      SubsetSize(used, Senders(|m.buf|));
    }
  }

  lemma TakeInFreesNone(m: Mbx, env: MbxEnv)
    requires 0 < |m.buf| && !HasIdle(m)
    ensures !HasIdle(TakeIn(m, env).0)
  {
    ErrorFreesNone(Receive(m));
  }

  lemma ErrorFreesNone(m: Mbx)
    requires !HasIdle(m)
    ensures Error(m) == m && Claim(m).0 == m
  {
    ClaimsIff(m);
  }

  lemma ProcessFreesNone(m: Mbx, lost: set<nat>, env: MbxEnv)
    requires Inv(m) && Claimed(m, lost) && FewLeft(m, lost) && !HasIdle(m)
    ensures !HasIdle(Process(m, env).mbx)
  {
    NotBoth(m, lost);
    var p := PostNext(m, env.outFull).0;
    assert !HasIdle(p);
    TakeInFreesNone(p, env);
  }

  lemma StepFreesNone(m: Mbx, e: Ev, lost: set<nat>)
    requires Inv(m) && Claimed(m, lost) && Leaves(m, e, lost) && FewLeft(m, lost) && !HasIdle(m)
    ensures !HasIdle(Next(m, e))
  {
    ErrorFreesNone(m);
    match e
    case EvProcess(env) => ProcessFreesNone(m, lost, env);
    case _ =>
  }

  lemma {:induction false} StaysSilent(m: Mbx, es: seq<Ev>, lost: set<nat>)
    requires Inv(m) && Claimed(m, lost) && Leaky(m, es, lost) && FewLeft(m, lost) && !HasIdle(m)
    ensures !HasIdle(After(m, es, lost))
    decreases |es|
  {
    if es != [] {
      StepFreesNone(m, es[0], lost);
      StepLeaves(m, es[0], lost);
      StaysSilent(Next(m, es[0]), es[1..], lost);
    }
  }

  // ---------------------------------------------------------------- when some reply still can

  /** A buffer to send from that is neither lost nor the given one. */
  lemma Another(m: Mbx, lost: set<nat>, not: nat) returns (z: nat)
    requires Claimed(m, lost) && !FewLeft(m, lost)
    ensures 0 < z < |m.buf| && z !in lost && z != not
  {
    if forall z | z in Senders(|m.buf|) :: z in lost + {not} {
      SubsetSize(Senders(|m.buf|), lost + {not});
    }
    z :| z in Senders(|m.buf|) && z !in lost + {not};
  }

  /** A turn in which the master reads the posted message, and one in which nothing comes in and the
      out mailbox is empty. */
  function ReadTurn(m: Mbx): Ev { EvProcess(MbxEnv(true, false, false, m.toggle, false, 0)) }

  function PostTurn(m: Mbx): Ev { EvProcess(MbxEnv(false, false, false, m.toggle, false, 0)) }

  /** A posted buffer with a backup: the next read frees the backup. */
  lemma FromPosted(m: Mbx, lost: set<nat>)
    requires Inv(m) && m.running && m.outpost != 0 && m.backup != 0
    ensures CanClaim(m, lost)
  {
    TxcueFits(m);
    var t := Next(m, ReadTurn(m));
    assert t.buf[m.backup] == Idle;
    ClaimsNow(t, lost);
    ClaimsLater(m, ReadTurn(m), lost);
  }

  /** Nothing posted: another buffer can be requested and posted. */
  lemma Posts(m: Mbx, lost: set<nat>) returns (t: Mbx)
    requires Inv(m) && Claimed(m, lost) && m.running && m.outpost == 0 && !FewLeft(m, lost) && !HasIdle(m)
    ensures Inv(t) && Claimed(t, lost) && t.running && t.outpost != 0 && t.backup == m.backup && |t.buf| == |m.buf|
    ensures CanClaim(t, lost) ==> CanClaim(m, lost)
  {
    var z := Another(m, lost, m.backup);
    assert m.buf[z] == OutClaim || m.buf[z] == OutReq;
    var e := EvRequest(z);
    StepLeaves(m, e, lost);
    var r := Next(m, e);
    t := Posted(r, lost, z);
    if CanClaim(t, lost) {
      ClaimsLater(r, PostTurn(r), lost);
      ClaimsLater(m, e, lost);
    }
  }

  lemma Posted(r: Mbx, lost: set<nat>, z: nat) returns (t: Mbx)
    requires Inv(r) && Claimed(r, lost) && r.running && r.outpost == 0 && 0 < z < |r.buf| && r.buf[z] == OutReq
    ensures t == Next(r, PostTurn(r)) && Leaves(r, PostTurn(r), lost)
    ensures Inv(t) && Claimed(t, lost) && t.running && t.outpost != 0 && t.backup == r.backup && |t.buf| == |r.buf|
  {
    t := Next(r, PostTurn(r));
    StepLeaves(r, PostTurn(r), lost);
    HasWaiting(r.buf, z);
    assert LastIn(r.buf, OutReq) != 0;
  }

  lemma {:induction false} HasWaiting(bs: seq<Buf>, z: nat)
    requires z < |bs| && bs[z] == OutReq
    ensures CountIn(bs, OutReq) > 0
  {
    if z < |bs| - 1 {
      HasWaiting(bs[..|bs| - 1], z);
    }
  }

  lemma FromBackup(m: Mbx, lost: set<nat>)
    requires Inv(m) && Claimed(m, lost) && m.running && m.outpost == 0 && m.backup != 0 && !FewLeft(m, lost)
    ensures CanClaim(m, lost)
  {
    if HasIdle(m) {
      ClaimsNow(m, lost);
    } else {
      var t := Posts(m, lost);
      FromPosted(t, lost);
    }
  }

  lemma FromFirstPost(m: Mbx, lost: set<nat>)
    requires Inv(m) && Claimed(m, lost) && m.running && m.outpost != 0 && m.backup == 0 && !FewLeft(m, lost)
    ensures CanClaim(m, lost)
  {
    StepLeaves(m, ReadTurn(m), lost);
    FromBackup(Next(m, ReadTurn(m)), lost);
    ClaimsLater(m, ReadTurn(m), lost);
  }

  lemma FromRunning(m: Mbx, lost: set<nat>)
    requires Inv(m) && Claimed(m, lost) && m.running && !FewLeft(m, lost)
    ensures CanClaim(m, lost)
  {
    if HasIdle(m) {
      ClaimsNow(m, lost);
    } else if m.outpost != 0 && m.backup != 0 {
      FromPosted(m, lost);
    } else if m.backup != 0 {
      FromBackup(m, lost);
    } else if m.outpost != 0 {
      FromFirstPost(m, lost);
    } else {
      var t := Posts(m, lost);
      FromFirstPost(t, lost);
    }
  }

  lemma FromAny(m: Mbx, lost: set<nat>)
    requires Inv(m) && Claimed(m, lost) && !FewLeft(m, lost)
    ensures CanClaim(m, lost)
  {
    if m.running {
      FromRunning(m, lost);
    } else {
      var e := EvStart(m.toggle);
      StepLeaves(m, e, lost);
      FromRunning(Next(m, e), lost);
      ClaimsLater(m, e, lost);
    }
  }

  /**
   How many lost buffers silence the slave. Some run still claims a buffer for a reply if and only if
   one is idle now, or at least two of those that send are not lost: one alone ends as the backup,
   which only the next message sent would free.
   */
  lemma CanClaimIff(m: Mbx, lost: set<nat>)
    requires Inv(m) && Claimed(m, lost)
    ensures CanClaim(m, lost) <==> HasIdle(m) || |lost| + 3 <= |m.buf|
  {
    if HasIdle(m) {
      ClaimsNow(m, lost);
    } else if |lost| + 3 <= |m.buf| {
      FromAny(m, lost);
    } else if CanClaim(m, lost) {
      var es :| Leaky(m, es, lost) && Claim(After(m, es, lost)).1 != 0;
      StaysSilent(m, es, lost);
      ClaimsIff(After(m, es, lost));
    }
  }

  // ---------------------------------------------------------------- the handler that loses buffers

  /** What a handler does with the pool: it claims buffer n, then requests it, or leaves it and sends an
      abort in another one. */
  function PoolCalls(n: nat, leaks: bool): seq<Ev> {
    if n == 0 then [EvClaim] else if leaks then [EvClaim, EvSend] else [EvClaim, EvRequest(n)]
  }

  /** Such a handler loses the buffer it claimed exactly if it leaves it: no other buffer that was
      claimed, and none that is lost already, changes. */
  lemma LosesIff(m: Mbx, n: nat, leaks: bool, lost: set<nat>)
    requires Inv(m) && Claimed(m, lost) && n == Claim(m).1 != 0
    ensures Leaky(m, PoolCalls(n, leaks), lost) && n !in lost
    ensures var t := After(m, PoolCalls(n, leaks), lost);
            && Claimed(t, lost) && (Claimed(t, lost + {n}) <==> leaks)
  {
    var c := Claim(m).0;
    var second := if leaks then EvSend else EvRequest(n);
    ErrorLeaves(m, lost);
    StepLeaves(m, EvClaim, lost);
    assert Next(m, EvClaim) == c && c.buf[n] == OutClaim;
    TwoCalls(m, EvClaim, second, lost);
    StepLeaves(c, second, lost);
    if leaks {
      ErrorLeaves(c, lost + {n});
    }
  }

  lemma TwoCalls(m: Mbx, first: Ev, second: Ev, lost: set<nat>)
    requires Leaves(m, first, lost) && Leaves(Next(m, first), second, lost)
    ensures Leaky(m, [first, second], lost) && After(m, [first, second], lost) == Next(Next(m, first), second)
  {
    var es := [first, second];
    assert es[0] == first && es[1..] == [second];
    OneCall(Next(m, first), second, lost);
  }

  lemma OneCall(m: Mbx, e: Ev, lost: set<nat>)
    requires Leaves(m, e, lost)
    ensures Leaky(m, [e], lost) && After(m, [e], lost) == Next(m, e)
  {
    assert [e][0] == e && [e][1..] == [];
    assert Leaky(Next(m, e), [], lost) && After(Next(m, e), [], lost) == Next(m, e);
  }
}
