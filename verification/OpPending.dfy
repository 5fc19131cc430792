/**
 The held SAFEOP-to-OP request under distributed clocks (ESC_op_pending_step): one step per SYNC0
 or per wait without one, until the request is accepted or refused. Proved against a judgement on
 the whole history of periods.
 */
module OpPending {
  import opened Base

  const SyncValidNs := 200_000_000
  const PendingTimeoutNs := 8_100_000_000
  const ErrSync: u16 := 0x001A
  const ErrWatchdog: u16 := 0x001B
  const ErrNoSync: u16 := 0x002D
  const Two64 := 0x1_0000_0000_0000_0000

  /** What one step sees: SYNC0, process data, the time covered, the sync error counter with its
      limit, and whether SM2 carries outputs. */
  datatype Period = Period(sync0: bool, smEvent: bool, elapsed: nat, counter: int, limit: u16, outputs: bool)

  /** op_pending_ns, op_valid_ns, op_seen_sync0 and op_seen_sm. */
  datatype Wait = Wait(pending: nat, valid: nat, seenSync0: bool, seenSm: bool)

  datatype Verdict = Held | Accepted | Refused(code: u16)

  const WaitInit := Wait(0, 0, false, false)

  /** SYNC0 arrived and the process data keeps up: by the counter if there is a limit, else by
      this period's own frame. */
  predicate Good(e: Period) {
    e.sync0 && if e.limit > 0 then e.counter < e.limit else e.smEvent || !e.outputs
  }

  /** The bookkeeping of one step. */
  function Tally(w: Wait, e: Period): Wait {
    Wait((w.pending + e.elapsed) % Two64,
         if Good(e) then (w.valid + e.elapsed) % Two64 else 0,
         w.seenSync0 || e.sync0, w.seenSm || e.smEvent)
  }

  /** The decision at the end of a step. */
  function Decide(w: Wait, outputs: bool): Verdict {
    if w.valid >= SyncValidNs && (w.seenSm || !outputs) then Accepted
    else if w.pending >= PendingTimeoutNs then
      Refused(if !w.seenSync0 then ErrNoSync
              else if !w.seenSm && outputs then ErrWatchdog
              else ErrSync)
    else Held
  }

  function Step(w: Wait, e: Period): (Wait, Verdict) {
    (Tally(w, e), Decide(Tally(w, e), e.outputs))
  }

  /** The request after a history of steps: the first decision stands. */
  function Run(h: seq<Period>): (Wait, Verdict) {
    if h == [] then (WaitInit, Held)
    else
      var before := Run(h[..|h| - 1]);
      if before.1 == Held then Step(before.0, h[|h| - 1]) else before
  }

  // ---------------------------------------------------------------- judging a history

  function Total(h: seq<Period>): nat {
    if h == [] then 0 else Total(h[..|h| - 1]) + h[|h| - 1].elapsed
  }

  predicate AllGood(h: seq<Period>) {
    forall i | 0 <= i < |h| :: Good(h[i])
  }

  /** The history ends with good periods only, over at least 200 ms. */
  ghost predicate InSync(h: seq<Period>) {
    exists i :: 0 <= i <= |h| && AllGood(h[i..]) && Total(h[i..]) >= SyncValidNs
  }

  predicate SawSync0(h: seq<Period>) {
    exists i | 0 <= i < |h| :: h[i].sync0
  }

  predicate SawData(h: seq<Period>) {
    exists i | 0 <= i < |h| :: h[i].smEvent
  }

  ghost function Judge(h: seq<Period>): Verdict {
    if h == [] then Held
    else
      var outputs := h[|h| - 1].outputs;
      if InSync(h) && (SawData(h) || !outputs) then Accepted
      else if Total(h) < PendingTimeoutNs then Held
      else if !SawSync0(h) then Refused(ErrNoSync)
      else if !SawData(h) && outputs then Refused(ErrWatchdog)
      else Refused(ErrSync)
  }

  /** Periods short enough for the 64-bit sums not to wrap while the request is held. */
  predicate Timely(h: seq<Period>) {
    forall i | 0 <= i < |h| :: h[i].elapsed < Two64 - PendingTimeoutNs
  }

  /** v is the length in time of the good periods that end the history. */
  ghost predicate IsTrailingGood(h: seq<Period>, v: nat) {
    && (exists i :: 0 <= i <= |h| && AllGood(h[i..]) && Total(h[i..]) == v)
    && (forall i | 0 <= i <= |h| && AllGood(h[i..]) :: Total(h[i..]) <= v)
  }

  lemma SuffixSnoc(h: seq<Period>, e: Period, i: nat)
    requires i <= |h|
    ensures Total((h + [e])[i..]) == Total(h[i..]) + e.elapsed
    ensures AllGood((h + [e])[i..]) <==> AllGood(h[i..]) && Good(e)
  {
    var more := (h + [e])[i..];
    assert more == h[i..] + [e];
    assert more[..|more| - 1] == h[i..];
  }

  lemma TrailingSnoc(h: seq<Period>, e: Period, v: nat)
    requires IsTrailingGood(h, v)
    ensures IsTrailingGood(h + [e], if Good(e) then v + e.elapsed else 0)
  {
    var more := h + [e];
    var best :| 0 <= best <= |h| && AllGood(h[best..]) && Total(h[best..]) == v;
    forall i | 0 <= i <= |h|
      ensures Total(more[i..]) == Total(h[i..]) + e.elapsed
      ensures AllGood(more[i..]) <==> AllGood(h[i..]) && Good(e)
    {
      SuffixSnoc(h, e, i);
    }
    assert more[|more|..] == [];
    assert AllGood(more[|more|..]) && Total(more[|more|..]) == 0;
    if Good(e) {
      assert AllGood(more[best..]);
    }
  }

  /** As long as the request is held, its four fields say what the history holds. */
  ghost predicate Matches(w: Wait, h: seq<Period>) {
    && w.pending == Total(h) && IsTrailingGood(h, w.valid) && w.valid <= w.pending
    && w.seenSync0 == SawSync0(h) && w.seenSm == SawData(h)
  }

  lemma EmptyMatches()
    ensures Matches(WaitInit, [])
  {
    var h: seq<Period> := [];
    assert AllGood(h[0..]) && Total(h[0..]) == 0;
  }

  lemma StepMatches(w: Wait, h: seq<Period>, e: Period)
    requires Matches(w, h) && w.pending < PendingTimeoutNs && e.elapsed < Two64 - PendingTimeoutNs
    ensures Matches(Step(w, e).0, h + [e]) && Step(w, e).1 == Judge(h + [e])
  {
    TallyAdds(w, e);
    TrailingSnoc(h, e, w.valid);
    TotalSnoc(h, e);
    SawSnoc(h, e);
    Judges(h + [e], Tally(w, e), e);
  }

  lemma TotalSnoc(h: seq<Period>, e: Period)
    ensures Total(h + [e]) == Total(h) + e.elapsed
  {
    assert (h + [e])[..|h|] == h;
  }

  /** The 64-bit sums do not wrap. */
  lemma TallyAdds(w: Wait, e: Period)
    requires w.valid <= w.pending < PendingTimeoutNs && e.elapsed < Two64 - PendingTimeoutNs
    ensures Tally(w, e) == Wait(w.pending + e.elapsed, if Good(e) then w.valid + e.elapsed else 0,
                                w.seenSync0 || e.sync0, w.seenSm || e.smEvent)
  {
    Below64(w.pending + e.elapsed);
    Below64(w.valid + e.elapsed);
  }

  lemma Below64(x: nat)
    requires x < Two64
    ensures x % Two64 == x
  {
  }

  /** The decision is the judgement on the history that the fields describe. */
  lemma Judges(h: seq<Period>, w: Wait, e: Period)
    requires Matches(w, h) && h != [] && h[|h| - 1] == e
    ensures Decide(w, e.outputs) == Judge(h)
  {
    InSyncIff(h, w.valid);
  }

  lemma SawSnoc(h: seq<Period>, e: Period)
    ensures SawSync0(h + [e]) == (SawSync0(h) || e.sync0)
    ensures SawData(h + [e]) == (SawData(h) || e.smEvent)
  {
    var more := h + [e];
    assert more[|h|] == e && forall i | 0 <= i < |h| :: more[i] == h[i];
  }

  lemma InSyncIff(h: seq<Period>, v: nat)
    requires IsTrailingGood(h, v)
    ensures InSync(h) <==> v >= SyncValidNs
  {
  }

  /**
   A held request refines its history. While no earlier step decided it, the step at the end of
   any history decides exactly what the history as a whole says: accepted when the good periods
   that end it reach 200 ms and process data was seen (or there are no outputs), refused when 8.1 s
   have passed, with the code of what was missing, and held otherwise.
   */
  lemma {:induction false} DecidesByHistory(h: seq<Period>)
    requires Timely(h)
    requires forall n | 0 <= n < |h| :: Judge(h[..n]) == Held
    ensures Run(h).1 == Judge(h)
    ensures Matches(Run(h).0, h)
  {
    if h == [] {
      EmptyMatches();
    } else {
      var n := |h| - 1;
      var g := h[..n];
      forall k | 0 <= k < n ensures Judge(g[..k]) == Held {
        assert g[..k] == h[..k];
      }
      assert Judge(h[..n]) == Held;
      DecidesByHistory(g);
      assert Total(g) < PendingTimeoutNs by {
        HeldIsShort(g);
      }
      StepMatches(Run(g).0, g, h[n]);
      assert g + [h[n]] == h;
    }
  }

  lemma HeldIsShort(h: seq<Period>)
    requires Judge(h) == Held
    ensures Total(h) < PendingTimeoutNs
  {
  }

  /** The decision taken over a run is the judgement on the shortest history that is not held. */
  lemma {:induction false} FirstDecision(h: seq<Period>)
    requires Timely(h)
    ensures Run(h).1 != Held ==>
              exists n :: 0 < n <= |h| && Judge(h[..n]) == Run(h).1 && forall k | 0 <= k < n :: Judge(h[..k]) == Held
    ensures Run(h).1 == Held ==> forall n | 0 <= n <= |h| :: Judge(h[..n]) == Held
  {
    if h == [] {
      assert h[..0] == [];
    } else {
      var m := |h| - 1;
      var g := h[..m];
      FirstDecision(g);
      assert forall k | 0 <= k <= m :: g[..k] == h[..k];
      assert h[..|h|] == h;
      if Run(g).1 == Held {
        DecidesByHistory(h);
      } else {
        var n :| 0 < n <= |g| && Judge(g[..n]) == Run(g).1 && forall k | 0 <= k < n :: Judge(g[..k]) == Held;
        assert Judge(h[..n]) == Run(h).1;
      }
    }
  }

  /** A request is answered by the time 8.1 s have passed. */
  lemma AnsweredInTime(h: seq<Period>)
    requires Timely(h) && Total(h) >= PendingTimeoutNs
    ensures Run(h).1 != Held
  {
    FirstDecision(h);
    if Run(h).1 == Held {
      assert h[..|h|] == h;
      HeldIsShort(h);
    }
  }

  /**
   What starts the count of good sync again: a period without SYNC0, one with the sync error counter at its limit
   or over, or, without a limit, one that brings no process data although there are outputs. Every other
   period adds to it.
   */
  lemma StartsAgainIff(w: Wait, e: Period)
    requires w.valid + e.elapsed < Two64
    ensures var missed := if e.limit == 0 then e.outputs && !e.smEvent else e.counter >= e.limit;
            Step(w, e).0.valid == if !e.sync0 || missed then 0 else w.valid + e.elapsed
  {
  }
}
