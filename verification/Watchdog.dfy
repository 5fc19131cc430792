/**
 The hardware watchdog latch (hw_watchdog_check): the master's configuration is read once per
 stretch of active outputs, expiry counts only once a process data frame was seen, and the status
 register is only read after 16 quiet cycles. Proved against the history of the stretch.
 */
module Watchdog {
  import opened Base

  const QuietCycles := 16

  datatype Latch = Unchecked | Waiting | Running | Disabled

  /** hw_wd_state and hw_wd_quiet. */
  datatype Wd = Wd(latch: Latch, quiet: nat)

  const WdInit := Wd(Unchecked, 0)

  /** What one call sees: whether outputs are active (APPSTATE_OUTPUT set and SM2 not empty), the
      watchdog configuration registers, the SM2 event and the watchdog status bit. */
  datatype Call = Call(active: bool, divider: u16, pdTime: u16, smEvent: bool, statusOk: bool)

  predicate Arms(e: Call) {
    e.pdTime != 0 && e.divider != 0
  }

  /** The latch after the configuration is read, if it has to be. */
  function Configured(l: Latch, e: Call): Latch {
    if l != Unchecked then l else if Arms(e) then Waiting else Disabled
  }

  datatype Outcome = Outcome(wd: Wd, inCharge: bool, trip: bool)

  /** One call: the new latch, whether the hardware watchdog is in charge, and whether it trips. */
  function Check(w: Wd, e: Call): Outcome {
    if !e.active then Outcome(WdInit, true, false)
    else
      var l := Configured(w.latch, e);
      if l == Disabled then Outcome(Wd(l, w.quiet), false, false)
      else if e.smEvent then Outcome(Wd(Running, 0), true, false)
      else if w.quiet < QuietCycles then Outcome(Wd(l, w.quiet + 1), true, false)
      else Outcome(Wd(l, w.quiet), true, !e.statusOk && l == Running)
  }

  function Run(h: seq<Call>): Wd {
    if h == [] then WdInit else Check(Run(h[..|h| - 1]), h[|h| - 1]).wd
  }

  // ---------------------------------------------------------------- the history of a stretch

  /** A stretch: the calls since outputs became active. */
  predicate Stretch(h: seq<Call>) {
    forall i | 0 <= i < |h| :: h[i].active
  }

  predicate Fed(h: seq<Call>) {
    exists i | 0 <= i < |h| :: h[i].smEvent
  }

  /** The last n calls saw no process data. */
  predicate QuietFor(h: seq<Call>, n: nat) {
    n <= |h| && forall i | |h| - n <= i < |h| :: !h[i].smEvent
  }

  /** How many quiet calls end the history. */
  ghost predicate IsQuietLength(h: seq<Call>, n: nat) {
    QuietFor(h, n) && !QuietFor(h, n + 1)
  }

  function QuietLength(h: seq<Call>): (n: nat)
    ensures IsQuietLength(h, n)
  {
    if h == [] || h[|h| - 1].smEvent then 0
    else
      var n := QuietLength(h[..|h| - 1]);
      assert QuietFor(h[..|h| - 1], n);
      n + 1
  }

  lemma QuietForIff(h: seq<Call>, n: nat)
    ensures QuietFor(h, n) <==> n <= QuietLength(h)
  {
    var q := QuietLength(h);
    assert QuietFor(h, q) && !QuietFor(h, q + 1);
  }

  lemma QuietSnoc(h: seq<Call>, e: Call)
    ensures QuietLength(h + [e]) == if e.smEvent then 0 else QuietLength(h) + 1
    ensures Fed(h + [e]) <==> Fed(h) || e.smEvent
  {
    var more := h + [e];
    assert more[..|h|] == h && more[|h|] == e;
    assert forall i | 0 <= i < |h| :: more[i] == h[i];
  }

  /**
   The latch refines the history of an armed stretch: it is running exactly when a process data
   frame arrived in the stretch, and the quiet count is the number of quiet calls in a row, held
   at 16. An unarmed stretch stays disabled throughout.
   */
  lemma {:induction false} LatchIsHistory(h: seq<Call>)
    requires Stretch(h) && h != []
    ensures Arms(h[0]) ==> Run(h) == Wd(if Fed(h) then Running else Waiting, Min(QuietCycles, QuietLength(h)))
    ensures !Arms(h[0]) ==> Run(h) == Wd(Disabled, 0)
  {
    var n := |h| - 1;
    var g, e := h[..n], h[n];
    assert g + [e] == h;
    QuietSnoc(g, e);
    if g != [] {
      LatchIsHistory(g);
    } else {
      assert QuietLength(g) == 0 && !Fed(g);
    }
  }

  /**
   A call trips exactly when it is at least the 17th quiet call in a row of an armed stretch in
   which process data was seen, and the status bit is clear. So never before the first frame.
   */
  lemma TripsIff(h: seq<Call>, e: Call)
    requires Stretch(h + [e])
    ensures Check(Run(h), e).trip <==>
              && h != [] && Arms(h[0]) && Fed(h)
              && QuietFor(h + [e], QuietCycles + 1)
              && !e.statusOk
    ensures Check(Run(h), e).trip ==> |h| >= QuietCycles + 1
  {
    StretchSnoc(h, e);
    TripOf(Run(h), e);
    RunsIff(h);
    SeventeenQuiet(h, e);
    QuietAtMost(h);
  }

  /** When one call trips. */
  lemma TripOf(w: Wd, e: Call)
    ensures Check(w, e).trip <==>
              e.active && w.latch == Running && !e.smEvent && w.quiet >= QuietCycles && !e.statusOk
  {
  }

  /** The state of the latch in a stretch. */
  lemma RunsIff(h: seq<Call>)
    requires Stretch(h)
    ensures Run(h).latch == Running <==> h != [] && Arms(h[0]) && Fed(h)
    ensures Run(h).latch == Running ==> (Run(h).quiet >= QuietCycles <==> QuietLength(h) >= QuietCycles)
  {
    if h != [] {
      LatchIsHistory(h);
    }
  }

  /** A call is at least the 17th quiet one in a row. */
  lemma SeventeenQuiet(h: seq<Call>, e: Call)
    ensures QuietFor(h + [e], QuietCycles + 1) <==> !e.smEvent && QuietLength(h) >= QuietCycles
  {
    QuietSnoc(h, e);
    QuietForIff(h + [e], QuietCycles + 1);
  }

  lemma StretchSnoc(h: seq<Call>, e: Call)
    requires Stretch(h + [e])
    ensures Stretch(h) && e.active
  {
    var more := h + [e];
    assert more[|h|] == e && forall i | 0 <= i < |h| :: more[i] == h[i];
  }

  lemma QuietAtMost(h: seq<Call>)
    ensures QuietLength(h) <= |h|
    ensures QuietLength(h) == |h| ==> !Fed(h)
  {
    var n := QuietLength(h);
    assert QuietFor(h, n);
  }

  /** A call without active outputs ends the stretch: the next call reads the configuration anew. */
  lemma StretchRestarts(h: seq<Call>, e: Call, g: seq<Call>)
    requires !e.active
    ensures Run(h + [e] + g) == Run(g)
  {
    if g == [] {
      assert (h + [e] + g)[..|h|] == h && h + [e] + g == h + [e];
    } else {
      var n := |g| - 1;
      StretchRestarts(h, e, g[..n]);
      assert (h + [e] + g)[..|h| + 1 + n] == h + [e] + g[..n];
    }
  }

  /** The hardware watchdog leaves the software counter in charge exactly in an unarmed stretch. */
  lemma FallsBackIff(h: seq<Call>, e: Call)
    requires Stretch(h + [e])
    ensures !Check(Run(h), e).inCharge <==> !Arms((h + [e])[0])
  {
    assert (h + [e])[|h|] == e && forall i | 0 <= i < |h| :: (h + [e])[i] == h[i];
    if h != [] {
      assert Stretch(h);
      LatchIsHistory(h);
    }
  }

  /** Inactive outputs leave nothing to watch, neither for the latch nor for the software counter. The first call
      that finds them active leaves them to the hardware watchdog exactly if the master set up a time for it: a
      divider and a number of ticks, of which neither is 0. */
  lemma SetUpIff(w: Wd, e: Call)
    ensures !e.active ==> Check(w, e) == Outcome(WdInit, true, false)
    ensures e.active && w.latch == Unchecked ==> (Check(w, e).inCharge <==> e.divider * e.pdTime > 0)
  {
    if e.divider > 0 && e.pdTime > 0 {
      assert e.divider * e.pdTime >= e.divider;
    }
  }
}
