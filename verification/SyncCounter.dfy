/**
 The ETG.1020 sync error counter (ecat_slv_sync0_account): one step per SYNC0, +3 for a period
 without process data, -1 (never below zero) for one with it, and a trip when a limit is passed.
 Proved against its meaning as a law about windows of the history.
 */
module SyncCounter {
  import opened Base

  /** synccounter, smeventmissed and syncerror. */
  datatype Sync = Sync(counter: int, missed: u16, syncError: bool)

  const SyncInit := Sync(0, 0, false)

  /** The cast to int16_t with which the counter is stored. */
  function Int16(x: int): int {
    (x + 0x8000) % 0x1_0000 - 0x8000
  }

  /** The 32-bit counter before it is stored. */
  function Counted(c: int, seen: bool): int {
    if !seen then c + 3 else if c > 0 then c - 1 else c
  }

  function Account(s: Sync, limit: u16, seen: bool): (r: (Sync, bool)) {
    var c := Counted(s.counter, seen);
    var trip := limit > 0 && c > limit;
    (Sync(if trip then 0 else Int16(c),
          if !seen && s.missed < 0xFFFF then s.missed + 1 else s.missed,
          s.syncError || trip),
     trip)
  }

  /** A run of SYNC0 periods from a cleared counter, and the periods since it was last reset. */
  datatype History = History(sync: Sync, since: seq<bool>, trips: nat)

  function Run(h: seq<bool>, limit: u16): History {
    if h == [] then History(SyncInit, [], 0)
    else
      var before := Run(h[..|h| - 1], limit);
      var seen := h[|h| - 1];
      var step := Account(before.sync, limit, seen);
      History(step.0, if step.1 then [] else before.since + [seen], before.trips + (if step.1 then 1 else 0))
  }

  // ---------------------------------------------------------------- the law

  /** 3 * misses - hits over a window. */
  function Score(w: seq<bool>): int {
    if w == [] then 0 else Score(w[..|w| - 1]) + (if w[|w| - 1] then -1 else 3)
  }

  function Misses(w: seq<bool>): nat {
    if w == [] then 0 else Misses(w[..|w| - 1]) + (if w[|w| - 1] then 0 else 1)
  }

  lemma {:induction false} ScoreCounts(w: seq<bool>)
    ensures Score(w) == 3 * Misses(w) - (|w| - Misses(w)) && Misses(w) <= |w|
  {
    if w != [] {
      ScoreCounts(w[..|w| - 1]);
    }
  }

  /** c is the largest score of the windows that end with the history; the empty one scores 0. */
  ghost predicate IsWindowMax(h: seq<bool>, c: int) {
    && (exists i :: 0 <= i <= |h| && Score(h[i..]) == c)
    && (forall i | 0 <= i <= |h| :: Score(h[i..]) <= c)
  }

  lemma WindowSnoc(h: seq<bool>, seen: bool, i: nat)
    requires i <= |h|
    ensures Score((h + [seen])[i..]) == Score(h[i..]) + (if seen then -1 else 3)
  {
    var w := (h + [seen])[i..];
    assert w[..|w| - 1] == h[i..];
  }

  /** Counting one more period gives the largest window score of the longer history. */
  lemma CountsWindows(h: seq<bool>, seen: bool, c: int)
    requires IsWindowMax(h, c)
    ensures IsWindowMax(h + [seen], Counted(c, seen))
  {
    var more := h + [seen];
    var best :| 0 <= best <= |h| && Score(h[best..]) == c;
    forall i | 0 <= i <= |h| ensures Score(more[i..]) == Score(h[i..]) + (if seen then -1 else 3) {
      WindowSnoc(h, seen, i);
    }
    assert more[|more|..] == [] && h[|h|..] == [];
    assert Score(h[|h|..]) <= c;
    if seen && c == 0 {
      assert Score(more[|more|..]) == 0;
    } else {
      assert Score(more[best..]) == Counted(c, seen);
    }
  }

  /**
   The window law, for every run and any number of trips: since the last reset the counter is the
   largest window score. It holds for the limits 1..32767.
   */
  lemma {:induction false} WindowLaw(h: seq<bool>, limit: u16)
    requires 1 <= limit <= 0x7FFF
    ensures var r := Run(h, limit);
            IsWindowMax(r.since, r.sync.counter) && 0 <= r.sync.counter <= limit
    ensures Run(h, limit).sync.syncError <==> Run(h, limit).trips > 0
  {
    EmptyWindow();
    if h != [] {
      var g := h[..|h| - 1];
      var before := Run(g, limit);
      WindowLaw(g, limit);
      CountsWindows(before.since, h[|h| - 1], before.sync.counter);
    }
  }

  lemma EmptyWindow()
    ensures IsWindowMax([], 0)
  {
    var h: seq<bool> := [];
    assert Score(h[0..]) == 0;
  }

  /** The next period trips exactly when some window that ends with it, begun since the last
      reset, scores more than the limit. */
  lemma TripsExactly(h: seq<bool>, limit: u16, seen: bool)
    requires 1 <= limit <= 0x7FFF
    ensures var r := Run(h, limit);
            Account(r.sync, limit, seen).1 <==>
            exists i :: 0 <= i <= |r.since| + 1 && Score((r.since + [seen])[i..]) > limit
  {
    var r := Run(h, limit);
    WindowLaw(h, limit);
    CountsWindows(r.since, seen, r.sync.counter);
  }

  ghost predicate AllWindowsWithin(h: seq<bool>, limit: int) {
    forall i, j | 0 <= i <= j <= |h| :: Score(h[i..j]) <= limit
  }

  lemma WindowsSnoc(h: seq<bool>, seen: bool, limit: int)
    ensures AllWindowsWithin(h + [seen], limit) <==>
              && AllWindowsWithin(h, limit)
              && forall i | 0 <= i <= |h| + 1 :: Score((h + [seen])[i..]) <= limit
  {
    var more := h + [seen];
    var n := |more|;
    assert forall i, j | 0 <= i <= j <= |h| :: more[i..j] == h[i..j];
    assert forall i | 0 <= i <= n :: more[i..] == more[i..n];
  }

  /** A history trips nowhere exactly when none of its windows scores more than the limit. */
  lemma {:induction false} QuietIff(h: seq<bool>, limit: u16)
    requires 1 <= limit <= 0x7FFF
    ensures Run(h, limit).trips == 0 <==> AllWindowsWithin(h, limit)
    ensures Run(h, limit).trips == 0 ==> Run(h, limit).since == h
  {
    if h == [] {
      assert h[0..0] == [];
    } else {
      var n := |h| - 1;
      QuietIff(h[..n], limit);
      assert h[..n] + [h[n]] == h;
      WindowsSnoc(h[..n], h[n], limit);
      TripsExactly(h[..n], limit, h[n]);
    }
  }

  lemma {:induction false} AllMissed(w: seq<bool>)
    requires forall k | 0 <= k < |w| :: !w[k]
    ensures Score(w) == 3 * |w|
  {
    if w != [] {
      AllMissed(w[..|w| - 1]);
    }
  }

  /** From a cleared counter limit / 3 missed periods in a row are tolerated, and one more is not. */
  lemma Tolerance(n: nat, limit: u16)
    requires 1 <= limit <= 0x7FFF
    ensures Run(seq(n, k => false), limit).trips == 0 <==> n <= limit / 3
  {
    var h := seq(n, k => false);
    QuietIff(h, limit);
    forall i, j | 0 <= i <= j <= n ensures Score(h[i..j]) == 3 * (j - i) {
      AllMissed(h[i..j]);
    }
    assert h[0..n] == h;
  }

  /** An error rate that stays within the budget of every window never trips. */
  lemma WithinBudget(h: seq<bool>, limit: u16)
    requires 1 <= limit <= 0x7FFF
    requires forall i, j | 0 <= i <= j <= |h| ::
               var w := h[i..j]; |w| - Misses(w) >= 3 * Misses(w) - limit
    ensures Run(h, limit).trips == 0
  {
    QuietIff(h, limit);
    forall i, j | 0 <= i <= j <= |h| ensures Score(h[i..j]) <= limit {
      ScoreCounts(h[i..j]);
      var w := h[i..j];
      assert |w| - Misses(w) >= 3 * Misses(w) - limit;
    }
  }

  /** smeventmissed counts the missed periods, and stays at 65535 once it gets there. */
  lemma {:induction false} MissedSaturates(h: seq<bool>, limit: u16)
    ensures Run(h, limit).sync.missed == Min(Misses(h), 0xFFFF)
  {
    if h != [] {
      MissedSaturates(h[..|h| - 1], limit);
    }
  }

  // ---------------------------------------------------------------- where the law ends

  /** n missed periods under a limit the counter cannot pass in 16 bits. */
  lemma {:induction false} MissesUncounted(n: nat, limit: u16)
    requires limit == 0 || limit > 0x7FFF
    requires n <= 10922
    ensures var r := Run(seq(n, k => false), limit);
            r.sync.counter == 3 * n && r.since == seq(n, k => false)
  {
    if n > 0 {
      var h := seq(n, k => false);
      assert h[..n - 1] == seq(n - 1, k => false);
      MissesUncounted(n - 1, limit);
    }
  }

  /** The window law of one run. */
  ghost predicate LawOf(h: seq<bool>, limit: u16) {
    IsWindowMax(Run(h, limit).since, Run(h, limit).sync.counter)
  }

  /** The law holds of every run for exactly the limits 1..32767. Under any other, 10922 missed
      periods, a good one and a missed one bring the count to 32768, which is stored as -32768. */
  lemma LawIff(limit: u16)
    ensures (forall h :: LawOf(h, limit)) <==> 1 <= limit <= 0x7FFF
  {
    if 1 <= limit <= 0x7FFF {
      forall h ensures LawOf(h, limit) {
        WindowLaw(h, limit);
      }
    } else {
      var g := seq(10922, k => false);
      MissesUncounted(10922, limit);
      var h1 := g + [true];
      assert h1[..10922] == g;
      assert Run(h1, limit).sync.counter == 32765;
      var h2 := h1 + [false];
      assert h2[..10923] == h1;
      var r := Run(h2, limit);
      assert Counted(32765, false) == 32768 && Int16(32768) == -32768;
      assert r.sync.counter == -32768;
      assert r.since[|r.since|..] == [];
      assert Score(r.since[|r.since|..]) == 0;
      assert !LawOf(h2, limit);
    }
  }
}
