/**
 Ethernet over EtherCAT end to end: what the sender puts on the wire over a whole run, and what a
 receiver delivers when the wire loses any of the fragments.
 */
module EoeChannel {
  import opened Base
  import opened EoeSpec

  function Append<T>(s: seq<T>, more: Option<T>): seq<T> {
    if more.Some? then s + [more.value] else s
  }

  // ---------------------------------------------------------------- the sender over a run

  /** The number fragment 0 of the next frame goes out under, once these frames are out. */
  function BaseNo(frames: seq<seq<byte>>, mbx: nat): nat
    requires 42 <= mbx
  {
    if frames == [] then 1
    else BaseNo(frames[..|frames| - 1], mbx) + (Count(|frames[|frames| - 1]|, mbx) - 1) / 256 + 1
  }

  /** The fragments of all frames, one frame after the other. */
  function Stream(frames: seq<seq<byte>>, mbx: nat): seq<Fragment>
    requires 42 <= mbx
  {
    if frames == [] then []
    else
      var rest := frames[..|frames| - 1];
      Stream(rest, mbx) + FragsFrom(frames[|frames| - 1], mbx, BaseNo(rest, mbx), 0)
  }

  /** The sender after a run of calls, with all it sent. */
  function TxRun(es: seq<TxEvent>, mbx: nat): (r: (Tx, seq<Fragment>))
    requires 42 <= mbx
    ensures TxValid(r.0, mbx)
  {
    if es == [] then (TxInit, [])
    else
      var before := TxRun(es[..|es| - 1], mbx);
      var step := TxStep(before.0, mbx, es[|es| - 1]);
      (step.0, Append(before.1, step.1))
  }

  /** The frames taken once a call has had its chance to fetch one. */
  function TakenStep(s: Tx, taken: seq<seq<byte>>, e: TxEvent): seq<seq<byte>> {
    taken + (if s.frame.None? && e.fetched.Some? && e.fetched.value != [] then [e.fetched.value] else [])
  }

  /** The frames the sender took over in that run, in order. */
  function Taken(es: seq<TxEvent>, mbx: nat): seq<seq<byte>>
    requires 42 <= mbx
  {
    if es == [] then []
    else
      var rest := es[..|es| - 1];
      TakenStep(TxRun(rest, mbx).0, Taken(rest, mbx), es[|es| - 1])
  }

  /** The sender is busy with the last frame taken, and its counter follows the stream's numbers. */
  ghost predicate InStep(s: Tx, taken: seq<seq<byte>>, mbx: nat)
    requires 42 <= mbx
  {
    && TxValid(s, mbx)
    && if s.frame.None? then s.frameNo + 1 == BaseNo(taken, mbx)
       else
         && taken != [] && s.frame.value == taken[|taken| - 1]
         && NextNo(s) == BaseNo(taken[..|taken| - 1], mbx) + s.sent / 256
  }

  /** The fragments the sender still owes for the frames it took. */
  ghost function Owed(s: Tx, taken: seq<seq<byte>>, mbx: nat): seq<Fragment>
    requires 42 <= mbx && InStep(s, taken, mbx)
  {
    if s.frame.None? then []
    else FragsFrom(s.frame.value, mbx, BaseNo(taken[..|taken| - 1], mbx), s.sent)
  }

  lemma FragsFromAt(frame: seq<byte>, mbx: nat, base: nat, k: nat, j: nat, n: nat)
    requires 42 <= mbx && k <= n < Count(|frame|, mbx) && n == k + j
    ensures j < |FragsFrom(frame, mbx, base, k)|
    ensures FragsFrom(frame, mbx, base, k)[j] == Numbered(frame, mbx, base, n)
  {
  }

  lemma FragsFromCons(frame: seq<byte>, mbx: nat, base: nat, k: nat)
    requires 42 <= mbx && k < Count(|frame|, mbx)
    ensures FragsFrom(frame, mbx, base, k)
            == [FragAt(frame, mbx, base + k / 256, k)] + FragsFrom(frame, mbx, base, k + 1)
  {
    var all, rest := FragsFrom(frame, mbx, base, k), FragsFrom(frame, mbx, base, k + 1);
    FragsFromAt(frame, mbx, base, k, 0, k);
    forall j | 0 <= j < |rest| ensures all[j + 1] == rest[j] {
      FragsFromAt(frame, mbx, base, k, j + 1, k + 1 + j);
      FragsFromAt(frame, mbx, base, k + 1, j, k + 1 + j);
    }
    assert all == [all[0]] + rest;
  }

  lemma FetchConserves(s: Tx, taken: seq<seq<byte>>, out: seq<Fragment>, mbx: nat, e: TxEvent)
    requires 42 <= mbx && InStep(s, taken, mbx)
    requires out + Owed(s, taken, mbx) == Stream(taken, mbx)
    ensures var (s1, t1) := (Fetch(s, e.fetched), TakenStep(s, taken, e));
            InStep(s1, t1, mbx) && out + Owed(s1, t1, mbx) == Stream(t1, mbx)
  {
    if s.frame.None? && Usable(e.fetched) {
      var t1 := TakenStep(s, taken, e);
      assert t1[..|t1| - 1] == taken;
      assert out == Stream(taken, mbx);
    } else {
      assert TakenStep(s, taken, e) == taken;
    }
  }

  lemma AppendFragment(out: seq<Fragment>, frame: seq<byte>, mbx: nat, base: nat, k: nat, all: seq<Fragment>)
    requires 42 <= mbx && k < Count(|frame|, mbx)
    requires out + FragsFrom(frame, mbx, base, k) == all
    ensures out + [FragAt(frame, mbx, base + k / 256, k)] + FragsFrom(frame, mbx, base, k + 1) == all
  {
    FragsFromCons(frame, mbx, base, k);
    var f := FragAt(frame, mbx, base + k / 256, k);
    assert out + [f] + FragsFrom(frame, mbx, base, k + 1) == out + ([f] + FragsFrom(frame, mbx, base, k + 1));
  }

  /** A call is a fetch, then, if there is a frame and a buffer, one fragment. */
  lemma StepSplits(s: Tx, mbx: nat, e: TxEvent)
    requires 42 <= mbx && TxValid(s, mbx)
    ensures var s1 := Fetch(s, e.fetched);
            TxStep(s, mbx, e) == if s1.frame.Some? && e.claimed then TxStep(s1, mbx, TxEvent(None, true))
                                 else (s1, None)
  {
  }

  lemma ClaimConserves(s: Tx, taken: seq<seq<byte>>, out: seq<Fragment>, mbx: nat)
    requires 42 <= mbx && InStep(s, taken, mbx) && s.frame.Some?
    requires out + Owed(s, taken, mbx) == Stream(taken, mbx)
    ensures var (s1, f) := TxStep(s, mbx, TxEvent(None, true));
            f.Some? && InStep(s1, taken, mbx) && out + [f.value] + Owed(s1, taken, mbx) == Stream(taken, mbx)
  {
    var (s1, f) := TxStep(s, mbx, TxEvent(None, true));
    var frame, all, before := s.frame.value, Stream(taken, mbx), taken[..|taken| - 1];
    AppendFragment(out, frame, mbx, BaseNo(before, mbx), s.sent, all);
    if s1.frame.None? {
      assert BaseNo(taken, mbx) == BaseNo(before, mbx) + s.sent / 256 + 1;
    } else {
      NextNumber(s, s1);
    }
  }

  /** Within a frame the counter moves on exactly at every 256th fragment. */
  lemma NextNumber(s: Tx, s1: Tx)
    requires s1.sent == s.sent + 1 && s1.frameNo == NextNo(s)
    ensures NextNo(s1) == NextNo(s) + (s1.sent / 256 - s.sent / 256)
  {
  }

  /**
   Conservation over every run of calls: what was sent and what is owed is exactly the fragments
   of the frames taken, in order. A call that finds no free mailbox buffer, or no frame, neither
   skips a fragment nor repeats one.
   */
  lemma {:induction false} SenderConserves(es: seq<TxEvent>, mbx: nat)
    requires 42 <= mbx
    ensures InStep(TxRun(es, mbx).0, Taken(es, mbx), mbx)
    ensures TxRun(es, mbx).1 + Owed(TxRun(es, mbx).0, Taken(es, mbx), mbx) == Stream(Taken(es, mbx), mbx)
  {
    if es != [] {
      var rest, e := es[..|es| - 1], es[|es| - 1];
      SenderConserves(rest, mbx);
      var (s, out) := TxRun(rest, mbx);
      FetchConserves(s, Taken(rest, mbx), out, mbx, e);
      StepSplits(s, mbx, e);
      var s1 := Fetch(s, e.fetched);
      if s1.frame.Some? && e.claimed {
        ClaimConserves(s1, Taken(es, mbx), out, mbx);
      } else {
        assert TxRun(es, mbx).1 == out;
      }
    }
  }

  // ---------------------------------------------------------------- one fragment at the receiver

  /** The receiver once fragments 0..k-1 of a frame are stored. */
  function Assembling(frame: seq<byte>, mbx: nat, no: nat, k: nat): Rx
    requires 42 <= mbx && 1 <= k < Count(|frame|, mbx)
  {
    CountAt(|frame|, mbx, k);
    Rx(true, k, (|frame| + 31) / 32 * 32, no % 16, frame[..At(k, mbx)])
  }

  /** What storing fragment k leads to. */
  function Stored(frame: seq<byte>, mbx: nat, no: nat, k: nat, alloc: bool): (Rx, Option<Delivery>)
    requires 42 <= mbx && k < Count(|frame|, mbx) && |frame| <= MaxFrame
  {
    if k + 1 < Count(|frame|, mbx) then (Assembling(frame, mbx, no, k + 1), None)
    else (RxReset(alloc), Some(Delivery(0, |frame|, frame)))
  }

  lemma {:induction false} AtBlocks(k: nat, mbx: nat)
    requires 42 <= mbx
    ensures At(k, mbx) % 32 == 0 && (k > 0 ==> At(k, mbx) >= 32)
  {
    if k > 0 {
      AtBlocks(k - 1, mbx);
      var blocks := (mbx - 10) / 32;
      assert Chunk(mbx) == blocks * 32;
    }
  }

  /** Values that fit their header fields read back unchanged. */
  lemma ExactFields(k: nat, offset: nat, no: nat, last: bool)
    requires k <= 63 && offset <= 63
    ensures FragNo(Info2(k % 256, offset, no)) == k
    ensures FrameOffset(Info2(k % 256, offset, no)) == offset
    ensures FrameNo(Info2(k % 256, offset, no)) == no % 16
    ensures IsLast(Info1(last)) == last && !TimeAppended(Info1(last)) && Port(Info1(last)) == 0
  {
    assert k % 256 == k && k % 64 == k && offset % 64 == offset;
    HeaderFields(k, offset, no, last);
  }

  /** The offset field of a frame the size field can describe. */
  lemma OffsetField(n: nat, mbx: nat, k: nat)
    requires 42 <= mbx && k < Count(n, mbx) && 1 <= n <= MaxFrame
    ensures At(k, mbx) / 32 <= 63 && At(k, mbx) / 32 * 32 == At(k, mbx)
    ensures 1 <= (n + 31) / 32 <= 63 && n <= (n + 31) / 32 * 32
    ensures k <= 62 && (k % 256 > 0) == (k > 0)
  {
    CountAt(n, mbx, k);
    CountBound(n, mbx);
    AtBlocks(k, mbx);
    WholeBlocks(At(k, mbx));
  }

  lemma WholeBlocks(x: nat)
    ensures x % 32 == 0 ==> x / 32 * 32 == x
    ensures x <= MaxFrame ==> x / 32 <= 63
  {
  }

  /** The header the receiver reads off fragment k. */
  lemma ReadsBack(frame: seq<byte>, mbx: nat, no: nat, k: nat)
    requires 42 <= mbx && k < Count(|frame|, mbx) && 1 <= |frame| <= MaxFrame
    ensures var f := FragAt(frame, mbx, no, k);
            && FragNo(f.info2) == k
            && FrameNo(f.info2) == no % 16
            && FrameOffset(f.info2) * 32 == (if k > 0 then At(k, mbx) else (|frame| + 31) / 32 * 32)
            && IsLast(f.info1) == (k + 1 == Count(|frame|, mbx))
            && !TimeAppended(f.info1) && Port(f.info1) == 0
  {
    OffsetField(|frame|, mbx, k);
    ExactFields(k, if k > 0 then At(k, mbx) / 32 else (|frame| + 31) / 32, no, k + 1 == Count(|frame|, mbx));
  }

  /** The bytes of fragment k extend the bytes before it. */
  lemma Extends(frame: seq<byte>, mbx: nat, no: nat, k: nat)
    requires 42 <= mbx && k < Count(|frame|, mbx) && 1 <= |frame| <= MaxFrame
    ensures At(k, mbx) <= |frame|
    ensures var upto := if k + 1 == Count(|frame|, mbx) then |frame| else At(k + 1, mbx);
            && upto <= |frame| <= (|frame| + 31) / 32 * 32 <= MaxFrame
            && At(k, mbx) + |FragAt(frame, mbx, no, k).data| == upto
            && frame[..At(k, mbx)] + FragAt(frame, mbx, no, k).data == frame[..upto]
  {
    CountAt(|frame|, mbx, k);
  }

  /** The bytes of an accepted fragment are stored, and the last one delivers. */
  lemma StoresAccepted(s: Rx, a: Rx, f: Fragment, alloc: bool)
    requires RxValid(s) && Accepting(s, f) == Some(a) && |a.data| + |f.data| <= a.size
    requires !TimeAppended(f.info1) && Port(f.info1) == 0
    ensures var stored := a.data + f.data;
            RxStep(s, f, alloc)
            == if IsLast(f.info1) then (RxReset(alloc), Some(Delivery(0, |stored|, stored)))
               else (a.(fragNo := a.fragNo + 1, data := stored), None)
  {
  }

  lemma AcceptsNext(frame: seq<byte>, mbx: nat, no: nat, k: nat)
    requires 42 <= mbx && 1 <= k < Count(|frame|, mbx) && 1 <= |frame| <= MaxFrame
    ensures RxValid(Assembling(frame, mbx, no, k))
    ensures Accepting(Assembling(frame, mbx, no, k), FragAt(frame, mbx, no, k)) == Some(Assembling(frame, mbx, no, k))
  {
    ReadsBack(frame, mbx, no, k);
    Extends(frame, mbx, no, k);
    CountBound(|frame|, mbx);
  }

  /** The next fragment of the frame under assembly is stored. */
  lemma StoresNext(frame: seq<byte>, mbx: nat, no: nat, k: nat, alloc: bool)
    requires 42 <= mbx && 1 <= k < Count(|frame|, mbx) && 1 <= |frame| <= MaxFrame
    ensures RxValid(Assembling(frame, mbx, no, k))
    ensures RxStep(Assembling(frame, mbx, no, k), FragAt(frame, mbx, no, k), alloc)
            == Stored(frame, mbx, no, k, alloc)
  {
    var s, f := Assembling(frame, mbx, no, k), FragAt(frame, mbx, no, k);
    AcceptsNext(frame, mbx, no, k);
    ReadsBack(frame, mbx, no, k);
    Extends(frame, mbx, no, k);
    StoresAccepted(s, s, f, alloc);
    assert frame[..|frame|] == frame;
  }

  /** Fragment 0 starts a frame whatever was under assembly, if there is a buffer. */
  lemma StoresFirst(s: Rx, frame: seq<byte>, mbx: nat, no: nat, alloc: bool)
    requires RxValid(s) && s.hasBuf
    requires 42 <= mbx && 1 <= |frame| <= MaxFrame
    ensures RxStep(s, FragAt(frame, mbx, no, 0), alloc) == Stored(frame, mbx, no, 0, alloc)
  {
    ReadsBack(frame, mbx, no, 0);
    Extends(frame, mbx, no, 0);
    assert frame[..0] == [] && frame[..|frame|] == frame;
  }

  /** Any other fragment ends the assembly, if its number or its frame number differs. */
  lemma Drops(frame: seq<byte>, mbx: nat, no: nat, k: nat, other: seq<byte>, no': nat, c: nat, alloc: bool)
    requires 42 <= mbx && 1 <= k < Count(|frame|, mbx) && 1 <= |frame| <= MaxFrame
    requires 1 <= c < Count(|other|, mbx) && 1 <= |other| <= MaxFrame
    requires c != k || no % 16 != no' % 16
    ensures RxValid(Assembling(frame, mbx, no, k))
    ensures RxStep(Assembling(frame, mbx, no, k), FragAt(other, mbx, no', c), alloc) == (RxReset(true), None)
  {
    ReadsBack(other, mbx, no', c);
    Extends(frame, mbx, no, k);
    OffsetField(|frame|, mbx, k);
  }

  /** A receiver waiting for fragment 0 skips the others, and drops fragment 0 without a buffer. */
  lemma Skips(hasBuf: bool, frame: seq<byte>, mbx: nat, no: nat, c: nat, alloc: bool)
    requires 42 <= mbx && c < Count(|frame|, mbx) && 1 <= |frame| <= MaxFrame
    requires c > 0 || !hasBuf
    ensures RxStep(RxReset(hasBuf), FragAt(frame, mbx, no, c), alloc)
            == (RxReset(if c > 0 then hasBuf else alloc), None)
  {
    ReadsBack(frame, mbx, no, c);
  }

  // ---------------------------------------------------------------- the lossy channel

  /** Fragment frag of frame number frame, the first frame being 0. */
  datatype Tag = Tag(frame: nat, frag: nat)

  predicate Before(a: Tag, b: Tag) {
    a.frame < b.frame || (a.frame == b.frame && a.frag < b.frag)
  }

  ghost predicate ValidFrames(frames: seq<seq<byte>>) {
    forall i | 0 <= i < |frames| :: 1 <= |frames[i]| <= MaxFrame
  }

  predicate ValidTag(frames: seq<seq<byte>>, mbx: nat, t: Tag)
    requires 42 <= mbx
  {
    t.frame < |frames| && t.frag < Count(|frames[t.frame]|, mbx)
  }

  /** What a channel lets through: some of the fragments, each at most once and in order, with
      neighbours fewer than gap frames apart. */
  ghost predicate Picked(frames: seq<seq<byte>>, mbx: nat, picks: seq<Tag>, gap: nat)
    requires 42 <= mbx
  {
    && (forall p | 0 <= p < |picks| :: ValidTag(frames, mbx, picks[p]))
    && (forall p, q | 0 <= p < q < |picks| :: Before(picks[p], picks[q]))
    && (forall p | 0 < p < |picks| :: picks[p].frame - picks[p - 1].frame < gap)
  }

  /** A channel that never loses sight of the 4-bit frame number. */
  ghost predicate Received(frames: seq<seq<byte>>, mbx: nat, picks: seq<Tag>)
    requires 42 <= mbx
  {
    Picked(frames, mbx, picks, 16)
  }

  function FragOf(frames: seq<seq<byte>>, mbx: nat, t: Tag): Fragment
    requires 42 <= mbx && ValidTag(frames, mbx, t)
  {
    FragAt(frames[t.frame], mbx, t.frame + 1, t.frag)
  }

  ghost function Wire(frames: seq<seq<byte>>, mbx: nat, picks: seq<Tag>): seq<Fragment>
    requires 42 <= mbx && forall p | 0 <= p < |picks| :: ValidTag(frames, mbx, picks[p])
  {
    seq(|picks|, p requires 0 <= p < |picks| => FragOf(frames, mbx, picks[p]))
  }

  /** The receiver after a run of fragments, with all it delivered; allocs says which of its
      buffer requests succeed. */
  function RxRun(fs: seq<Fragment>, allocs: seq<bool>, buf0: bool): (r: (Rx, seq<Delivery>))
    requires |allocs| == |fs|
    ensures RxValid(r.0)
  {
    if fs == [] then (RxReset(buf0), [])
    else
      var n := |fs| - 1;
      var before := RxRun(fs[..n], allocs[..n], buf0);
      var step := RxStep(before.0, fs[n], allocs[n]);
      (step.0, Append(before.1, step.1))
  }

  /** Fragments 0..c of frame i all came through. */
  ghost predicate RunUpTo(picks: seq<Tag>, i: nat, c: nat) {
    forall k: nat | k <= c :: Tag(i, k) in picks
  }

  ghost predicate Arrived(frames: seq<seq<byte>>, mbx: nat, picks: seq<Tag>, i: nat)
    requires 42 <= mbx && i < |frames|
  {
    RunUpTo(picks, i, Count(|frames[i]|, mbx) - 1)
  }

  predicate IsWhole(r: Delivery, frame: seq<byte>) {
    r.port == 0 && r.len == |frame| && r.bytes == frame
  }

  ghost predicate AllTrue(bs: seq<bool>) {
    forall p | 0 <= p < |bs| :: bs[p]
  }

  /** out is exactly the frames numbered in d. */
  ghost predicate Delivers(frames: seq<seq<byte>>, out: seq<Delivery>, d: seq<nat>) {
    && |out| == |d|
    && forall j | 0 <= j < |d| :: d[j] < |frames| && IsWhole(out[j], frames[d[j]])
  }

  ghost predicate IsAssembling(frames: seq<seq<byte>>, mbx: nat, s: Rx, t: Tag)
    requires 42 <= mbx && ValidTag(frames, mbx, t)
  {
    t.frag + 1 < Count(|frames[t.frame]|, mbx)
    && s == Assembling(frames[t.frame], mbx, t.frame + 1, t.frag + 1)
  }

  /** The invariant of the lossy channel: d numbers the frames delivered so far, and the receiver
      either waits for a new frame or holds the last one's fragments up to the last received.
      With buffers always available (all), nothing that arrived whole is missing. */
  ghost predicate Tracks(frames: seq<seq<byte>>, mbx: nat, picks: seq<Tag>, s: Rx, out: seq<Delivery>,
                         d: seq<nat>, all: bool)
    requires 42 <= mbx
  {
    && (forall p | 0 <= p < |picks| :: ValidTag(frames, mbx, picks[p]))
    && StrictlyIncreasing(d) && Delivers(frames, out, d)
    && (forall j | 0 <= j < |d| :: Arrived(frames, mbx, picks, d[j]))
    && (all ==> forall i | 0 <= i < |frames| && Arrived(frames, mbx, picks, i) :: i in d)
    && (all ==> s.hasBuf)
    && if picks == [] then d == [] && s == RxReset(s.hasBuf)
       else
         var t := picks[|picks| - 1];
         && (forall j | 0 <= j < |d| :: d[j] <= t.frame)
         && if IsAssembling(frames, mbx, s, t)
            then RunUpTo(picks, t.frame, t.frag) && forall j | 0 <= j < |d| :: d[j] < t.frame
            else
              && s == RxReset(s.hasBuf)
              && (all && RunUpTo(picks, t.frame, t.frag) ==> t.frag + 1 == Count(|frames[t.frame]|, mbx))
  }

  /** A further fragment completes no frame but its own, and that only if it is the last. */
  lemma ArrivalsGrow(frames: seq<seq<byte>>, mbx: nat, picks: seq<Tag>, t: Tag, i: nat)
    requires 42 <= mbx && Received(frames, mbx, picks + [t]) && i < |frames|
    ensures Arrived(frames, mbx, picks, i) ==> Arrived(frames, mbx, picks + [t], i)
    ensures Arrived(frames, mbx, picks + [t], i) && !Arrived(frames, mbx, picks, i) ==>
              i == t.frame && t.frag + 1 == Count(|frames[i]|, mbx) && RunUpTo(picks + [t], i, t.frag)
  {
    var more := picks + [t];
    var c := Count(|frames[i]|, mbx);
    if Arrived(frames, mbx, more, i) && !Arrived(frames, mbx, picks, i) {
      var k: nat :| k <= c - 1 && Tag(i, k) !in picks;
      assert Tag(i, k) in more && Tag(i, c - 1) in more;
      assert forall p | 0 <= p < |picks| :: Before(more[p], more[|picks|]);
    }
  }

  lemma TracksCompleted(frames: seq<seq<byte>>, mbx: nat, picks: seq<Tag>, out: seq<Delivery>, d: seq<nat>,
                        all: bool, t: Tag, alloc: bool, s: Rx, r: Delivery)
    requires 42 <= mbx && Received(frames, mbx, picks + [t]) && ValidTag(frames, mbx, t)
    requires Tracks(frames, mbx, picks, s, out, d, all)
    requires forall j | 0 <= j < |d| :: d[j] < t.frame
    requires RunUpTo(picks + [t], t.frame, t.frag) && t.frag + 1 == Count(|frames[t.frame]|, mbx)
    requires IsWhole(r, frames[t.frame])
    ensures Tracks(frames, mbx, picks + [t], RxReset(alloc), out + [r], d + [t.frame], all && alloc)
  {
    var more := picks + [t];
    assert more[|more| - 1] == t;
    ArrivedStored(frames, mbx, picks, d, all, t, d + [t.frame]);
    assert !IsAssembling(frames, mbx, RxReset(alloc), t);
    assert Delivers(frames, out + [r], d + [t.frame]);
  }

  lemma TracksPartial(frames: seq<seq<byte>>, mbx: nat, picks: seq<Tag>, out: seq<Delivery>, d: seq<nat>,
                      all: bool, t: Tag, s: Rx, s': Rx)
    requires 42 <= mbx && Received(frames, mbx, picks + [t]) && ValidTag(frames, mbx, t)
    requires Tracks(frames, mbx, picks, s, out, d, all)
    requires forall j | 0 <= j < |d| :: d[j] < t.frame
    requires RunUpTo(picks + [t], t.frame, t.frag) && IsAssembling(frames, mbx, s', t)
    ensures Tracks(frames, mbx, picks + [t], s', out, d, all)
  {
    var more := picks + [t];
    assert more[|more| - 1] == t;
    ArrivedStored(frames, mbx, picks, d, all, t, d);
  }

  /** A stored fragment completes its frame, or leaves the receiver assembling it. */
  lemma TracksStored(frames: seq<seq<byte>>, mbx: nat, picks: seq<Tag>, out: seq<Delivery>, d: seq<nat>,
                     all: bool, t: Tag, alloc: bool, s: Rx)
    returns (d': seq<nat>)
    requires 42 <= mbx && ValidFrames(frames) && Received(frames, mbx, picks + [t])
    requires ValidTag(frames, mbx, t)
    requires Tracks(frames, mbx, picks, s, out, d, all)
    requires forall j | 0 <= j < |d| :: d[j] < t.frame
    requires RunUpTo(picks + [t], t.frame, t.frag)
    ensures var r := Stored(frames[t.frame], mbx, t.frame + 1, t.frag, alloc);
            Tracks(frames, mbx, picks + [t], r.0, Append(out, r.1), d', all && alloc)
  {
    var r := Stored(frames[t.frame], mbx, t.frame + 1, t.frag, alloc);
    if t.frag + 1 == Count(|frames[t.frame]|, mbx) {
      d' := d + [t.frame];
      TracksCompleted(frames, mbx, picks, out, d, all, t, alloc, s, r.1.value);
    } else {
      d' := d;
      TracksPartial(frames, mbx, picks, out, d, all, t, s, r.0);
      TracksWeaker(frames, mbx, picks + [t], r.0, out, d, all, all && alloc);
    }
  }

  lemma TracksWeaker(frames: seq<seq<byte>>, mbx: nat, picks: seq<Tag>, s: Rx, out: seq<Delivery>, d: seq<nat>,
                     all: bool, all': bool)
    requires 42 <= mbx && Tracks(frames, mbx, picks, s, out, d, all) && (all' ==> all)
    ensures Tracks(frames, mbx, picks, s, out, d, all')
  {
  }

  lemma ArrivedStored(frames: seq<seq<byte>>, mbx: nat, picks: seq<Tag>, d: seq<nat>, all: bool, t: Tag, d': seq<nat>)
    requires 42 <= mbx && Received(frames, mbx, picks + [t]) && ValidTag(frames, mbx, t)
    requires forall j | 0 <= j < |d| :: d[j] < |frames| && Arrived(frames, mbx, picks, d[j])
    requires all ==> forall i | 0 <= i < |frames| && Arrived(frames, mbx, picks, i) :: i in d
    requires RunUpTo(picks + [t], t.frame, t.frag)
    requires d' == if t.frag + 1 == Count(|frames[t.frame]|, mbx) then d + [t.frame] else d
    ensures forall j | 0 <= j < |d'| :: d'[j] < |frames| && Arrived(frames, mbx, picks + [t], d'[j])
    ensures all ==> forall i | 0 <= i < |frames| && Arrived(frames, mbx, picks + [t], i) :: i in d'
  {
    forall i | 0 <= i < |frames|
      ensures Arrived(frames, mbx, picks, i) ==> Arrived(frames, mbx, picks + [t], i)
      ensures all && Arrived(frames, mbx, picks + [t], i) ==> i in d'
    {
      ArrivalsGrow(frames, mbx, picks, t, i);
    }
  }

  lemma TracksMissed(frames: seq<seq<byte>>, mbx: nat, picks: seq<Tag>, out: seq<Delivery>, d: seq<nat>,
                     all: bool, t: Tag, alloc: bool, s: Rx, hasBuf: bool)
    requires 42 <= mbx && ValidFrames(frames) && Received(frames, mbx, picks + [t])
    requires Tracks(frames, mbx, picks, s, out, d, all)
    requires all && alloc ==> hasBuf && !RunUpTo(picks + [t], t.frame, t.frag)
    ensures Tracks(frames, mbx, picks + [t], RxReset(hasBuf), out, d, all && alloc)
  {
    var more := picks + [t];
    assert ValidTag(frames, mbx, more[|picks|]);
    assert more[|more| - 1] == t;
    if picks != [] {
      assert Before(more[|picks| - 1], more[|picks|]);
    }
    forall i | 0 <= i < |frames|
      ensures Arrived(frames, mbx, picks, i) ==> Arrived(frames, mbx, more, i)
      ensures all && alloc && Arrived(frames, mbx, more, i) ==> i in d
    {
      ArrivalsGrow(frames, mbx, picks, t, i);
    }
  }

  /** Fewer than 16 frames apart, equal 4-bit numbers mean the same frame. */
  lemma SameNumber(i: nat, j: nat)
    requires i <= j < i + 16
    ensures (i + 1) % 16 == (j + 1) % 16 ==> i == j
  {
  }

  /** What a fragment other than fragment 0 does to a frame under assembly: the next one of that
      frame is stored, any other ends the assembly. */
  lemma InFrame(frames: seq<seq<byte>>, mbx: nat, s: Rx, u: Tag, t: Tag, alloc: bool)
    requires 42 <= mbx && ValidFrames(frames) && ValidTag(frames, mbx, u) && ValidTag(frames, mbx, t)
    requires RxValid(s) && IsAssembling(frames, mbx, s, u)
    requires t.frag > 0 && Before(u, t) && t.frame - u.frame < 16
    ensures RxStep(s, FragOf(frames, mbx, t), alloc)
            == if t == Tag(u.frame, u.frag + 1) then Stored(frames[t.frame], mbx, t.frame + 1, t.frag, alloc)
               else (RxReset(true), None)
  {
    if t == Tag(u.frame, u.frag + 1) {
      StoresNext(frames[t.frame], mbx, t.frame + 1, t.frag, alloc);
    } else {
      SameNumber(u.frame, t.frame);
      Drops(frames[u.frame], mbx, u.frame + 1, u.frag + 1, frames[t.frame], t.frame + 1, t.frag, alloc);
    }
  }

  /** One more fragment, other than fragment 0, of a frame under assembly keeps the invariant. */
  lemma TracksInFrame(frames: seq<seq<byte>>, mbx: nat, picks: seq<Tag>, s: Rx, out: seq<Delivery>, d: seq<nat>,
                      all: bool, t: Tag, alloc: bool, r: (Rx, Option<Delivery>))
    returns (d': seq<nat>)
    requires 42 <= mbx && ValidFrames(frames) && Received(frames, mbx, picks + [t])
    requires ValidTag(frames, mbx, t) && t.frag > 0
    requires Tracks(frames, mbx, picks, s, out, d, all)
    requires picks != [] && IsAssembling(frames, mbx, s, picks[|picks| - 1])
    requires r == if t == Tag(picks[|picks| - 1].frame, picks[|picks| - 1].frag + 1)
                  then Stored(frames[t.frame], mbx, t.frame + 1, t.frag, alloc) else (RxReset(true), None)
    ensures Tracks(frames, mbx, picks + [t], r.0, Append(out, r.1), d', all && alloc)
  {
    var u := picks[|picks| - 1];
    if t == Tag(u.frame, u.frag + 1) {
      RunExtends(picks, t);
      d' := TracksStored(frames, mbx, picks, out, d, all, t, alloc, s);
    } else {
      RunBroken(frames, mbx, picks, t);
      d' := d;
      TracksMissed(frames, mbx, picks, out, d, all, t, alloc, s, true);
    }
  }

  /** One more fragment when it starts a frame, or none is under assembly, keeps the invariant. */
  lemma TracksAtStart(frames: seq<seq<byte>>, mbx: nat, picks: seq<Tag>, s: Rx, out: seq<Delivery>, d: seq<nat>,
                      all: bool, t: Tag, alloc: bool, r: (Rx, Option<Delivery>))
    returns (d': seq<nat>)
    requires 42 <= mbx && ValidFrames(frames) && Received(frames, mbx, picks + [t])
    requires ValidTag(frames, mbx, t)
    requires Tracks(frames, mbx, picks, s, out, d, all)
    requires t.frag > 0 ==> s == RxReset(s.hasBuf)
    requires r == if t.frag == 0 && s.hasBuf then Stored(frames[t.frame], mbx, t.frame + 1, t.frag, alloc)
                  else (RxReset(if t.frag > 0 then s.hasBuf else alloc), None)
    ensures Tracks(frames, mbx, picks + [t], r.0, Append(out, r.1), d', all && alloc)
  {
    var more := picks + [t];
    assert more[|picks|] == t;
    if t.frag == 0 && s.hasBuf {
      assert picks != [] ==> Before(more[|picks| - 1], more[|picks|]);
      d' := TracksStored(frames, mbx, picks, out, d, all, t, alloc, s);
    } else {
      d' := d;
      if t.frag > 0 {
        RunBroken(frames, mbx, picks, t);
        assert picks != [] ==> !IsAssembling(frames, mbx, s, picks[|picks| - 1]);
      }
      TracksMissed(frames, mbx, picks, out, d, all, t, alloc, s, if t.frag > 0 then s.hasBuf else alloc);
    }
  }

  /** What a fragment does to a receiver waiting for a new frame. */
  lemma AtStart(frames: seq<seq<byte>>, mbx: nat, s: Rx, t: Tag, alloc: bool)
    requires 42 <= mbx && ValidFrames(frames) && ValidTag(frames, mbx, t)
    requires RxValid(s) && (t.frag > 0 || !s.hasBuf ==> s == RxReset(s.hasBuf))
    ensures RxStep(s, FragOf(frames, mbx, t), alloc)
            == if t.frag == 0 && s.hasBuf then Stored(frames[t.frame], mbx, t.frame + 1, t.frag, alloc)
               else (RxReset(if t.frag > 0 then s.hasBuf else alloc), None)
  {
    if t.frag == 0 && s.hasBuf {
      StoresFirst(s, frames[t.frame], mbx, t.frame + 1, alloc);
    } else {
      Skips(s.hasBuf, frames[t.frame], mbx, t.frame + 1, t.frag, alloc);
    }
  }

  /** One more fragment keeps the invariant. */
  lemma TracksStep(frames: seq<seq<byte>>, mbx: nat, picks: seq<Tag>, s: Rx, out: seq<Delivery>, d: seq<nat>,
                   all: bool, t: Tag, alloc: bool)
    returns (d': seq<nat>)
    requires 42 <= mbx && ValidFrames(frames) && Received(frames, mbx, picks + [t])
    requires RxValid(s) && ValidTag(frames, mbx, t)
    requires Tracks(frames, mbx, picks, s, out, d, all)
    ensures var r := RxStep(s, FragOf(frames, mbx, t), alloc);
            Tracks(frames, mbx, picks + [t], r.0, Append(out, r.1), d', all && alloc)
  {
    var r := RxStep(s, FragOf(frames, mbx, t), alloc);
    if picks != [] && IsAssembling(frames, mbx, s, picks[|picks| - 1]) && t.frag > 0 {
      var more := picks + [t];
      assert more[|picks| - 1] == picks[|picks| - 1] && more[|picks|] == t;
      InFrame(frames, mbx, s, picks[|picks| - 1], t, alloc);
      d' := TracksInFrame(frames, mbx, picks, s, out, d, all, t, alloc, r);
    } else {
      AtStart(frames, mbx, s, t, alloc);
      d' := TracksAtStart(frames, mbx, picks, s, out, d, all, t, alloc, r);
    }
  }

  lemma RunExtends(picks: seq<Tag>, t: Tag)
    requires t.frag > 0 && RunUpTo(picks, t.frame, t.frag - 1)
    ensures RunUpTo(picks + [t], t.frame, t.frag)
  {
    forall k: nat | k <= t.frag ensures Tag(t.frame, k) in picks + [t] {
      assert (picks + [t])[|picks|] == t;
      assert k < t.frag ==> Tag(t.frame, k) in picks;
    }
  }

  /** A fragment that does not directly follow the last one received cannot complete a run. */
  lemma RunBroken(frames: seq<seq<byte>>, mbx: nat, picks: seq<Tag>, t: Tag)
    requires 42 <= mbx && Received(frames, mbx, picks + [t]) && t.frag > 0
    ensures RunUpTo(picks + [t], t.frame, t.frag) ==>
              picks != [] && picks[|picks| - 1] == Tag(t.frame, t.frag - 1) && RunUpTo(picks, t.frame, t.frag - 1)
  {
    var more := picks + [t];
    if RunUpTo(more, t.frame, t.frag) {
      var prev := Tag(t.frame, t.frag - 1);
      assert prev in more && prev != t;
      var p :| 0 <= p < |picks| && more[p] == prev;
      var q := p + 1;
      assert Before(more[p], more[q]);
      assert q < |picks| ==> Before(more[q], more[|picks|]);
      forall k: nat | k <= t.frag - 1 ensures Tag(t.frame, k) in picks {
        assert Tag(t.frame, k) in more;
      }
    }
  }

  lemma PicksSplit(frames: seq<seq<byte>>, mbx: nat, picks: seq<Tag>)
    requires 42 <= mbx && Received(frames, mbx, picks) && picks != []
    ensures var n := |picks| - 1;
            && picks[..n] + [picks[n]] == picks && Received(frames, mbx, picks[..n])
            && ValidTag(frames, mbx, picks[n])
            && Wire(frames, mbx, picks)[..n] == Wire(frames, mbx, picks[..n])
            && Wire(frames, mbx, picks)[n] == FragOf(frames, mbx, picks[n])
  {
  }

  lemma AllTrueSplit(bs: seq<bool>)
    requires bs != []
    ensures AllTrue(bs) <==> AllTrue(bs[..|bs| - 1]) && bs[|bs| - 1]
  {
    assert bs == bs[..|bs| - 1] + [bs[|bs| - 1]];
  }

  lemma {:induction false} RunTracks(frames: seq<seq<byte>>, mbx: nat, picks: seq<Tag>, fs: seq<Fragment>,
                                     allocs: seq<bool>, buf0: bool)
    returns (d: seq<nat>)
    requires 42 <= mbx && ValidFrames(frames) && Received(frames, mbx, picks) && |allocs| == |fs|
    requires fs == Wire(frames, mbx, picks)
    ensures Tracks(frames, mbx, picks, RxRun(fs, allocs, buf0).0, RxRun(fs, allocs, buf0).1, d,
                   buf0 && AllTrue(allocs))
  {
    if picks == [] {
      d := [];
      forall i | 0 <= i < |frames| ensures !Arrived(frames, mbx, picks, i) {
        assert Tag(i, 0) !in picks;
      }
    } else {
      var n := |picks| - 1;
      PicksSplit(frames, mbx, picks);
      AllTrueSplit(allocs);
      var d0 := RunTracks(frames, mbx, picks[..n], fs[..n], allocs[..n], buf0);
      var before := RxRun(fs[..n], allocs[..n], buf0);
      d := TracksStep(frames, mbx, picks[..n], before.0, before.1, d0, buf0 && AllTrue(allocs[..n]), picks[n],
                      allocs[n]);
    }
  }

  /**
   The lossy channel. Whatever subset of the fragments arrives, each delivery is one whole sent
   frame; they come in order and none twice; and a delivered frame arrived whole. If the receiver
   always gets its buffers, the frames delivered are exactly those all of whose fragments arrived.
   */
  lemma LossyChannel(frames: seq<seq<byte>>, mbx: nat, picks: seq<Tag>, allocs: seq<bool>, buf0: bool)
    returns (d: seq<nat>)
    requires 42 <= mbx && ValidFrames(frames) && Received(frames, mbx, picks) && |allocs| == |picks|
    ensures StrictlyIncreasing(d) && Delivers(frames, RxRun(Wire(frames, mbx, picks), allocs, buf0).1, d)
    ensures forall i | i in d :: 0 <= i < |frames| && Arrived(frames, mbx, picks, i)
    ensures buf0 && AllTrue(allocs) ==>
              forall i | 0 <= i < |frames| :: i in d <==> Arrived(frames, mbx, picks, i)
  {
    d := RunTracks(frames, mbx, picks, Wire(frames, mbx, picks), allocs, buf0);
  }

  /**
   The 4-bit frame number is why neighbours must be fewer than 16 frames apart: fragment 0 of one
   two-fragment frame and fragment 1 of the 16th frame after it are put together as one.
   */
  lemma SixteenApartMixes(a: seq<byte>, b: seq<byte>, mbx: nat, no: nat, allocs: seq<bool>)
    requires 42 <= mbx && 1 <= |a| <= MaxFrame && |b| == |a| && Count(|a|, mbx) == 2 && |allocs| == 2
    ensures var out := RxRun([FragAt(a, mbx, no, 0), FragAt(b, mbx, no + 16, 1)], allocs, true).1;
            && At(1, mbx) < |a| && |out| == 1
            && IsWhole(out[0], a[..At(1, mbx)] + b[At(1, mbx)..])
  {
    CountAt(|a|, mbx, 0);
    StoresFirst(RxReset(true), a, mbx, no, allocs[0]);
    StoresForeign(a, b, mbx, no, allocs[1]);
    RunOfTwo(FragAt(a, mbx, no, 0), FragAt(b, mbx, no + 16, 1), allocs, true);
  }

  /** Each delivery is one of the frames sent, whole. */
  ghost predicate AllSent(frames: seq<seq<byte>>, out: seq<Delivery>) {
    forall r | r in out :: exists i :: 0 <= i < |frames| && IsWhole(r, frames[i])
  }

  /** No reception with neighbours fewer than gap frames apart delivers anything but sent frames. */
  ghost predicate NeverMixes(mbx: nat, gap: nat)
    requires 42 <= mbx
  {
    forall frames, picks, allocs, buf0 |
      ValidFrames(frames) && Picked(frames, mbx, picks, gap) && |allocs| == |picks| ::
      AllSent(frames, RxRun(Wire(frames, mbx, picks), allocs, buf0).1)
  }

  /** Fragment 0 of a frame that fits one mailbox is the whole frame. */
  lemma SingleStep(frames: seq<seq<byte>>, mbx: nat, t: Tag, hasBuf: bool, alloc: bool)
    requires 42 <= mbx && mbx - 10 >= MaxFrame && ValidFrames(frames) && ValidTag(frames, mbx, t)
    ensures var r := RxStep(RxReset(hasBuf), FragOf(frames, mbx, t), alloc);
            r == (RxReset(alloc), if hasBuf then Some(Delivery(0, |frames[t.frame]|, frames[t.frame])) else None)
  {
    if hasBuf {
      StoresFirst(RxReset(true), frames[t.frame], mbx, t.frame + 1, alloc);
    } else {
      Skips(false, frames[t.frame], mbx, t.frame + 1, 0, alloc);
    }
  }

  /** A mailbox that takes any frame in one fragment leaves nothing to mix. */
  lemma {:induction false} SingleFragments(frames: seq<seq<byte>>, mbx: nat, picks: seq<Tag>, fs: seq<Fragment>,
                                           allocs: seq<bool>, buf0: bool)
    requires 42 <= mbx && mbx - 10 >= MaxFrame && ValidFrames(frames) && |allocs| == |picks|
    requires forall p | 0 <= p < |picks| :: ValidTag(frames, mbx, picks[p])
    requires fs == Wire(frames, mbx, picks)
    ensures var r := RxRun(fs, allocs, buf0);
            r.0 == RxReset(r.0.hasBuf) && AllSent(frames, r.1)
  {
    if picks != [] {
      var n := |picks| - 1;
      assert fs[..n] == Wire(frames, mbx, picks[..n]);
      SingleFragments(frames, mbx, picks[..n], fs[..n], allocs[..n], buf0);
      SingleStep(frames, mbx, picks[n], RxRun(fs[..n], allocs[..n], buf0).0.hasBuf, allocs[n]);
    }
  }

  lemma CloseNeverMix(frames: seq<seq<byte>>, mbx: nat, picks: seq<Tag>, allocs: seq<bool>, buf0: bool)
    requires 42 <= mbx && ValidFrames(frames) && Received(frames, mbx, picks) && |allocs| == |picks|
    ensures AllSent(frames, RxRun(Wire(frames, mbx, picks), allocs, buf0).1)
  {
    var out := RxRun(Wire(frames, mbx, picks), allocs, buf0).1;
    var d := LossyChannel(frames, mbx, picks, allocs, buf0);
    forall r | r in out ensures exists i :: 0 <= i < |frames| && IsWhole(r, frames[i]) {
      var j :| 0 <= j < |out| && out[j] == r;
      assert IsWhole(r, frames[d[j]]);
    }
  }

  /** n equal bytes. */
  function Fill(b: byte, n: nat): (s: seq<byte>)
    ensures |s| == n && forall k | 0 <= k < n :: s[k] == b
  {
    seq(n, _ => b)
  }

  /** Sixteen frames of zeros and one of ones. */
  function Frames17(n: nat): (fs: seq<seq<byte>>)
    ensures |fs| == 17 && fs[16] == Fill(1, n) && forall i | 0 <= i < 16 :: fs[i] == Fill(0, n)
  {
    seq(17, i => Fill(if i == 16 then 1 else 0, n))
  }

  lemma TwoFragments(mbx: nat)
    requires 42 <= mbx
    ensures Count((mbx - 9) as nat, mbx) == 2 && 32 <= At(1, mbx) <= mbx - 10
  {
    assert Count(mbx - 9 - Chunk(mbx), mbx) == 1;
    assert At(1, mbx) == At(0, mbx) + Chunk(mbx);
  }

  /** The zeros of the first frame and the ones of the last, put together, are none of the frames. */
  lemma MixtureIsNew(n: nat, k: nat, r: Delivery)
    requires 0 < k < n && r.bytes == Fill(0, n)[..k] + Fill(1, n)[k..]
    ensures !AllSent(Frames17(n), [r])
  {
    assert r.bytes[0] == 0 && r.bytes[k] == 1;
    assert r in [r];
    forall i | 0 <= i < 17 ensures !IsWhole(r, Frames17(n)[i]) {
      assert Frames17(n)[i] == if i == 16 then Fill(1, n) else Fill(0, n);
    }
  }

  /** Fragment 0 of the first frame and fragment 1 of the last. */
  const Mixed := [Tag(0, 0), Tag(16, 1)]

  lemma MixturePicked(mbx: nat, gap: nat)
    requires 42 <= mbx && mbx - 10 < MaxFrame && gap > 16
    ensures ValidFrames(Frames17(mbx - 9)) && Picked(Frames17(mbx - 9), mbx, Mixed, gap)
  {
    TwoFragments(mbx);
  }

  lemma MixtureWire(mbx: nat)
    requires 42 <= mbx && Count((mbx - 9) as nat, mbx) == 2
    ensures Wire(Frames17(mbx - 9), mbx, Mixed)
            == [FragAt(Fill(0, mbx - 9), mbx, 1, 0), FragAt(Fill(1, mbx - 9), mbx, 17, 1)]
  {
    assert FragOf(Frames17(mbx - 9), mbx, Mixed[0]) == FragAt(Fill(0, mbx - 9), mbx, 1, 0);
    assert FragOf(Frames17(mbx - 9), mbx, Mixed[1]) == FragAt(Fill(1, mbx - 9), mbx, 17, 1);
  }

  /** A mailbox that cuts some frame leaves room for fragments 0 and 1 of frames 16 apart. */
  lemma MixtureReceived(mbx: nat, gap: nat)
    requires 42 <= mbx && mbx - 10 < MaxFrame && gap > 16
    ensures !NeverMixes(mbx, gap)
  {
    var n := mbx - 9;
    TwoFragments(mbx);
    MixturePicked(mbx, gap);
    MixtureWire(mbx);
    SixteenApartMixes(Fill(0, n), Fill(1, n), mbx, 1, [true, true]);
    var out := RxRun(Wire(Frames17(n), mbx, Mixed), [true, true], true).1;
    MixtureIsNew(n, At(1, mbx), out[0]);
    assert out == [out[0]];
  }

  /**
   When frames can be mixed up: every delivery of every reception whose neighbours are fewer than
   gap frames apart is a sent frame if and only if the gap is at most 16, or the mailbox takes any
   frame in a single fragment.
   */
  lemma MixesIff(mbx: nat, gap: nat)
    requires 42 <= mbx
    ensures NeverMixes(mbx, gap) <==> gap <= 16 || mbx - 10 >= MaxFrame
  {
    if gap <= 16 || mbx - 10 >= MaxFrame {
      forall frames, picks, allocs, buf0 | ValidFrames(frames) && Picked(frames, mbx, picks, gap) && |allocs| == |picks|
        ensures AllSent(frames, RxRun(Wire(frames, mbx, picks), allocs, buf0).1)
      {
        if gap <= 16 {
          CloseNeverMix(frames, mbx, picks, allocs, buf0);
        } else {
          SingleFragments(frames, mbx, picks, Wire(frames, mbx, picks), allocs, buf0);
        }
      }
    } else {
      MixtureReceived(mbx, gap);
    }
  }

  lemma RunOfTwo(f0: Fragment, f1: Fragment, allocs: seq<bool>, buf0: bool)
    requires |allocs| == 2
    ensures var r0 := RxStep(RxReset(buf0), f0, allocs[0]);
            var r1 := RxStep(r0.0, f1, allocs[1]);
            RxRun([f0, f1], allocs, buf0) == (r1.0, Append(Append([], r0.1), r1.1))
  {
    RunSnoc([], f0, [], allocs[0], buf0);
    assert [] + [f0] == [f0] && [f0] + [f1] == [f0, f1] && [allocs[0]] + [allocs[1]] == allocs;
    RunSnoc([f0], f1, [allocs[0]], allocs[1], buf0);
  }

  lemma StoresForeign(a: seq<byte>, b: seq<byte>, mbx: nat, no: nat, alloc: bool)
    requires 42 <= mbx && 1 <= |a| <= MaxFrame && |b| == |a| && Count(|a|, mbx) == 2 && At(1, mbx) <= |a|
    ensures RxStep(Assembling(a, mbx, no, 1), FragAt(b, mbx, no + 16, 1), alloc)
            == (RxReset(alloc), Some(Delivery(0, |a|, a[..At(1, mbx)] + b[At(1, mbx)..])))
  {
    var s, f1 := Assembling(a, mbx, no, 1), FragAt(b, mbx, no + 16, 1);
    AcceptsForeign(a, b, mbx, no);
    ReadsBack(b, mbx, no + 16, 1);
    Extends(b, mbx, no + 16, 1);
    assert f1.data == b[At(1, mbx)..] && |s.data| + |f1.data| == |a|;
    StoresAccepted(s, s, f1, alloc);
  }

  lemma AcceptsForeign(a: seq<byte>, b: seq<byte>, mbx: nat, no: nat)
    requires 42 <= mbx && 1 <= |a| <= MaxFrame && |b| == |a| && Count(|a|, mbx) == 2 && At(1, mbx) <= |a|
    ensures RxValid(Assembling(a, mbx, no, 1))
    ensures Accepting(Assembling(a, mbx, no, 1), FragAt(b, mbx, no + 16, 1)) == Some(Assembling(a, mbx, no, 1))
  {
    ReadsBack(b, mbx, no + 16, 1);
    AcceptsNext(a, mbx, no, 1);
    SixteenOn(no);
    ContinuesOn(Assembling(a, mbx, no, 1), FragAt(b, mbx, no + 16, 1));
  }

  lemma SixteenOn(no: nat)
    ensures (no + 16) % 16 == no % 16
  {
  }

  lemma ContinuesOn(s: Rx, f: Fragment)
    requires s.fragNo > 0 && FragNo(f.info2) == s.fragNo && FrameNo(f.info2) == s.frameNo
    requires FrameOffset(f.info2) * 32 == |s.data|
    ensures Accepting(s, f) == Some(s)
  {
  }

  lemma RunSnoc(fs: seq<Fragment>, f: Fragment, allocs: seq<bool>, alloc: bool, buf0: bool)
    requires |allocs| == |fs|
    ensures var (s, out) := RxRun(fs, allocs, buf0);
            var r := RxStep(s, f, alloc);
            RxRun(fs + [f], allocs + [alloc], buf0) == (r.0, Append(out, r.1))
  {
    assert (fs + [f])[..|fs|] == fs && (allocs + [alloc])[..|fs|] == allocs;
  }

  // ---------------------------------------------------------------- end to end

  /** Which fragment of which frame stands at each place of the stream. */
  function Tags(frames: seq<seq<byte>>, mbx: nat): seq<Tag>
    requires 42 <= mbx
  {
    if frames == [] then []
    else
      var n := |frames| - 1;
      Tags(frames[..n], mbx) + seq(Count(|frames[n]|, mbx), k requires 0 <= k => Tag(n, k))
  }

  lemma {:induction false} BaseIsOrdinal(frames: seq<seq<byte>>, mbx: nat)
    requires 42 <= mbx && ValidFrames(frames)
    ensures BaseNo(frames, mbx) == |frames| + 1
  {
    if frames != [] {
      BaseIsOrdinal(frames[..|frames| - 1], mbx);
      CountBound(|frames[|frames| - 1]|, mbx);
    }
  }

  lemma {:induction false} TagsOrdered(frames: seq<seq<byte>>, mbx: nat)
    requires 42 <= mbx
    ensures forall p | 0 <= p < |Tags(frames, mbx)| :: ValidTag(frames, mbx, Tags(frames, mbx)[p])
    ensures forall p, q | 0 <= p < q < |Tags(frames, mbx)| :: Before(Tags(frames, mbx)[p], Tags(frames, mbx)[q])
  {
    if frames != [] {
      var n := |frames| - 1;
      TagsOrdered(frames[..n], mbx);
      var head := Tags(frames[..n], mbx);
      var tags := Tags(frames, mbx);
      forall p, q | 0 <= p < q < |tags| ensures Before(tags[p], tags[q]) {
        assert p < |head| ==> tags[p] == head[p] && ValidTag(frames[..n], mbx, head[p]);
        assert q < |head| ==> tags[q] == head[q];
      }
    }
  }

  /** A frame within the size field keeps one frame number. */
  lemma ShortFrame(frame: seq<byte>, mbx: nat, base: nat, k: nat)
    requires 42 <= mbx && k < Count(|frame|, mbx) && 1 <= |frame| <= MaxFrame
    ensures FragsFrom(frame, mbx, base, 0)[k] == FragAt(frame, mbx, base, k)
  {
    CountBound(|frame|, mbx);
    FragsFromAt(frame, mbx, base, 0, k, k);
    assert k / 256 == 0;
  }

  /** The stream is the fragments named by Tags. */
  lemma {:induction false} StreamTags(frames: seq<seq<byte>>, mbx: nat)
    requires 42 <= mbx && ValidFrames(frames)
    ensures |Stream(frames, mbx)| == |Tags(frames, mbx)|
    ensures forall p | 0 <= p < |Tags(frames, mbx)| ::
              && ValidTag(frames, mbx, Tags(frames, mbx)[p])
              && Stream(frames, mbx)[p] == FragOf(frames, mbx, Tags(frames, mbx)[p])
  {
    TagsOrdered(frames, mbx);
    if frames != [] {
      var n := |frames| - 1;
      var rest, f := frames[..n], frames[n];
      StreamTags(rest, mbx);
      BaseIsOrdinal(rest, mbx);
      var head, tail := Tags(rest, mbx), FragsFrom(f, mbx, n + 1, 0);
      var tags, stream := Tags(frames, mbx), Stream(frames, mbx);
      assert stream == Stream(rest, mbx) + tail;
      forall p | 0 <= p < |tags|
        ensures stream[p] == FragOf(frames, mbx, tags[p])
      {
        if p < |head| {
          assert tags[p] == head[p] && stream[p] == FragOf(rest, mbx, head[p]);
        } else {
          assert tags[p] == Tag(n, p - |head|);
          ShortFrame(f, mbx, n + 1, p - |head|);
        }
      }
    }
  }

  /**
   End to end. The sender takes frames of at most 2016 bytes over any run of calls; the channel
   loses any of its fragments, leaving those at the places pos. Every delivery is one of the
   frames taken, whole, in order and at most once; with buffers always available the frames
   delivered are exactly those that arrived whole.
   */
  lemma EndToEnd(es: seq<TxEvent>, mbx: nat, pos: seq<nat>, allocs: seq<bool>, buf0: bool)
    returns (d: seq<nat>, picks: seq<Tag>)
    requires 42 <= mbx && ValidFrames(Taken(es, mbx))
    requires StrictlyIncreasing(pos) && |allocs| == |pos|
    requires forall j | 0 <= j < |pos| :: pos[j] < |TxRun(es, mbx).1| && pos[j] < |Tags(Taken(es, mbx), mbx)|
    requires forall j | 0 < j < |pos| ::
               Tags(Taken(es, mbx), mbx)[pos[j]].frame - Tags(Taken(es, mbx), mbx)[pos[j - 1]].frame < 16
    ensures picks == seq(|pos|, j requires 0 <= j < |pos| => Tags(Taken(es, mbx), mbx)[pos[j]])
    ensures var fs := seq(|pos|, j requires 0 <= j < |pos| => TxRun(es, mbx).1[pos[j]]);
            StrictlyIncreasing(d) && Delivers(Taken(es, mbx), RxRun(fs, allocs, buf0).1, d)
    ensures forall i | i in d :: 0 <= i < |Taken(es, mbx)| && Arrived(Taken(es, mbx), mbx, picks, i)
    ensures buf0 && AllTrue(allocs) ==>
              forall i | 0 <= i < |Taken(es, mbx)| :: i in d <==> Arrived(Taken(es, mbx), mbx, picks, i)
  {
    var frames, tags, out := Taken(es, mbx), Tags(Taken(es, mbx), mbx), TxRun(es, mbx).1;
    SenderConserves(es, mbx);
    StreamTags(frames, mbx);
    TagsOrdered(frames, mbx);
    picks := seq(|pos|, j requires 0 <= j < |pos| => tags[pos[j]]);
    PickedFromWire(frames, mbx, out, pos, picks);
    d := LossyChannel(frames, mbx, picks, allocs, buf0);
  }

  /** What is picked of the fragments sent is what the tags picked stand for. */
  lemma PickedFromWire(frames: seq<seq<byte>>, mbx: nat, out: seq<Fragment>, pos: seq<nat>, picks: seq<Tag>)
    requires 42 <= mbx && ValidFrames(frames) && out <= Stream(frames, mbx)
    requires forall j | 0 <= j < |pos| :: pos[j] < |out| && pos[j] < |Tags(frames, mbx)|
    requires picks == seq(|pos|, j requires 0 <= j < |pos| => Tags(frames, mbx)[pos[j]])
    requires forall p | 0 <= p < |Tags(frames, mbx)| :: ValidTag(frames, mbx, Tags(frames, mbx)[p])
    requires Stream(frames, mbx) == Wire(frames, mbx, Tags(frames, mbx))
    ensures seq(|pos|, j requires 0 <= j < |pos| => out[pos[j]]) == Wire(frames, mbx, picks)
  {
  }

  /** The whole stream is a reception of all tags. */
  lemma WholeStream(frames: seq<seq<byte>>, mbx: nat)
    requires 42 <= mbx && ValidFrames(frames)
    ensures Received(frames, mbx, Tags(frames, mbx)) && Stream(frames, mbx) == Wire(frames, mbx, Tags(frames, mbx))
    ensures |Stream(frames, mbx)| == |Tags(frames, mbx)|
    ensures forall i | 0 <= i < |frames| :: Arrived(frames, mbx, Tags(frames, mbx), i)
  {
    StreamTags(frames, mbx);
    TagsOrdered(frames, mbx);
    NeighboursClose(frames, mbx);
    forall i | 0 <= i < |frames| ensures Arrived(frames, mbx, Tags(frames, mbx), i) {
      AllTagged(frames, mbx, i);
    }
  }

  /** Without loss, and with buffers always available, exactly the frames sent are delivered. */
  lemma Lossless(frames: seq<seq<byte>>, mbx: nat, allocs: seq<bool>)
    requires 42 <= mbx && ValidFrames(frames) && |allocs| == |Stream(frames, mbx)| && AllTrue(allocs)
    ensures var out := RxRun(Stream(frames, mbx), allocs, true).1;
            |out| == |frames| && forall i | 0 <= i < |frames| :: IsWhole(out[i], frames[i])
  {
    WholeStream(frames, mbx);
    var d := LossyChannel(frames, mbx, Tags(frames, mbx), allocs, true);
    AllNumbers(d, |frames|);
  }

  lemma {:induction false} AllTagged(frames: seq<seq<byte>>, mbx: nat, i: nat)
    requires 42 <= mbx && i < |frames|
    ensures Arrived(frames, mbx, Tags(frames, mbx), i)
  {
    var n := |frames| - 1;
    if i < n {
      AllTagged(frames[..n], mbx, i);
    } else {
      var tail := seq(Count(|frames[n]|, mbx), k requires 0 <= k => Tag(n, k));
      forall k: nat | k <= Count(|frames[n]|, mbx) - 1 ensures Tag(n, k) in Tags(frames, mbx) {
        assert tail[k] == Tag(n, k);
      }
    }
  }

  /** Neighbours in the stream are at most one frame apart. */
  lemma {:induction false} NeighboursClose(frames: seq<seq<byte>>, mbx: nat)
    requires 42 <= mbx
    ensures var tags := Tags(frames, mbx);
            && (tags != [] <==> frames != [])
            && (tags != [] ==> tags[|tags| - 1].frame == |frames| - 1)
            && forall p | 0 < p < |tags| :: tags[p].frame - tags[p - 1].frame <= 1
  {
    if frames != [] {
      NeighboursClose(frames[..|frames| - 1], mbx);
    }
  }

  /** A strictly increasing sequence that holds exactly the numbers below n lists them. */
  lemma {:induction false} AllNumbers(d: seq<nat>, n: nat)
    requires StrictlyIncreasing(d)
    requires forall i | i in d :: 0 <= i < n
    requires forall i | 0 <= i < n :: i in d
    ensures |d| == n && forall i | 0 <= i < n :: d[i] == i
  {
    assert d != [] ==> d[0] in d;
    if n > 0 {
      var m := |d| - 1;
      assert n - 1 in d;
      assert d[m] in d;
      assert d[m] == n - 1;
      assert d == d[..m] + [n - 1];
      forall i | 0 <= i < n - 1 ensures i in d[..m] {
        assert i in d;
      }
      AllNumbers(d[..m], n - 1);
    }
  }

  /** A single frame comes through exactly when it is no longer than 2016 bytes. */
  lemma DeliverableIff(frame: seq<byte>, mbx: nat, allocs: seq<bool>)
    requires 42 <= mbx && 1 <= |frame| && |allocs| == |Stream([frame], mbx)| && AllTrue(allocs)
    ensures (exists r :: r in RxRun(Stream([frame], mbx), allocs, true).1 && r.bytes == frame) <==> |frame| <= MaxFrame
  {
    NeverOversize(Stream([frame], mbx), allocs, true);
    if |frame| <= MaxFrame {
      Lossless([frame], mbx, allocs);
      var out := RxRun(Stream([frame], mbx), allocs, true).1;
      assert out[0] in out && [frame][0] == frame && IsWhole(out[0], [frame][0]);
    }
  }

  /** Whatever arrives, no delivery is longer than the size field can announce. */
  lemma {:induction false} NeverOversize(fs: seq<Fragment>, allocs: seq<bool>, buf0: bool)
    requires |allocs| == |fs|
    ensures forall r | r in RxRun(fs, allocs, buf0).1 :: |r.bytes| <= MaxFrame
  {
    if fs != [] {
      var n := |fs| - 1;
      NeverOversize(fs[..n], allocs[..n], buf0);
    }
  }
}
