/**
 Services between the segments of a transfer. ESCvar.frags and ESCvar.fragsleft count the bytes of a
 segmented transfer, and the fragments of the list of objects too; an upload of one message stores its
 size there as well. What that does to the transfer it comes between.
 */
module Interleaving {
  import opened Base
  import opened Dictionary
  import opened PdoMap
  import opened SdoSpec
  import opened CaSpec
  import opened CaTransferSpec
  import L = SdoLaws
  import O = OdListSpec
  import OL = OdListLaws

  /** The indexes of the dictionary, the size of the send mailbox, and the room for data in a buffer. */
  datatype Link = Link(idx: seq<u16>, sml: u16, mbx: nat)

  predicate ValidLink(k: Link) {
    k.sml >= 16 && 0 < |k.idx| < 0x1_0000 && k.mbx > HeaderSize
  }

  // ---------------------------------------------------------------- a list of objects in between

  /** A request for the number of objects (kind 0) or for all of them (kind 1), with the turns that find
      a buffer or not until it is answered in full. */
  datatype Query = Query(kind: u16, claims: seq<bool>)

  /** The list variables after the query; what they are before it does not matter. */
  function Listing(k: Link, q: Query): O.Listing
    requires ValidLink(k)
  {
    var none := O.Listing(false, 0, 0, 0);
    if q.kind == 1 then OL.Run(none, k.idx, k.sml, q.claims).0 else O.Start(none, k.idx, k.sml, q.kind, true).0
  }

  /** Mailbox 0 takes no other request before the last fragment is out. */
  predicate Answered(k: Link, q: Query)
    requires ValidLink(k)
  {
    q.kind <= 1 && !Listing(k, q).active
  }

  /** The transfer after a query that came in between. */
  function Listed(t: Sdo, k: Link, q: Query): Sdo
    requires ValidLink(k)
  {
    t.(frags := Listing(k, q).frags, fragsLeft := Listing(k, q).fragsLeft)
  }

  /** The fragments of the list. */
  function Count(k: Link): nat
    requires ValidLink(k)
  {
    O.Fragments(k.sml, |k.idx|)
  }

  /** A count of the objects leaves the last fragment to send, a list of them none. */
  lemma ListedFields(t: Sdo, k: Link, q: Query)
    requires ValidLink(k) && Answered(k, q)
    ensures Count(k) > 0
    ensures Listed(t, k, q) == t.(frags := Count(k), fragsLeft := if q.kind == 0 then Count(k) - 1 else 0)
  {
    OL.SomeFragments(k.sml, |k.idx|);
    if q.kind == 1 {
      OL.ListLaw(O.Listing(false, 0, 0, 0), k.idx, k.sml, q.claims);
    }
  }

  // ---------------------------------------------------------------- an upload that is interrupted

  /** What the segments of an upload add to what was sent before. */
  lemma {:induction false} SegmentsAppend(u: (Sdo, seq<Msg>), content: seq<Octet>, mbx: nat, rs: seq<L.Request>)
    requires mbx > HeaderSize && u.0.mode == Uploading && u.0.fragsLeft < u.0.frags == |content|
    ensures var v := L.Segments(u, content, mbx, rs);
            if v.0.mode == Uploading then
              && u.0.fragsLeft <= v.0.fragsLeft < v.0.frags == |content|
              && L.Concat(v.1) == L.Concat(u.1) + content[u.0.fragsLeft..v.0.fragsLeft]
            else L.Concat(v.1) == L.Concat(u.1) + content[u.0.fragsLeft..]
  {
    if rs != [] {
      var n := |rs| - 1;
      SegmentsAppend(u, content, mbx, rs[..n]);
      var b := L.Segments(u, content, mbx, rs[..n]);
      if b.0.mode == Uploading && rs[n].claimed {
        OneMore(b, u.0.fragsLeft, L.Concat(u.1), content, rs[n].toggle, mbx);
      }
    }
  }

  lemma OneMore(b: (Sdo, seq<Msg>), from: nat, sent: seq<Octet>, content: seq<Octet>, toggle: bool, mbx: nat)
    requires mbx > HeaderSize && b.0.mode == Uploading && from <= b.0.fragsLeft < b.0.frags == |content|
    requires L.Concat(b.1) == sent + content[from..b.0.fragsLeft]
    ensures var v := NextSegment(b.0, content, toggle, mbx, 0);
            if v.0.mode == Uploading then
              && from <= v.0.fragsLeft < v.0.frags == |content|
              && L.Concat(b.1 + [v.1]) == sent + content[from..v.0.fragsLeft]
            else L.Concat(b.1 + [v.1]) == sent + content[from..]
  {
    var v := NextSegment(b.0, content, toggle, mbx, 0);
    L.SegmentProper(b.0, content, toggle, mbx);
    SegmentKeepsSize(b.0, content, toggle, mbx);
    if v.0.mode == Uploading {
      Appended(b.1, v.1, sent, content, from, b.0.fragsLeft, v.0.fragsLeft);
    } else {
      UpToTheEnd(content, from);
      UpToTheEnd(content, b.0.fragsLeft);
      Appended(b.1, v.1, sent, content, from, b.0.fragsLeft, |content|);
    }
  }

  lemma UpToTheEnd(content: seq<Octet>, from: nat)
    requires from <= |content|
    ensures content[from..] == content[from..|content|]
  {
  }

  lemma Appended(ms: seq<Msg>, m: Msg, sent: seq<Octet>, content: seq<Octet>, from: nat, mid: nat, to: nat)
    requires from <= mid <= to <= |content|
    requires L.Concat(ms) == sent + content[from..mid] && L.Data(m) == content[mid..to]
    ensures L.Concat(ms + [m]) == sent + content[from..to]
  {
    L.ConcatSnoc(ms, m);
    Joined(sent, content, from, mid, to);
  }

  lemma SegmentKeepsSize(s: Sdo, content: seq<Octet>, toggle: bool, mbx: nat)
    requires mbx > HeaderSize && s.mode == Uploading && s.fragsLeft < s.frags == |content|
    ensures var t := NextSegment(s, content, toggle, mbx, 0).0;
            t.mode == Uploading ==> t.fragsLeft < t.frags == |content|
  {
  }

  lemma Joined(sent: seq<Octet>, content: seq<Octet>, from: nat, mid: nat, to: nat)
    requires from <= mid <= to <= |content|
    ensures sent + content[from..mid] + content[mid..to] == sent + content[from..to]
  {
    assert content[from..mid] + content[mid..to] == content[from..to];
  }

  /** An upload is over after as many answered requests as there are bytes left, at the latest. */
  lemma {:induction false} SegmentsEnd(u: (Sdo, seq<Msg>), content: seq<Octet>, mbx: nat, rs: seq<L.Request>)
    requires mbx > HeaderSize && u.0.mode == Uploading && u.0.fragsLeft < u.0.frags == |content|
    requires forall i | 0 <= i < |rs| :: rs[i].claimed
    ensures var v := L.Segments(u, content, mbx, rs);
            v.0.mode == Uploading ==> u.0.fragsLeft + |rs| <= v.0.fragsLeft
  {
    if rs != [] {
      var n := |rs| - 1;
      SegmentsEnd(u, content, mbx, rs[..n]);
      var b := L.Segments(u, content, mbx, rs[..n]);
      if b.0.mode == Uploading {
        L.SegmentProper(b.0, content, rs[n].toggle, mbx);
      }
    }
  }

  /** Where an upload goes on after a query: at the last of as many bytes as the list has fragments, or
      at the first. */
  function Resumes(k: Link, q: Query): nat
    requires ValidLink(k) && Count(k) > 0
  {
    if q.kind == 0 then Count(k) - 1 else 0
  }

  /** An upload that goes on behind a query, out of what lies from ESCvar.data on. */
  function Behind(s: Sdo, ms: seq<Msg>, memory: seq<Octet>, k: Link, q: Query, rs: seq<L.Request>): (Sdo, seq<Msg>)
    requires ValidLink(k) && Answered(k, q) && s.mode == Uploading && 0 < Count(k) <= |memory|
  {
    ListedFields(s, k, q);
    L.Segments((Listed(s, k, q), ms), memory[..Count(k)], k.mbx, rs)
  }

  /** What it sends: the bytes from the new position to the new size. */
  lemma SentBehind(s: Sdo, ms: seq<Msg>, memory: seq<Octet>, k: Link, q: Query, rs: seq<L.Request>)
    requires ValidLink(k) && Answered(k, q) && s.mode == Uploading && 0 < Count(k) <= |memory|
    ensures var v := Behind(s, ms, memory, k, q, rs);
            && (v.0.mode == NoSegments ==> L.Concat(v.1) == L.Concat(ms) + memory[Resumes(k, q)..Count(k)])
            && (|rs| >= Count(k) && (forall i | 0 <= i < |rs| :: rs[i].claimed) ==> v.0.mode == NoSegments)
  {
    ListedFields(s, k, q);
    var t := Listed(s, k, q);
    SegmentsAppend((t, ms), memory[..Count(k)], k.mbx, rs);
    assert memory[..Count(k)][Resumes(k, q)..] == memory[Resumes(k, q)..Count(k)];
    if forall i | 0 <= i < |rs| :: rs[i].claimed {
      SegmentsEnd((t, ms), memory[..Count(k)], k.mbx, rs);
    }
  }

  /**
   An upload with a query in its middle. The query leaves the number n of fragments of the list, and
   n - 1 or 0, where the upload keeps its size and its position: after a count of the objects byte n - 1
   of the entry is sent and the upload is over, after a list of them the first n bytes are. So what was
   sent is the entry exactly when as many bytes were left, and they are the same.
   */
  lemma InterruptedIff(s: Sdo, ms: seq<Msg>, content: seq<Octet>, memory: seq<Octet>, k: Link, q: Query,
                       rs: seq<L.Request>)
    requires ValidLink(k) && Answered(k, q) && 0 < Count(k) <= |memory| && content <= memory
    requires L.Uploaded(ms, s, content, k.mbx) && s.mode == Uploading
    ensures var v := Behind(s, ms, memory, k, q, rs);
            v.0.mode == NoSegments ==>
              (L.Concat(v.1) == content
               <==> && s.fragsLeft + (Count(k) - Resumes(k, q)) == |content|
                    && memory[Resumes(k, q)..Count(k)] == content[s.fragsLeft..])
  {
    SentBehind(s, ms, memory, k, q, rs);
    CompletesIff(content, s.fragsLeft, memory[Resumes(k, q)..Count(k)]);
  }

  lemma CompletesIff(content: seq<Octet>, n: nat, rest: seq<Octet>)
    requires n <= |content|
    ensures content[..n] + rest == content <==> n + |rest| == |content| && rest == content[n..]
  {
    assert content[..n] + content[n..] == content;
    if content[..n] + rest == content {
      assert rest == (content[..n] + rest)[n..];
    }
  }

  // ---------------------------------------------------------------- a Complete Access download in between

  /** What reaches the server between the first message of a segmented Complete Access download and its
      end: a segment; a query; an upload of an entry that one message answers; a Complete Access
      upload; a download of an entry in one message. */
  datatype Event =
    | Part(m: Msg)
    | List(q: Query)
    | Entry(r: Ref, bits: nat, value: seq<Octet>)
    | Object(b: Access)
    | Store(r: Ref, dtype: u16, m: Msg)

  predicate Fits(s: Ca, e: Event, k: Link)
    requires ValidLink(k)
  {
    match e
    case Part(m) => SegmentInBuffer(s, m)
    case List(q) => Answered(k, q)
    case Entry(_, bits, value) =>
      |value| == Bytes(bits) < 0x1_0000_0000 && (|value| <= 4 || |value| + HeaderSize <= k.mbx)
    case Object(b) => Movable(b) && Holds(b, s.content) && Total(b) <= 0xFFFF_FFF8
    case Store(r, dtype, m) =>
      && r in s.content && WellFormed(m, dtype, |s.content[r]|)
      && (DownloadSize(m) <= 4 || DownloadSize(m) <= |m.data|)
  }

  /** The steps are those of the handlers; the object of the download is that of access a. */
  function Next(s: Ca, a: Access, e: Event, k: Link): (t: Ca)
    requires InOrEnd(a, a.obj.maxsub + 1) && ValidLink(k) && Fits(s, e, k)
    ensures |t.buffer| == |s.buffer|
  {
    match e
    case Part(m) => TakeCaSegment(s, a, m, 0).state
    case List(q) => s.(transfer := Listed(s.transfer, k, q))
    case Entry(r, bits, value) => s.(transfer := StartUpload(s.transfer, r, bits, value, k.mbx, 0, 0).0)
    case Object(b) => Start(s, b, k.mbx, 0, 0).0
    case Store(r, dtype, m) =>
      var d := StartDownload(s.transfer, r, dtype, s.content[r], m, 0, 0);
      s.(transfer := d.sdo, content := s.content[r := d.content])
  }

  /** The segment that moves the buffer into the dictionary. */
  predicate Ends(s: Ca, e: Event) {
    e.Part? && LastSegment(e.m) && Complete(s, e.m)
  }

  /** The states of a download that has not ended. */
  ghost predicate Goes(ss: seq<Ca>, a: Access, es: seq<Event>, k: Link)
    requires InOrEnd(a, a.obj.maxsub + 1) && ValidLink(k)
  {
    && |ss| == |es| + 1
    && forall i | 0 <= i < |es| :: GoesAt(ss[i], ss[i + 1], a, es[i], k)
  }

  predicate GoesAt(s: Ca, t: Ca, a: Access, e: Event, k: Link)
    requires InOrEnd(a, a.obj.maxsub + 1) && ValidLink(k)
  {
    Fits(s, e, k) && !Ends(s, e) && t == Next(s, a, e, k)
  }

  lemma GoesSplit(ss: seq<Ca>, a: Access, es: seq<Event>, k: Link, n: nat)
    requires InOrEnd(a, a.obj.maxsub + 1) && ValidLink(k) && Goes(ss, a, es, k) && |es| == n + 1
    ensures Goes(ss[..n + 1], a, es[..n], k) && GoesAt(ss[n], ss[n + 1], a, es[n], k)
  {
    forall i | 0 <= i < n ensures GoesAt(ss[..n + 1][i], ss[..n + 1][i + 1], a, es[..n][i], k) {
      assert GoesAt(ss[i], ss[i + 1], a, es[i], k);
    }
  }

  lemma GoesOn(ss: seq<Ca>, a: Access, es: seq<Event>, k: Link, e: Event, t: Ca)
    requires InOrEnd(a, a.obj.maxsub + 1) && ValidLink(k) && Goes(ss, a, es, k) && GoesAt(ss[|es|], t, a, e, k)
    ensures Goes(ss + [t], a, es + [e], k)
  {
    var tt, ee := ss + [t], es + [e];
    forall i | 0 <= i < |ee| ensures GoesAt(tt[i], tt[i + 1], a, ee[i], k) {
      if i < |es| {
        assert GoesAt(ss[i], ss[i + 1], a, es[i], k);
      }
    }
  }

  // ---------------------------------------------------------------- no entry changes before the end

  lemma StepKeeps(s: Ca, a: Access, e: Event, k: Link, r: Ref)
    requires InOrEnd(a, a.obj.maxsub + 1) && ValidLink(k) && Fits(s, e, k) && !Ends(s, e)
    requires r in s.content && (e.Store? ==> e.r != r)
    ensures r in Next(s, a, e, k).content && Next(s, a, e, k).content[r] == s.content[r]
  {
  }

  /** Whatever comes in between, the download changes no entry before the segment that ends it; that
      one moves as many bytes of the buffer as frags then says. */
  lemma {:induction false} ChangesNothing(ss: seq<Ca>, a: Access, es: seq<Event>, k: Link, r: Ref)
    requires InOrEnd(a, a.obj.maxsub + 1) && ValidLink(k) && Goes(ss, a, es, k)
    requires r in ss[0].content && forall i | 0 <= i < |es| :: es[i].Store? ==> es[i].r != r
    ensures r in ss[|es|].content && ss[|es|].content[r] == ss[0].content[r]
  {
    if es != [] {
      var n := |es| - 1;
      GoesSplit(ss, a, es, k, n);
      ChangesNothing(ss[..n + 1], a, es[..n], k, r);
      StepKeeps(ss[n], a, es[n], k, r);
    }
  }

  // ---------------------------------------------------------------- when all announced bytes have come

  /** The bytes that came, when first came with the first message. */
  function Came(first: nat, es: seq<Event>): nat {
    if es == [] then first else Came(first, es[..|es| - 1]) + Brings(es[|es| - 1])
  }

  function Brings(e: Event): nat {
    if e.Part? && e.m.Segment? && !LastSegment(e.m) then |e.m.data| else 0
  }

  /** What a service that is not a segment leaves in frags, and in fragsleft if it touches that. */
  datatype Trace = Trace(frags: nat, left: Option<nat>)

  function TraceOf(s: Ca, e: Event, k: Link): Option<Trace>
    requires ValidLink(k) && Fits(s, e, k)
  {
    match e
    case List(q) =>
      ListedFields(s.transfer, k, q);
      Some(Trace(Count(k), Some(Resumes(k, q))))
    case Entry(_, _, value) => if |value| > 4 then Some(Trace(|value|, None)) else None
    case Object(b) =>
      var size := Bytes(Total(b));
      if Start(s, b, k.mbx, 0, 0).1.Abort? || size <= 4 || size + HeaderSize <= k.mbx then None
      else Some(Trace(size, Some(k.mbx - HeaderSize)))
    case _ => None
  }

  lemma TraceLeft(s: Ca, a: Access, e: Event, k: Link)
    requires InOrEnd(a, a.obj.maxsub + 1) && ValidLink(k) && Fits(s, e, k) && !e.Part?
    ensures var t, x := Next(s, a, e, k).transfer, TraceOf(s, e, k);
            && t.frags == (if x.Some? then x.value.frags else s.transfer.frags)
            && t.fragsLeft == (if x.Some? && x.value.left.Some? then x.value.left.value else s.transfer.fragsLeft)
            && (t.at == s.transfer.at || t.at == 0)
  {
    if e.List? {
      ListedFields(s.transfer, k, e.q);
    }
  }

  lemma SegmentCounts(s: Ca, a: Access, m: Msg, k: Link)
    requires InOrEnd(a, a.obj.maxsub + 1) && ValidLink(k) && Fits(s, Part(m), k) && !Ends(s, Part(m))
    ensures var t := Next(s, a, Part(m), k).transfer;
            && t.frags == s.transfer.frags && t.fragsLeft == s.transfer.fragsLeft + Brings(Part(m))
            && t.at == s.transfer.at + Brings(Part(m))
  {
  }

  /** No service in between leaves a trace, or only this one. */
  ghost predicate Leaves(ss: seq<Ca>, a: Access, es: seq<Event>, k: Link, x: Option<Trace>)
    requires InOrEnd(a, a.obj.maxsub + 1) && ValidLink(k) && Goes(ss, a, es, k)
  {
    forall i | 0 <= i < |es| :: LeavesAt(ss, a, es, k, x, i)
  }

  ghost predicate LeavesAt(ss: seq<Ca>, a: Access, es: seq<Event>, k: Link, x: Option<Trace>, i: nat)
    requires InOrEnd(a, a.obj.maxsub + 1) && ValidLink(k) && Goes(ss, a, es, k) && i < |es|
  {
    assert GoesAt(ss[i], ss[i + 1], a, es[i], k);
    TraceOf(ss[i], es[i], k) == None || TraceOf(ss[i], es[i], k) == x
  }

  /** With services that leave this trace in between, as often as one likes, a download of n bytes ends
      only when all of them have come. */
  ghost predicate EndsWhole(s: Ca, a: Access, n: nat, k: Link, x: Option<Trace>)
    requires InOrEnd(a, a.obj.maxsub + 1) && ValidLink(k)
  {
    forall ss: seq<Ca>, es: seq<Event>, m: Msg |
      Goes(ss, a, es, k) && ss[0] == s && Leaves(ss, a, es, k, x) && EndsWith(ss[|es|], m, k) ::
      n <= Came(s.transfer.fragsLeft, es) + Length(m)
  }

  predicate EndsWith(s: Ca, m: Msg, k: Link)
    requires ValidLink(k)
  {
    Fits(s, Part(m), k) && Ends(s, Part(m))
  }

  function Length(m: Msg): nat { |L.Data(m)| }

  /** The trace announces no fewer bytes than are missing after the first message. */
  predicate Harmless(x: Option<Trace>, first: nat, n: nat) {
    match x
    case None => true
    case Some(Trace(frags, None)) => n <= frags
    case Some(Trace(frags, Some(left))) => n - first <= Max(0, frags - left)
  }

  /** What keeps a download whole: no more bytes are missing than the counters tell. */
  predicate Counts(t: Sdo, came: nat, first: nat, n: nat, x: Option<Trace>) {
    && first <= came && n - came <= Max(0, t.frags - t.fragsLeft)
    && (x == None ==> t.frags == n) && (x == None || x.value.left.None? ==> t.fragsLeft == came)
  }

  lemma CountsStep(s: Ca, a: Access, e: Event, k: Link, came: nat, first: nat, n: nat, x: Option<Trace>)
    requires InOrEnd(a, a.obj.maxsub + 1) && ValidLink(k) && Fits(s, e, k) && !Ends(s, e)
    requires TraceOf(s, e, k) == None || TraceOf(s, e, k) == x
    requires Counts(s.transfer, came, first, n, x) && Harmless(x, first, n)
    ensures Counts(Next(s, a, e, k).transfer, came + Brings(e), first, n, x)
  {
    if e.Part? {
      SegmentCounts(s, a, e.m, k);
    } else {
      TraceLeft(s, a, e, k);
    }
  }

  lemma {:induction false} CountsRun(ss: seq<Ca>, a: Access, es: seq<Event>, k: Link, n: nat, x: Option<Trace>)
    requires InOrEnd(a, a.obj.maxsub + 1) && ValidLink(k) && Goes(ss, a, es, k) && Leaves(ss, a, es, k, x)
    requires ss[0].transfer.frags == n && Harmless(x, ss[0].transfer.fragsLeft, n)
    ensures var first := ss[0].transfer.fragsLeft;
            Counts(ss[|es|].transfer, Came(first, es), first, n, x)
  {
    if es != [] {
      var i := |es| - 1;
      GoesSplit(ss, a, es, k, i);
      LeavesSplit(ss, a, es, k, i, x);
      CountsRun(ss[..i + 1], a, es[..i], k, n, x);
      var first := ss[0].transfer.fragsLeft;
      CountsStep(ss[i], a, es[i], k, Came(first, es[..i]), first, n, x);
    }
  }

  lemma LeavesSplit(ss: seq<Ca>, a: Access, es: seq<Event>, k: Link, n: nat, x: Option<Trace>)
    requires InOrEnd(a, a.obj.maxsub + 1) && ValidLink(k) && Goes(ss, a, es, k) && |es| == n + 1
    requires Goes(ss[..n + 1], a, es[..n], k) && Leaves(ss, a, es, k, x) && Fits(ss[n], es[n], k)
    ensures Leaves(ss[..n + 1], a, es[..n], k, x)
    ensures TraceOf(ss[n], es[n], k) == None || TraceOf(ss[n], es[n], k) == x
  {
    assert LeavesAt(ss, a, es, k, x, n);
    var tt, ee := ss[..n + 1], es[..n];
    forall i | 0 <= i < n ensures LeavesAt(tt, a, ee, k, x, i) {
      assert LeavesAt(ss, a, es, k, x, i);
    }
  }

  /**
   Atomicity. As long as no service in between leaves a trace, a download of n bytes ends exactly with a
   last segment by which all n have come. Before that it changes no entry, whatever comes in between,
   other downloads excepted; a last segment that comes too early changes none either. The one that ends
   it moves n bytes of the buffer into the dictionary.
   */
  lemma Atomic(ss: seq<Ca>, a: Access, es: seq<Event>, k: Link, n: nat, m: Msg, r: Ref)
    requires InOrEnd(a, a.obj.maxsub + 1) && ValidLink(k) && Goes(ss, a, es, k) && Leaves(ss, a, es, k, None)
    requires ss[0].transfer.frags == n > ss[0].transfer.fragsLeft && Fits(ss[|es|], Part(m), k)
    requires r in ss[0].content && forall i | 0 <= i < |es| :: es[i].Store? ==> es[i].r != r
    ensures var s := ss[|es|];
            && (Ends(s, Part(m)) <==> LastSegment(m) && n <= Came(ss[0].transfer.fragsLeft, es) + Length(m))
            && r in s.content && s.content[r] == ss[0].content[r]
            && Next(s, a, Part(m), k).content
               == (if Ends(s, Part(m)) then Download(a, s.content, Placed(s.buffer, s.transfer.at, m.data), n)
                   else s.content)
            && (Ends(s, Part(m)) ==> Next(s, a, Part(m), k).transfer.mode == NoSegments)
  {
    ChangesNothing(ss, a, es, k, r);
    CountsRun(ss, a, es, k, n, None);
  }

  // ---------------------------------------------------------------- what the buffer gathers

  /** The bytes of the segments, in order. */
  function Gathered(got: seq<Octet>, es: seq<Event>): seq<Octet> {
    if es == [] then got
    else
      var e := es[|es| - 1];
      Gathered(got, es[..|es| - 1]) + if Brings(e) > 0 then e.m.data else []
  }

  /** A Complete Access upload that is answered puts its own image into the buffer. */
  predicate Overwrites(s: Ca, e: Event, k: Link)
    requires ValidLink(k) && Fits(s, e, k)
  {
    e.Object? && !Start(s, e.b, k.mbx, 0, 0).1.Abort?
  }

  ghost predicate OverwrittenAt(ss: seq<Ca>, a: Access, es: seq<Event>, k: Link, i: nat)
    requires InOrEnd(a, a.obj.maxsub + 1) && ValidLink(k) && Goes(ss, a, es, k) && i < |es|
  {
    assert GoesAt(ss[i], ss[i + 1], a, es[i], k);
    Overwrites(ss[i], es[i], k)
  }

  /** The buffer holds these bytes up to the place of the next ones. */
  predicate HoldsUpTo(s: Ca, got: seq<Octet>) {
    s.transfer.at == |got| <= |s.buffer| && s.buffer[..|got|] == got
  }

  lemma GathersStep(s: Ca, a: Access, e: Event, k: Link, got: seq<Octet>)
    requires InOrEnd(a, a.obj.maxsub + 1) && ValidLink(k) && Fits(s, e, k) && !Ends(s, e) && !Overwrites(s, e, k)
    requires HoldsUpTo(s, got)
    ensures HoldsUpTo(Next(s, a, e, k), got + if Brings(e) > 0 then e.m.data else [])
  {
    if e.Part? {
      SegmentCounts(s, a, e.m, k);
      PlacedBehind(s.buffer, got, e.m.data);
    }
    assert got + [] == got;
  }

  lemma PlacedBehind(buffer: seq<Octet>, got: seq<Octet>, data: seq<Octet>)
    requires |got| + |data| <= |buffer| && buffer[..|got|] == got
    ensures var b := Placed(buffer, |got|, data); b[..|got|] == got && b[..|got + data|] == got + data
  {
  }

  /** What the download moves into the dictionary are the bytes it was sent, in order, whatever comes in
      between, as long as no Complete Access upload is answered. */
  lemma {:induction false} Gathers(ss: seq<Ca>, a: Access, es: seq<Event>, k: Link, got: seq<Octet>)
    requires InOrEnd(a, a.obj.maxsub + 1) && ValidLink(k) && Goes(ss, a, es, k) && HoldsUpTo(ss[0], got)
    requires forall i | 0 <= i < |es| :: !OverwrittenAt(ss, a, es, k, i)
    ensures HoldsUpTo(ss[|es|], Gathered(got, es))
  {
    if es != [] {
      var n := |es| - 1;
      GoesSplit(ss, a, es, k, n);
      var tt, ee := ss[..n + 1], es[..n];
      forall i | 0 <= i < n ensures !OverwrittenAt(tt, a, ee, k, i) {
        assert !OverwrittenAt(ss, a, es, k, i);
      }
      Gathers(tt, a, ee, k, got);
      assert !OverwrittenAt(ss, a, es, k, n);
      GathersStep(ss[n], a, es[n], k, Gathered(got, ee));
    }
  }

  // ---------------------------------------------------------------- how a download ends too early

  /** A segment of one byte, and an empty last one. */
  function OneByte(last: bool): Msg { Segment(10, if last then 13 else 12, [ZeroOctet()]) }

  function NoByte(): Msg { Segment(10, 15, []) }

  /** A session of the service in question and j segments of one byte. */
  lemma {:induction false} Early(s: Ca, a: Access, k: Link, e: Event, x: Option<Trace>, j: nat)
    returns (ss: seq<Ca>, es: seq<Event>)
    requires InOrEnd(a, a.obj.maxsub + 1) && ValidLink(k) && Fits(s, e, k) && !e.Part? && TraceOf(s, e, k) == x
    requires s.transfer.at + j <= |s.buffer|
    ensures Goes(ss, a, es, k) && ss[0] == s && Leaves(ss, a, es, k, x)
            && Came(s.transfer.fragsLeft, es) == s.transfer.fragsLeft + j
    ensures var t, u := ss[|es|], Next(s, a, e, k);
            && t.transfer.frags == u.transfer.frags && t.transfer.fragsLeft == u.transfer.fragsLeft + j
            && t.transfer.at == u.transfer.at + j && |t.buffer| == |s.buffer|
    decreases j
  {
    var first := s.transfer.fragsLeft;
    if j == 0 {
      ss, es := [s, Next(s, a, e, k)], [e];
      assert GoesAt(s, ss[1], a, e, k);
      assert es[..0] == [] && Came(first, es) == Came(first, es[..0]) + Brings(e);
    } else {
      var ss0, es0 := Early(s, a, k, e, x, j - 1);
      TraceLeft(s, a, e, k);
      var t, b := ss0[|es0|], Part(OneByte(false));
      ByteFits(t, a, k);
      var u := Next(t, a, b, k);
      GoesOn(ss0, a, es0, k, b, u);
      ss, es := ss0 + [u], es0 + [b];
      LeavesOn(ss0, a, es0, k, b, u, x);
      CameOn(first, es0, b);
    }
  }

  /** One more byte arrives. */
  lemma ByteFits(t: Ca, a: Access, k: Link)
    requires InOrEnd(a, a.obj.maxsub + 1) && ValidLink(k) && t.transfer.at < |t.buffer|
    ensures var b := Part(OneByte(false));
            && Fits(t, b, k) && !Ends(t, b) && Brings(b) == 1 && TraceOf(t, b, k) == None
            && var u := Next(t, a, b, k);
               && |u.buffer| == |t.buffer| && u.transfer.frags == t.transfer.frags
               && u.transfer.fragsLeft == t.transfer.fragsLeft + 1 && u.transfer.at == t.transfer.at + 1
  {
    SegmentCounts(t, a, OneByte(false), k);
  }

  lemma CameOn(first: nat, es: seq<Event>, e: Event)
    ensures Came(first, es + [e]) == Came(first, es) + Brings(e)
  {
    assert (es + [e])[..|es|] == es;
  }

  lemma LeavesOn(ss: seq<Ca>, a: Access, es: seq<Event>, k: Link, e: Event, t: Ca, x: Option<Trace>)
    requires InOrEnd(a, a.obj.maxsub + 1) && ValidLink(k) && Goes(ss, a, es, k) && Leaves(ss, a, es, k, x)
    requires Goes(ss + [t], a, es + [e], k) && Fits(ss[|es|], e, k) && TraceOf(ss[|es|], e, k) == None
    ensures Leaves(ss + [t], a, es + [e], k, x)
  {
    var tt, ee := ss + [t], es + [e];
    forall i | 0 <= i < |ee| ensures LeavesAt(tt, a, ee, k, x, i) {
      if i < |es| {
        assert LeavesAt(ss, a, es, k, x, i);
      }
    }
  }

  /** A service that is not harmless: after it as many bytes as the counters tell are enough. */
  lemma EndsEarly(s: Ca, a: Access, n: nat, k: Link, e: Event, x: Option<Trace>)
    requires InOrEnd(a, a.obj.maxsub + 1) && ValidLink(k) && Fits(s, e, k) && !e.Part? && TraceOf(s, e, k) == x
    requires s.transfer.at == s.transfer.fragsLeft < n <= |s.buffer|
    requires !Harmless(x, s.transfer.fragsLeft, n)
    ensures !EndsWhole(s, a, n, k, x)
  {
    var first := s.transfer.fragsLeft;
    var d := Told(s, a, e, k);
    ToldLess(s, a, n, k, e, x);
    var j := if d == 0 then 0 else d - 1;
    var ss, es := Early(s, a, k, e, x, j);
    var m := if d == 0 then NoByte() else OneByte(true);
    LastFits(ss[|es|], m, k);
    assert Came(first, es) + Length(m) == first + d;
  }

  /** The bytes that the counters tell of after a service. */
  function Told(s: Ca, a: Access, e: Event, k: Link): nat
    requires InOrEnd(a, a.obj.maxsub + 1) && ValidLink(k) && Fits(s, e, k)
  {
    Max(0, Next(s, a, e, k).transfer.frags - Next(s, a, e, k).transfer.fragsLeft)
  }

  lemma ToldLess(s: Ca, a: Access, n: nat, k: Link, e: Event, x: Option<Trace>)
    requires InOrEnd(a, a.obj.maxsub + 1) && ValidLink(k) && Fits(s, e, k) && !e.Part? && TraceOf(s, e, k) == x
    requires s.transfer.fragsLeft < n && !Harmless(x, s.transfer.fragsLeft, n)
    ensures s.transfer.fragsLeft + Told(s, a, e, k) < n
  {
    TraceLeft(s, a, e, k);
  }

  lemma LastFits(s: Ca, m: Msg, k: Link)
    requires ValidLink(k) && (m == NoByte() || m == OneByte(true)) && s.transfer.at + |m.data| <= |s.buffer|
    requires s.transfer.frags <= s.transfer.fragsLeft + |m.data|
    ensures EndsWith(s, m, k)
  {
  }

  /**
   Atomicity against other services. A Complete Access download of n bytes, whatever segments come, and
   with services in between that leave a given trace, ends only when all bytes have come, if and only if
   the trace is harmless: frags alone must not be less than n; frags and fragsleft must tell of no fewer
   bytes than the first message left.
   */
  lemma WholeIff(s: Ca, a: Access, n: nat, k: Link, e: Event, x: Option<Trace>)
    requires InOrEnd(a, a.obj.maxsub + 1) && ValidLink(k) && Fits(s, e, k) && !e.Part? && TraceOf(s, e, k) == x
    requires s.transfer.frags == n && s.transfer.at == s.transfer.fragsLeft < n <= |s.buffer|
    ensures EndsWhole(s, a, n, k, x) <==> Harmless(x, s.transfer.fragsLeft, n)
  {
    if Harmless(x, s.transfer.fragsLeft, n) {
      forall ss: seq<Ca>, es: seq<Event>, m: Msg |
        Goes(ss, a, es, k) && ss[0] == s && Leaves(ss, a, es, k, x) && EndsWith(ss[|es|], m, k)
        ensures n <= Came(s.transfer.fragsLeft, es) + Length(m)
      {
        CountsRun(ss, a, es, k, n, x);
      }
    } else {
      EndsEarly(s, a, n, k, e, x);
    }
  }

  /** What harmless means for each service: a count of the objects, if all but one byte came first; a list
      of them, if the rest is no longer than the list has fragments; an upload, if it has no fewer
      bytes. */
  lemma HarmlessMeans(s: Ca, e: Event, k: Link, n: nat)
    requires ValidLink(k) && Fits(s, e, k) && TraceOf(s, e, k).Some? && s.transfer.fragsLeft < n
    ensures var harmless, first := Harmless(TraceOf(s, e, k), s.transfer.fragsLeft, n), s.transfer.fragsLeft;
            match e
            case List(q) => harmless <==> n <= first + (if q.kind == 0 then 1 else Count(k))
            case Entry(_, _, value) => harmless <==> n <= |value|
            case Object(b) => first == k.mbx - HeaderSize ==> (harmless <==> n <= Bytes(Total(b)))
            case _ => false
  {
    if e.List? {
      ListedFields(s.transfer, k, e.q);
    }
  }
}
