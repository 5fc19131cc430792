/**
 Complete Access transfers: SDO_upload_complete_access, SDO_download_complete_access and the
 Complete Access part of SDO_downloadsegment. The image goes through a buffer, ESCvar.mbxdata.
 */
module CaTransferSpec {
  import opened Base
  import opened Dictionary
  import opened PdoMap
  import opened SdoSpec
  import opened CaSpec

  const AbortGeneral: u32 := 0x08000000  // ABORT_GENERALERROR
  const HeldBack: u32 := 0xFFFFFFFF      // ESC_SDO_PENDING
  const Spare := 30                      // PREALLOC_FACTOR * COE_HEADERSIZE

  /** The transfer in ESCvar, the object it is for, the buffer, and what the dictionary holds. */
  datatype Ca = Ca(transfer: Sdo, index: u16, subindex: u8, buffer: seq<Octet>, content: Store)

  /** Why the image of an object cannot be moved. The loop returns its abort code where a size is
      expected, so the caller rounds that code up to bytes too. */
  function SizeProblem(a: Access): Option<u32>
    requires InOrEnd(a, a.obj.maxsub + 1) && Total(a) <= 0xFFFF_FFF8
  {
    if Dynamic(a.obj) then Some(Bytes(AbortNotSupported))
    else if Bytes(Total(a)) > 0xFFFF then Some(Bytes(Total(a)))
    else None
  }

  function Unused(bits: nat): nat {
    if bits == 0 then 0 else UnusedBits(bits)
  }

  /** The transfer once the first message of an image of some size is out. */
  function Begun(t: Sdo, size: nat, mbx: nat): Sdo
    requires mbx > HeaderSize
  {
    if size > 4 && size + HeaderSize > mbx then
      t.(mode := Uploading, frags := size, fragsLeft := mbx - HeaderSize, at := 0)
    else t.(mode := NoSegments)
  }

  /** The first message of an image. */
  function First(image: seq<Octet>, dss: nat, mbx: nat): Msg
    requires mbx > HeaderSize && |image| <= 0xFFFF && (|image| <= 4 ==> 0x53 + dss <= 0xFF)
  {
    if |image| <= 4 then Expedited(0x53 + dss, image)
    else if |image| + HeaderSize > mbx then Normal(mbx, 0x51, |image|, image[..mbx - HeaderSize])
    else Normal(HeaderSize + |image|, 0x51, |image|, image)
  }

  /** The answer to an upload request, in a claimed buffer. */
  function Start(s: Ca, a: Access, mbx: nat, preCode: u32, postCode: u32): (Ca, Msg)
    requires Movable(a) && Holds(a, s.content) && Total(a) <= 0xFFFF_FFF8 && mbx > HeaderSize
  {
    var size := Bytes(Total(a));
    if SizeProblem(a).Some? then (s, Abort(SizeProblem(a).value))
    else if size + Spare > |s.buffer| then (s, Abort(AbortNotSupported))
    else if preCode != 0 then (s, Abort(preCode))
    else
      var buffer := Upload(a, s.content, s.buffer);
      var t := Begun(s.transfer, size, mbx);
      (s.(buffer := buffer, transfer := t),
       if t.mode == NoSegments && postCode != 0 then Abort(postCode) else First(buffer[..size], Unused(Total(a)), mbx))
  }

  /** A download request as it lies in the mailbox: its own data, then whatever follows. */
  predicate InMailbox(a: Access, m: Msg, rest: seq<Octet>, mbx: nat)
    requires InOrEnd(a, a.obj.maxsub + 1)
  {
    && (m.Expedited? || m.Normal?) && |m.data| == Announced(m)
    && mbx - HeaderSize <= |m.data + rest|
    && (DownloadSize(m) + HeaderSize <= mbx ==> Bytes(Total(a)) <= |m.data + rest|)
  }

  datatype Outcome = Outcome(state: Ca, reply: Msg)

  /** The outcome of a download request. */
  function Receive(s: Ca, index: u16, sub: u8, a: Access, m: Msg, rest: seq<Octet>, mbx: nat, preCode: u32,
                   postCode: u32): Outcome
    requires InOrEnd(a, a.obj.maxsub + 1) && Total(a) <= 0xFFFF_FFF8 && mbx > HeaderSize && InMailbox(a, m, rest, mbx)
  {
    var bytes := DownloadSize(m);
    if SizeProblem(a).Some? then Outcome(s, Abort(SizeProblem(a).value))
    else if bytes > Bytes(Total(a)) then Outcome(s, Abort(AbortTypeMismatch))
    else if preCode == HeldBack then Outcome(s, Abort(AbortGeneral))
    else if preCode != 0 then Outcome(s, Abort(preCode))
    else if bytes + HeaderSize > mbx then
      if bytes + Spare > |s.buffer| then Outcome(s, Abort(AbortNotSupported))
      else
        var first := mbx - HeaderSize;
        Outcome(s.(transfer := s.transfer.(mode := Downloading, frags := bytes, fragsLeft := first, at := first),
                   index := index, subindex := sub,
                   buffer := Placed(s.buffer, 0, (m.data + rest)[..first])),
                Done(0x70))
    else
      Outcome(s.(transfer := s.transfer.(mode := NoSegments), content := Download(a, s.content, m.data + rest, bytes)),
              if postCode != 0 then Abort(postCode) else Done(0x70))
  }

  /** A segment that fits the buffer. */
  predicate SegmentInBuffer(s: Ca, m: Msg) {
    m.Segment? && Announced(m) == |m.data| && s.transfer.at + |m.data| <= |s.buffer|
  }

  predicate Complete(s: Ca, m: Msg)
    requires m.Segment?
  {
    s.transfer.frags <= s.transfer.fragsLeft + |m.data|
  }

  /** The outcome of a segment. The last one moves the buffer into the dictionary, unless fewer bytes
      came than were announced. */
  function TakeCaSegment(s: Ca, a: Access, m: Msg, postCode: u32): Outcome
    requires InOrEnd(a, a.obj.maxsub + 1) && SegmentInBuffer(s, m)
  {
    var t := s.(buffer := Placed(s.buffer, s.transfer.at, m.data));
    var reply := Done(0x20 + m.command / 16 % 2 * 16);
    if !LastSegment(m) then
      Outcome(t.(transfer := s.transfer.(at := s.transfer.at + |m.data|, fragsLeft := s.transfer.fragsLeft + |m.data|)),
              reply)
    else if !Complete(s, m) then Outcome(t, Abort(AbortTypeMismatch))
    else
      Outcome(t.(content := Download(a, s.content, t.buffer, s.transfer.frags),
                 transfer := s.transfer.(mode := NoSegments, frags := 0, fragsLeft := 0)),
              if postCode != 0 then Abort(postCode) else reply)
  }
}

/** The laws of Complete Access transfers. */
module CaTransferLaws {
  import opened Base
  import opened Dictionary
  import opened PdoMap
  import opened SdoSpec
  import L = SdoLaws
  import opened CaSpec
  import opened CaLaws
  import opened CaTransferSpec

  /** What BITS2BYTES makes of the abort code for Complete Access not supported. */
  const MangledCode: u32 := 0x00C0_2001

  /**
   A string object refuses Complete Access with an abort code no standard knows, whatever the hooks
   answer: the loop's code is taken for a size in bits. Without hooks in the way, an upload is
   refused so exactly for string objects and for the one size that has this number of bytes; the
   proper code comes only for objects too large for the buffer, or by the same accident of size.
   */
  lemma StringUploadIff(s: Ca, a: Access, mbx: nat, preCode: u32, postCode: u32)
    requires Movable(a) && Holds(a, s.content) && Total(a) <= 0xFFFF_FFF8 && mbx > HeaderSize
    ensures Dynamic(a.obj) ==> Start(s, a, mbx, preCode, postCode) == (s, Abort(MangledCode))
    ensures Start(s, a, mbx, 0, 0).1 == Abort(MangledCode) <==> Dynamic(a.obj) || Bytes(Total(a)) == MangledCode
    ensures Start(s, a, mbx, 0, 0).1 == Abort(AbortNotSupported) <==>
              && !Dynamic(a.obj)
              && (if Bytes(Total(a)) <= 0xFFFF then Bytes(Total(a)) + Spare > |s.buffer|
                  else Bytes(Total(a)) == AbortNotSupported)
  {
    assert Bytes(AbortNotSupported) == MangledCode;
  }

  /** A string object: the data type of its first entry is a visible, an octet or a unicode string. */
  lemma StringObjectIff(o: Object)
    requires o.entries != []
    ensures Dynamic(o) <==> o.entries[0].datatype_ in {0x0009, 0x000A, 0x000B}
  {
  }

  /** A download to a string object is refused in the same way. */
  lemma StringDownloadIff(s: Ca, index: u16, sub: u8, a: Access, m: Msg, rest: seq<Octet>, mbx: nat, preCode: u32,
                          postCode: u32)
    requires InOrEnd(a, a.obj.maxsub + 1) && Total(a) <= 0xFFFF_FFF8 && mbx > HeaderSize && InMailbox(a, m, rest, mbx)
    ensures Dynamic(a.obj) ==>
              Receive(s, index, sub, a, m, rest, mbx, preCode, postCode) == Outcome(s, Abort(MangledCode))
    ensures Receive(s, index, sub, a, m, rest, mbx, 0, 0).reply == Abort(MangledCode) <==>
              Dynamic(a.obj) || Bytes(Total(a)) == MangledCode
  {
    assert Bytes(AbortNotSupported) == MangledCode;
  }

  /** The answer to an upload request that is not refused, and the image it starts to send. */
  lemma StartAnswers(s: Ca, a: Access, mbx: nat)
    requires Movable(a) && Holds(a, s.content) && Total(a) <= 0xFFFF_FFF8 && mbx > HeaderSize
    requires !Start(s, a, mbx, 0, 0).1.Abort?
    ensures var (t, m) := Start(s, a, mbx, 0, 0);
            var image := Upload(a, s.content, s.buffer);
            var size := Bytes(Total(a));
            && t.buffer == image && t.content == s.content && size + Spare <= |image|
            && t.transfer == Begun(s.transfer, size, mbx) && m == First(image[..size], Unused(Total(a)), mbx)
  {
  }

  /** An expedited answer announces the bytes it carries. */
  lemma ExpeditedProper(bits: nat, data: seq<Octet>, mbx: nat)
    requires 0 < bits && |data| == Bytes(bits) <= 4 && mbx > HeaderSize
    ensures L.Proper(Expedited(0x53 + Unused(bits), data), mbx)
  {
    assert (0x53 + UnusedBits(bits)) / 4 % 4 == UnusedBits(bits) / 4;
  }

  /** An upload that is not refused sends the image: the first answer is the start of a proper
      transfer of it. */
  lemma StartSends(s: Ca, a: Access, mbx: nat)
    requires Movable(a) && Holds(a, s.content) && Total(a) <= 0xFFFF_FFF8 && mbx > HeaderSize
    requires Total(a) > 0 && !Start(s, a, mbx, 0, 0).1.Abort?
    ensures var (t, m) := Start(s, a, mbx, 0, 0);
            && t.buffer == Upload(a, s.content, s.buffer) && t.content == s.content
            && Bytes(Total(a)) + Spare <= |t.buffer| && t.transfer.mode != Downloading
            && L.Uploaded([m], t.transfer, t.buffer[..Bytes(Total(a))], mbx)
  {
    var (t, m) := Start(s, a, mbx, 0, 0);
    StartAnswers(s, a, mbx);
    var size := Bytes(Total(a));
    if size <= 4 {
      ExpeditedProper(Total(a), t.buffer[..size], mbx);
    }
    OneMessage(m, t.transfer, t.buffer[..size], mbx);
  }

  lemma OneMessage(m: Msg, t: Sdo, image: seq<Octet>, mbx: nat)
    requires !m.Segment? && L.Proper(m, mbx) && t.mode != Downloading
    requires t.mode == Uploading ==> m.Normal? && t.fragsLeft < t.frags == |image| && L.Data(m) == image[..t.fragsLeft]
    requires t.mode == NoSegments ==> L.Data(m) == image
    requires m.Normal? ==> m.total == |image| > 4
    ensures L.Uploaded([m], t, image, mbx)
  {
    L.ConcatSnoc([], m);
    assert [] + [m] == [m];
  }

  // ---------------------------------------------------------------- segments in order

  /** The server that takes segments, in order. */
  function TakeAll(s: Ca, a: Access, ms: seq<Msg>): (r: Option<Ca>)
    requires InOrEnd(a, a.obj.maxsub + 1)
    ensures r.Some? ==> |r.value.buffer| == |s.buffer|
  {
    if ms == [] then Some(s)
    else
      match TakeAll(s, a, ms[..|ms| - 1])
      case None => None
      case Some(before) =>
        var m := ms[|ms| - 1];
        if before.transfer.mode == Downloading && SegmentInBuffer(before, m) then
          Some(TakeCaSegment(before, a, m, 0).state)
        else None
  }

  // ---------------------------------------------------------------- the round trip

  /** The segments of an image arrive in the buffer; the last one moves it into the dictionary. */
  ghost predicate Gathered(s: Ca, t: Ca, a: Access, got: seq<Octet>, segments: seq<Msg>)
    requires InOrEnd(a, a.obj.maxsub + 1)
  {
    var all := got + L.Concat(segments);
    && |all| <= |t.buffer| && t.buffer[..|all|] == all
    && (if segments == [] || !LastSegment(segments[|segments| - 1])
        then t.content == s.content && Receiving(t, |all|, s.transfer.frags)
        else t.transfer.mode == NoSegments
             && t.content == (if |all| >= s.transfer.frags then Download(a, s.content, t.buffer, s.transfer.frags)
                              else t.content))
  }

  predicate Receiving(t: Ca, n: nat, frags: nat) {
    t.transfer.mode == Downloading && t.transfer.at == t.transfer.fragsLeft == n && t.transfer.frags == frags
  }

  ghost predicate Segmented(segments: seq<Msg>, mbx: nat) {
    && (forall i | 0 <= i < |segments| :: segments[i].Segment? && L.Proper(segments[i], mbx))
    && (forall i | 0 <= i < |segments| - 1 :: !LastSegment(segments[i]))
  }

  lemma GatherOne(s: Ca, t: Ca, a: Access, got: seq<Octet>, segments: seq<Msg>, m: Msg, n: nat)
    requires InOrEnd(a, a.obj.maxsub + 1) && Gathered(s, t, a, got, segments)
    requires segments == [] || !LastSegment(segments[|segments| - 1])
    requires m.Segment? && Announced(m) == |m.data| && |got + L.Concat(segments + [m])| <= n <= |t.buffer|
    requires LastSegment(m) ==> |got + L.Concat(segments + [m])| == n == s.transfer.frags
    ensures SegmentInBuffer(t, m) && Gathered(s, TakeCaSegment(t, a, m, 0).state, a, got, segments + [m])
  {
    L.ConcatSnoc(segments, m);
    var before := got + L.Concat(segments);
    assert got + L.Concat(segments + [m]) == before + m.data;
    var u := TakeCaSegment(t, a, m, 0).state;
    assert u.buffer == t.buffer[..|before|] + m.data + t.buffer[|before + m.data|..];
    assert u.buffer[..|before + m.data|] == before + m.data;
  }

  lemma {:induction false} Gather(s: Ca, a: Access, got: seq<Octet>, segments: seq<Msg>, n: nat, mbx: nat)
    requires InOrEnd(a, a.obj.maxsub + 1) && Segmented(segments, mbx)
    requires Receiving(s, |got|, n) && |got| <= |s.buffer| && s.buffer[..|got|] == got
    requires |got + L.Concat(segments)| <= n <= |s.buffer|
    requires segments != [] && LastSegment(segments[|segments| - 1]) ==> |got + L.Concat(segments)| == n
    ensures TakeAll(s, a, segments).Some? && Gathered(s, TakeAll(s, a, segments).value, a, got, segments)
  {
    if segments == [] {
      assert got + L.Concat(segments) == got;
    } else {
      var k := |segments| - 1;
      var before, m := segments[..k], segments[k];
      assert segments == before + [m];
      L.ConcatSnoc(before, m);
      Gather(s, a, got, before, n, mbx);
      GatherOne(s, TakeAll(s, a, before).value, a, got, before, m, n);
    }
  }

  /** The server that takes an upload's messages as a download. */
  function Session(s: Ca, index: u16, sub: u8, a: Access, ms: seq<Msg>, rest: seq<Octet>, mbx: nat): Option<Ca>
    requires InOrEnd(a, a.obj.maxsub + 1) && Total(a) <= 0xFFFF_FFF8 && mbx > HeaderSize
    requires ms != [] && InMailbox(a, ms[0], rest, mbx)
  {
    var o := Receive(s, index, sub, a, ms[0], rest, mbx, 0, 0);
    if o.reply.Abort? then None else TakeAll(o.state, a, ms[1..])
  }

  lemma {:induction false} ConcatCons(m: Msg, ms: seq<Msg>)
    ensures L.Concat([m] + ms) == L.Data(m) + L.Concat(ms)
  {
    if ms == [] {
      L.ConcatSnoc([], m);
      assert [] + [m] == [m] + ms;
    } else {
      var rest, last := ms[..|ms| - 1], ms[|ms| - 1];
      ConcatCons(m, rest);
      assert ms == rest + [last];
      assert [m] + ms == ([m] + rest) + [last];
      L.ConcatSnoc([m] + rest, last);
      L.ConcatSnoc(rest, last);
      Associative(L.Data(m), L.Concat(rest), L.Data(last));
    }
  }

  lemma Associative(a: seq<Octet>, b: seq<Octet>, c: seq<Octet>)
    ensures (a + b) + c == a + (b + c)
  {
  }

  lemma {:induction false} SegmentsFollow(u: (Sdo, seq<Msg>), content: seq<Octet>, mbx: nat, rs: seq<L.Request>)
    requires mbx > HeaderSize && u.0.mode != Downloading
    requires u.0.mode == Uploading ==> u.0.fragsLeft < u.0.frags == |content|
    ensures u.1 <= L.Segments(u, content, mbx, rs).1
    ensures u.0.mode == NoSegments ==> L.Segments(u, content, mbx, rs) == u
  {
    if rs != [] {
      SegmentsFollow(u, content, mbx, rs[..|rs| - 1]);
    }
  }

  /** A download of all bytes reaches every entry that has bytes. */
  lemma {:induction false} StoredRest(a: Access, k: nat, content: Store, buf: seq<Octet>)
    requires Movable(a) && Holds(a, content) && InOrEnd(a, k) && Bytes(Pos(a, k)) >= Bytes(Total(a))
    ensures Stored(a, k, content, buf) == Stored(a, a.obj.maxsub + 1, content, buf)
    decreases a.obj.maxsub + 1 - k
  {
    if k <= a.obj.maxsub {
      var q := k + 1;
      NoneLeft(a, k, q);
      StoredRest(a, q, content, buf);
      EmptyStays(a, k, q, content, buf);
    }
  }

  /** Once the bytes before an entry are all there are, the entry is a bit entry or empty. */
  lemma NoneLeft(a: Access, k: nat, q: nat)
    requires Movable(a) && In(a, k) && q == k + 1 && Bytes(Pos(a, k)) >= Bytes(Total(a))
    ensures Bytes(Pos(a, q)) >= Bytes(Total(a))
    ensures ByteEntry(EntryAt(a, k)) ==> EntryAt(a, k).bitlength == 0
  {
    PosMonotone(a, k, q);
    Inside(a, k);
    PosNext(a, k);
  }

  /** An empty entry takes nothing. */
  lemma EmptyStays(a: Access, k: nat, q: nat, content: Store, buf: seq<Octet>)
    requires Movable(a) && Holds(a, content) && In(a, k) && q == k + 1
    requires ByteEntry(EntryAt(a, k)) ==> EntryAt(a, k).bitlength == 0
    ensures InOrEnd(a, q) && Stored(a, q, content, buf) == Stored(a, k, content, buf)
  {
    var now, r := Stored(a, k, content, buf), Ref(a.place, k);
    StoredEntries(a, k, content, buf, r);
    assert r in content && |content[r]| == Bytes(EntryAt(a, k).bitlength);
    if ByteEntry(EntryAt(a, k)) {
      assert Slice(buf, PlacedAt(a, k) / 8, 0) == [] == now[r];
      assert now[r := now[r]] == now;
    }
    assert Stored(a, q, content, buf) == Take(a, k, now, buf);
  }

  lemma {:induction false} StopAtEnd(a: Access, k: nat, max: nat)
    requires Movable(a) && InOrEnd(a, k) && max == Bytes(Total(a))
    ensures max > 0 ==> k <= a.obj.maxsub ==> Bytes(Pos(a, Stop(a, k, max))) >= max
    ensures max == 0 ==> Stop(a, k, max) == a.obj.maxsub + 1
    decreases a.obj.maxsub + 1 - k
  {
    if k <= a.obj.maxsub {
      StopAtEnd(a, k + 1, max);
    }
  }

  lemma TakesAll(a: Access, content: Store, buf: seq<Octet>)
    requires Movable(a) && Holds(a, content)
    ensures Download(a, content, buf, Bytes(Total(a))) == Stored(a, a.obj.maxsub + 1, content, buf)
  {
    StopAtEnd(a, a.first, Bytes(Total(a)));
    if a.first <= a.obj.maxsub && Bytes(Total(a)) > 0 {
      StoredRest(a, Stop(a, a.first, Bytes(Total(a))), content, buf);
    }
  }

  lemma SlicePrefix(x: seq<Octet>, y: seq<Octet>, n: nat, at: nat, size: nat)
    requires at + size <= n <= |x| && n <= |y| && x[..n] == y[..n]
    ensures Slice(x, at, size) == Slice(y, at, size)
  {
    assert x[at..at + size] == x[..n][at..at + size];
    assert y[at..at + size] == y[..n][at..at + size];
  }

  /** What lies behind the image in the buffer does not matter. */
  lemma {:induction false} OnlyImage(a: Access, k: nat, content: Store, x: seq<Octet>, y: seq<Octet>)
    requires Movable(a) && InOrEnd(a, k)
    requires Bytes(Total(a)) <= |x| && Bytes(Total(a)) <= |y| && x[..Bytes(Total(a))] == y[..Bytes(Total(a))]
    ensures Stored(a, k, content, x) == Stored(a, k, content, y)
    decreases k
  {
    if k > a.first {
      OnlyImage(a, k - 1, content, x, y);
      Inside(a, k - 1);
      PosNext(a, k - 1);
      if ByteEntry(EntryAt(a, k - 1)) {
        SlicePrefix(x, y, Bytes(Total(a)), PlacedAt(a, k - 1) / 8, EntryAt(a, k - 1).bitlength / 8);
      }
    }
  }

  /** An image that goes expedited passes for one that fits the mailbox. With 11..13 bytes of mailbox data
      the download takes some of them for the start of a segmented transfer. */
  predicate Roomy(a: Access, mbx: nat)
    requires InOrEnd(a, a.obj.maxsub + 1)
  {
    Bytes(Total(a)) > 4 || Bytes(Total(a)) + HeaderSize <= mbx
  }

  /** Messages that carry an image in the way a finished upload does. */
  ghost predicate CarriesImage(ms: seq<Msg>, image: seq<Octet>, mbx: nat) {
    && L.Segmentation(ms, image, mbx) && L.Concat(ms) == image
    && (|ms| > 1 ==>
          |L.Data(ms[0])| == mbx - HeaderSize && |image| + HeaderSize > mbx && LastSegment(ms[|ms| - 1]))
  }

  /** The image has been moved into the dictionary. */
  ghost predicate StoresImage(s: Ca, r: Option<Ca>, a: Access, image: seq<Octet>)
    requires Movable(a)
  {
    && r.Some? && r.value.transfer.mode == NoSegments
    && exists buf :: |image| <= |buf| && buf[..|image|] == image
                     && r.value.content == Stored(a, a.obj.maxsub + 1, s.content, buf)
  }

  /** A download request that announces the object's size and is not refused. */
  lemma ReceiveWhole(s: Ca, index: u16, sub: u8, a: Access, m: Msg, rest: seq<Octet>, mbx: nat)
    requires Movable(a) && Total(a) <= 0xFFFF_FFF8 && SizeProblem(a).None? && mbx > HeaderSize
    requires InMailbox(a, m, rest, mbx) && DownloadSize(m) == Bytes(Total(a)) && DownloadSize(m) + Spare <= |s.buffer|
    ensures var o := Receive(s, index, sub, a, m, rest, mbx, 0, 0);
            !o.reply.Abort? &&
            if DownloadSize(m) + HeaderSize > mbx then
              && |o.state.buffer| == |s.buffer| && o.state.content == s.content
              && Receiving(o.state, mbx - HeaderSize, DownloadSize(m))
              && o.state.buffer[..mbx - HeaderSize] == (m.data + rest)[..mbx - HeaderSize]
            else
              && o.state.transfer.mode == NoSegments
              && o.state.content == Download(a, s.content, m.data + rest, DownloadSize(m))
  {
  }

  /** The image in one message. */
  lemma SessionOfOne(s: Ca, index: u16, sub: u8, a: Access, m: Msg, rest: seq<Octet>, image: seq<Octet>, mbx: nat)
    requires Movable(a) && Holds(a, s.content) && Total(a) <= 0xFFFF_FFF8 && SizeProblem(a).None?
    requires mbx > HeaderSize && Roomy(a, mbx) && InMailbox(a, m, rest, mbx) && L.Proper(m, mbx)
             && DownloadSize(m) == |image|
    requires |image| == Bytes(Total(a)) && |image| + Spare <= |s.buffer| && m.data == image
    ensures StoresImage(s, Session(s, index, sub, a, [m], rest, mbx), a, image)
  {
    ReceiveWhole(s, index, sub, a, m, rest, mbx);
    var buf := m.data + rest;
    assert buf[..|image|] == image;
    TakesAll(a, s.content, buf);
    assert [m][1..] == [];
  }

  /** The image in segments. */
  lemma SessionOfMany(s: Ca, index: u16, sub: u8, a: Access, m: Msg, segments: seq<Msg>, rest: seq<Octet>,
                      image: seq<Octet>, mbx: nat)
    requires Movable(a) && Holds(a, s.content) && Total(a) <= 0xFFFF_FFF8 && SizeProblem(a).None?
    requires mbx > HeaderSize && InMailbox(a, m, rest, mbx) && DownloadSize(m) == |image|
    requires |image| == Bytes(Total(a)) && |image| + Spare <= |s.buffer| && |image| + HeaderSize > mbx
    requires Segmented(segments, mbx) && segments != [] && LastSegment(segments[|segments| - 1])
    requires |m.data| == mbx - HeaderSize && m.data + L.Concat(segments) == image
    ensures StoresImage(s, Session(s, index, sub, a, [m] + segments, rest, mbx), a, image)
  {
    ReceiveWhole(s, index, sub, a, m, rest, mbx);
    var o := Receive(s, index, sub, a, m, rest, mbx, 0, 0).state;
    assert (m.data + rest)[..mbx - HeaderSize] == m.data;
    Gather(o, a, m.data, segments, |image|, mbx);
    var t := TakeAll(o, a, segments).value;
    TakesAll(a, s.content, t.buffer);
    assert ([m] + segments)[1..] == segments;
  }

  /** A session with the messages of a finished upload of an image stores the image. */
  lemma SessionStores(s: Ca, index: u16, sub: u8, a: Access, ms: seq<Msg>, rest: seq<Octet>, image: seq<Octet>,
                      mbx: nat)
    requires Movable(a) && Holds(a, s.content) && Total(a) <= 0xFFFF_FFF8 && SizeProblem(a).None?
    requires mbx > HeaderSize && Roomy(a, mbx)
    requires |image| == Bytes(Total(a)) && |image| + Spare <= |s.buffer| && CarriesImage(ms, image, mbx)
    requires InMailbox(a, ms[0], rest, mbx)
    ensures StoresImage(s, Session(s, index, sub, a, ms, rest, mbx), a, image)
  {
    var m, segments := ms[0], ms[1..];
    assert ms == [m] + segments;
    Carried(ms, m, segments, image, mbx);
    Announces(ms, image, mbx);
    if segments == [] {
      assert [m] + segments == [m];
      SessionOfOne(s, index, sub, a, m, rest, image, mbx);
    } else {
      SessionOfMany(s, index, sub, a, m, segments, rest, image, mbx);
    }
  }

  /** The first message and the segments of an image. */
  lemma Carried(ms: seq<Msg>, m: Msg, segments: seq<Msg>, image: seq<Octet>, mbx: nat)
    requires CarriesImage(ms, image, mbx) && ms == [m] + segments && !m.Abort? && !m.Done?
    ensures m.data + L.Concat(segments) == image && (segments == [] ==> m.data == image)
    ensures segments != [] ==> |m.data| == mbx - HeaderSize && |image| + HeaderSize > mbx
                               && LastSegment(segments[|segments| - 1])
  {
    ConcatCons(m, segments);
    assert segments == [] ==> m.data + L.Concat(segments) == m.data;
    assert segments != [] ==> ms[|ms| - 1] == segments[|segments| - 1];
  }

  lemma Announces(ms: seq<Msg>, image: seq<Octet>, mbx: nat)
    requires L.Segmentation(ms, image, mbx) && |image| <= 0xFFFF
    ensures L.Proper(ms[0], mbx) && (ms[0].Expedited? || ms[0].Normal?) && DownloadSize(ms[0]) == |image|
    ensures Segmented(ms[1..], mbx)
  {
    var segments := ms[1..];
    assert forall i | 0 <= i < |segments| :: segments[i] == ms[i + 1];
  }

  /** An upload of an object: the first answer, then the segments. */
  function UploadAll(s: Ca, a: Access, mbx: nat, rs: seq<L.Request>): (Sdo, seq<Msg>)
    requires Movable(a) && Holds(a, s.content) && Total(a) <= 0xFFFF_FFF8 && mbx > HeaderSize && Total(a) > 0
  {
    var (t, m) := Start(s, a, mbx, 0, 0);
    if m.Abort? then (t.transfer, [m])
    else
      StartSends(s, a, mbx);
      L.Segments((t.transfer, [m]), t.buffer[..Bytes(Total(a))], mbx, rs)
  }

  /** What a finished upload sends. */
  lemma UploadedAll(s: Ca, a: Access, mbx: nat, rs: seq<L.Request>)
    requires Movable(a) && Holds(a, s.content) && Total(a) <= 0xFFFF_FFF8 && mbx > HeaderSize && Total(a) > 0
    requires !Start(s, a, mbx, 0, 0).1.Abort? && UploadAll(s, a, mbx, rs).0.mode == NoSegments
    ensures var ms := UploadAll(s, a, mbx, rs).1;
            var size := Bytes(Total(a));
            && size + Spare <= |s.buffer| && SizeProblem(a).None?
            && CarriesImage(ms, Upload(a, s.content, s.buffer)[..size], mbx)
  {
    var (t, m) := Start(s, a, mbx, 0, 0);
    StartSends(s, a, mbx);
    var image := t.buffer[..Bytes(Total(a))];
    L.SegmentsLaw((t.transfer, [m]), image, mbx, rs);
    SegmentsFollow((t.transfer, [m]), image, mbx, rs);
    assert UploadAll(s, a, mbx, rs).1[0] == m;
  }

  lemma SessionStoresAll(s: Ca, index: u16, sub: u8, a: Access, ms: seq<Msg>, rest: seq<Octet>, full: seq<Octet>,
                         mbx: nat)
    requires Movable(a) && Holds(a, s.content) && Total(a) <= 0xFFFF_FFF8 && SizeProblem(a).None?
    requires mbx > HeaderSize && Roomy(a, mbx)
    requires |full| == |s.buffer| && Bytes(Total(a)) + Spare <= |full|
    requires CarriesImage(ms, full[..Bytes(Total(a))], mbx) && InMailbox(a, ms[0], rest, mbx)
    ensures var r := Session(s, index, sub, a, ms, rest, mbx);
            r.Some? && r.value.transfer.mode == NoSegments
            && r.value.content == Stored(a, a.obj.maxsub + 1, s.content, full)
  {
    var image := full[..Bytes(Total(a))];
    SessionStores(s, index, sub, a, ms, rest, image, mbx);
    var r := Session(s, index, sub, a, ms, rest, mbx);
    var buf :| |image| <= |buf| && buf[..|image|] == image
               && r.value.content == Stored(a, a.obj.maxsub + 1, s.content, buf);
    OnlyImage(a, a.obj.maxsub + 1, s.content, buf, full);
  }

  /** A session with messages that carry the image of an upload. */
  lemma SessionRoundTrip(upA: Access, was: Store, stale: seq<Octet>, ms: seq<Msg>, down: Ca, index: u16, sub: u8,
                         downA: Access, rest: seq<Octet>, mbx: nat, r: Ref)
    requires Movable(upA) && Holds(upA, was) && SameObject(upA, downA) && Holds(downA, down.content)
             && r in down.content
    requires Total(downA) == Total(upA) <= 0xFFFF_FFF8 && SizeProblem(downA).None?
    requires mbx > HeaderSize && Roomy(downA, mbx)
    requires |stale| == |down.buffer| && Bytes(Total(upA)) + Spare <= |stale|
    requires CarriesImage(ms, Upload(upA, was, stale)[..Bytes(Total(upA))], mbx) && InMailbox(downA, ms[0], rest, mbx)
    ensures Restores(Session(down, index, sub, downA, ms, rest, mbx), true, upA, downA, was, down.content, r)
  {
    SessionStoresAll(down, index, sub, downA, ms, rest, Upload(upA, was, stale), mbx);
    RoundTrip(upA, downA, was, stale, down.content, r);
  }

  /** How a session ends: done, with every byte entry in range that may be written holding what the upload
      sent and every other entry what it held; or, if it cannot be done, open and with nothing changed. */
  predicate Restores(e: Option<Ca>, done: bool, upA: Access, downA: Access, was: Store, now: Store, r: Ref)
    requires Holds(upA, was) && SameObject(upA, downA) && r in now
  {
    && e.Some? && (e.value.transfer.mode == NoSegments <==> done) && r in e.value.content
    && e.value.content[r]
       == (if done && r.obj == downA.place && In(downA, r.entry) && ByteEntry(EntryAt(downA, r.entry))
              && Writable(downA, r.entry)
           then Sent(upA, r.entry, was) else now[r])
  }

  /** Either way a session with the messages of an upload can end. */
  lemma SessionEnds(upA: Access, was: Store, stale: seq<Octet>, ms: seq<Msg>, down: Ca, index: u16, sub: u8,
                    downA: Access, rest: seq<Octet>, mbx: nat, r: Ref)
    requires Movable(upA) && Holds(upA, was) && SameObject(upA, downA) && Holds(downA, down.content)
             && r in down.content
    requires Total(downA) == Total(upA) <= 0xFFFF_FFF8 && SizeProblem(downA).None? && mbx > HeaderSize
    requires |stale| == |down.buffer| && Bytes(Total(upA)) + Spare <= |stale|
    requires CarriesImage(ms, Upload(upA, was, stale)[..Bytes(Total(upA))], mbx) && InMailbox(downA, ms[0], rest, mbx)
    ensures Restores(Session(down, index, sub, downA, ms, rest, mbx), Roomy(upA, mbx), upA, downA, was, down.content, r)
  {
    if Roomy(downA, mbx) {
      SessionRoundTrip(upA, was, stale, ms, down, index, sub, downA, rest, mbx, r);
    } else {
      SessionUnfinished(upA, was, stale, ms, down, index, sub, downA, rest, mbx);
    }
  }

  /** An expedited image that is taken for the start of a segmented transfer is never stored. */
  lemma SessionStaysOpen(s: Ca, index: u16, sub: u8, a: Access, ms: seq<Msg>, rest: seq<Octet>, image: seq<Octet>,
                         mbx: nat)
    requires Movable(a) && Total(a) <= 0xFFFF_FFF8 && SizeProblem(a).None? && mbx > HeaderSize && !Roomy(a, mbx)
    requires |image| == Bytes(Total(a)) && |image| + Spare <= |s.buffer| && CarriesImage(ms, image, mbx)
    requires InMailbox(a, ms[0], rest, mbx)
    ensures var r := Session(s, index, sub, a, ms, rest, mbx);
            r.Some? && r.value.transfer.mode == Downloading && r.value.content == s.content
  {
    Announces(ms, image, mbx);
    ReceiveWhole(s, index, sub, a, ms[0], rest, mbx);
    assert ms[0].Expedited?;
    assert ms[1..] == [];
  }

  lemma SessionUnfinished(upA: Access, was: Store, stale: seq<Octet>, ms: seq<Msg>, down: Ca, index: u16, sub: u8,
                          downA: Access, rest: seq<Octet>, mbx: nat)
    requires Movable(upA) && Holds(upA, was) && SameObject(upA, downA) && Movable(downA)
    requires Total(downA) == Total(upA) <= 0xFFFF_FFF8 && SizeProblem(downA).None?
    requires mbx > HeaderSize && !Roomy(downA, mbx)
    requires |stale| == |down.buffer| && Bytes(Total(upA)) + Spare <= |stale|
    requires CarriesImage(ms, Upload(upA, was, stale)[..Bytes(Total(upA))], mbx) && InMailbox(downA, ms[0], rest, mbx)
    ensures var e := Session(down, index, sub, downA, ms, rest, mbx);
            e.Some? && e.value.transfer.mode == Downloading && e.value.content == down.content
  {
    SessionStaysOpen(down, index, sub, downA, ms, rest, Upload(upA, was, stale)[..Bytes(Total(upA))], mbx);
  }

  /**
   The whole round trip over the mailbox. The messages of a finished Complete Access upload, whatever
   segment requests went unanswered, taken as a Complete Access download of the same object: every
   byte entry in range that may be written then takes what the upload read, which is zeros where it
   could not read; every other entry of the dictionary, bit entries among them, keeps what it holds.
   The transfer ends like this exactly if the image is longer than 4 bytes or fits the mailbox as a
   normal download would; else it stays open and nothing is stored.
   */
  lemma TransferRoundTrip(up: Ca, upA: Access, rs: seq<L.Request>, ms: seq<Msg>, down: Ca, index: u16, sub: u8,
                          downA: Access, rest: seq<Octet>, mbx: nat, r: Ref)
    requires Movable(upA) && Holds(upA, up.content) && 0 < Total(upA) <= 0xFFFF_FFF8 && mbx > HeaderSize
    requires SameObject(upA, downA) && Holds(downA, down.content) && |down.buffer| == |up.buffer|
    requires !Start(up, upA, mbx, 0, 0).1.Abort?
    requires UploadAll(up, upA, mbx, rs).0.mode == NoSegments && ms == UploadAll(up, upA, mbx, rs).1
    requires ms != [] && InMailbox(downA, ms[0], rest, mbx) && r in down.content
    ensures Total(downA) == Total(upA)
    ensures Restores(Session(down, index, sub, downA, ms, rest, mbx), Roomy(upA, mbx), upA, downA, up.content,
                     down.content, r)
  {
    SameTotal(upA, downA);
    UploadedAll(up, upA, mbx, rs);
    SessionEnds(upA, up.content, up.buffer, ms, down, index, sub, downA, rest, mbx, r);
  }
}
