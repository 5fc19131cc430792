/**
 SDO upload and download of single entries (section 5.6 of ETG.1000.6, section 7.2.4 of CiA 301):
 expedited, normal and segmented, as SDO_upload, SDO_uploadsegment, SDO_download and
 SDO_downloadsegment code them.
 */
module SdoSpec {
  import opened Base
  import opened Dictionary
  import opened PdoMap

  const AbortUnsupported: u32 := 0x06010000
  const AbortWriteOnly: u32 := 0x06010001
  const AbortReadOnly: u32 := 0x06010002
  const AbortNoObject: u32 := 0x06020000
  const AbortTypeMismatch: u32 := 0x06070010
  const AbortNoSubindex: u32 := 0x06090011
  const AbortNotInThisState: u32 := 0x08000022

  const VisibleString: u16 := 0x0009
  const HeaderSize := 10          // COE_HEADERSIZE
  const SegmentHeaderSize := 3    // COE_SEGMENTHEADERSIZE

  datatype Mode = NoSegments | Uploading | Downloading

  /** The segmented transfer in ESCvar: frags, fragsleft, segmented, and the place data points to. */
  datatype Sdo = Sdo(mode: Mode, frags: nat, fragsLeft: nat, target: Ref, at: nat)

  /** A message as the master reads or writes it: the mailbox header's length, the command byte, and
      the data bytes it carries. */
  datatype Msg =
    | Expedited(command: u8, data: seq<Octet>)
    | Normal(length: nat, command: u8, total: u32, data: seq<Octet>)
    | Segment(length: nat, command: u8, data: seq<Octet>)
    | Abort(code: u32)
    | Done(command: u8)

  function Bytes(bits: nat): nat { (bits + 7) / 8 }

  /** The number of data bytes a message announces by its length and command alone. */
  function Announced(m: Msg): int {
    match m
    case Expedited(command, _) => 4 - command / 4 % 4
    case Normal(length, _, _, _) => length - HeaderSize
    case Segment(length, command, _) =>
      if length - SegmentHeaderSize == 7 then 7 - command / 2 % 8 else length - SegmentHeaderSize
    case _ => 0
  }

  /** The room a message takes in the mailbox, which is mbx bytes without its header. */
  function Room(m: Msg): nat {
    match m
    case Normal(length, _, _, _) => length
    case Segment(length, _, _) => length
    case _ => HeaderSize
  }

  predicate LastSegment(m: Msg) {
    m.Segment? && m.command % 2 == 1
  }

  /** READ_ACCESS and WRITE_ACCESS: whether the entry's flags allow the access in this AL state. */
  predicate ReadAccess(flags: u16, alState: nat) {
    (flags % 2 == 1 && alState == 2) || (flags / 2 % 2 == 1 && alState == 4) || (flags / 4 % 2 == 1 && alState == 8)
  }

  predicate WriteAccess(flags: u16, alState: nat) {
    || (flags / 8 % 2 == 1 && alState == 2)
    || (flags / 16 % 2 == 1 && alState == 4)
    || (flags / 32 % 2 == 1 && alState == 8)
  }

  // ---------------------------------------------------------------- upload

  /** The expedited bits for an entry of some bits. */
  function UnusedBits(bits: nat): nat {
    if bits > 24 then 0x00 else if bits > 16 then 0x04 else if bits > 8 then 0x08 else 0x0C
  }

  /** The answer to an upload request for an entry with the given content; codes of the application
      hooks come in as parameters. */
  function StartUpload(s: Sdo, r: Ref, bits: nat, content: seq<Octet>, mbx: nat, preCode: u32, postCode: u32)
    : (Sdo, Msg)
    requires |content| == Bytes(bits) && mbx > HeaderSize && |content| < 0x1_0000_0000
  {
    var size := |content|;
    if preCode != 0 then (s, Abort(preCode))
    else if size <= 4 then
      (s, if s.mode == NoSegments && postCode != 0 then Abort(postCode)
          else Expedited(0x43 + UnusedBits(bits), content))
    else if size + HeaderSize > mbx then
      var first := mbx - HeaderSize;
      (Sdo(Uploading, size, first, r, 0), Normal(HeaderSize + first, 0x41, size, content[..first]))
    else
      (s.(mode := NoSegments, frags := size),
       if postCode != 0 then Abort(postCode) else Normal(HeaderSize + size, 0x41, size, content))
  }

  /** The answer to a request for the next segment. */
  function NextSegment(s: Sdo, content: seq<Octet>, toggle: bool, mbx: nat, postCode: u32): (Sdo, Msg)
    requires s.mode == Uploading && s.fragsLeft <= s.frags <= |content| && mbx > HeaderSize
  {
    var size := s.frags - s.fragsLeft;
    var command := if toggle then 0x10 else 0x00;
    if size + SegmentHeaderSize > mbx then
      var part := mbx - SegmentHeaderSize;
      (s.(fragsLeft := s.fragsLeft + part),
       Segment(mbx, command, content[s.fragsLeft..s.fragsLeft + part]))
    else
      (s.(mode := NoSegments, frags := 0, fragsLeft := 0),
       if postCode != 0 then Abort(postCode)
       else if size >= 7 then Segment(SegmentHeaderSize + size, command + 1, content[s.fragsLeft..s.frags])
       else Segment(HeaderSize, command + 1 + 2 * (7 - size), content[s.fragsLeft..s.frags]))
  }

  // ---------------------------------------------------------------- download

  /** What the server takes of an entry's new content when a transfer starts: the bytes in the first
      message, put at the start; a shorter visible string is padded with zeros. */
  function Placed(content: seq<Octet>, at: nat, data: seq<Octet>): seq<Octet>
    requires at + |data| <= |content|
  {
    content[..at] + data + content[at + |data|..]
  }

  predicate Flexible(dtype: u16) {
    dtype == VisibleString || dtype == 0x000A || dtype == 0x000B || (0x0260 <= dtype <= 0x0263)
  }

  /** The size a download request announces, of which the code keeps 16 bits. */
  function DownloadSize(m: Msg): nat
    requires m.Expedited? || m.Normal?
  {
    if m.Expedited? then 4 - m.command / 4 % 4 else m.total % 0x1_0000
  }

  /** A download request whose lengths agree with its data, and which a flexible entry can hold. */
  predicate WellFormed(m: Msg, dtype: u16, room: nat) {
    && (m.Expedited? || m.Normal?)
    && |m.data| == Announced(m)
    && (m.Expedited? || DownloadSize(m) <= 4 ==> DownloadSize(m) <= |m.data|)
    && (Flexible(dtype) ==> DownloadSize(m) <= room)
  }

  datatype Started = Started(sdo: Sdo, content: seq<Octet>, reply: Msg)

  /** The bytes of an accepted request are stored, and a transfer begins if there is more to come. */
  function TakeFirst(s: Sdo, r: Ref, content: seq<Octet>, m: Msg, postCode: u32): Started
    requires (m.Expedited? || m.Normal?) && Min(DownloadSize(m), |m.data|) <= |content|
    requires m.Expedited? || DownloadSize(m) <= 4 ==> DownloadSize(m) <= |m.data|
  {
    var size := DownloadSize(m);
    if size > 4 && size > |m.data| then
      Started(s.(mode := Downloading, target := r, at := |m.data|), Placed(content, 0, m.data), Done(0x60))
    else
      Started(s.(mode := NoSegments), Placed(content, 0, m.data[..size]),
              if postCode != 0 then Abort(postCode) else Done(0x60))
  }

  /** The outcome of a download request for a writable entry. */
  function StartDownload(s: Sdo, r: Ref, dtype: u16, content: seq<Octet>, m: Msg, preCode: u32, postCode: u32): Started
    requires WellFormed(m, dtype, |content|)
  {
    var size := DownloadSize(m);
    if size != |content| && !Flexible(dtype) then Started(s, content, Abort(AbortTypeMismatch))
    else
      var content := if size != |content| && dtype == VisibleString
                     then content[..size] + Zeros(|content| - size) else content;
      if preCode != 0 then Started(s, content, Abort(preCode)) else TakeFirst(s, r, content, m, postCode)
  }

  /** An upload request for an entry: it may not be readable in this AL state. */
  function UploadEntry(s: Sdo, r: Ref, flags: u16, bits: nat, content: seq<Octet>, mbx: nat, alState: nat,
                       preCode: u32, postCode: u32): (Sdo, Msg)
    requires |content| == Bytes(bits) && mbx > HeaderSize && |content| < 0x1_0000_0000
  {
    if ReadAccess(flags, alState) then StartUpload(s, r, bits, content, mbx, preCode, postCode)
    else (s, Abort(AbortWriteOnly))
  }

  /** A download request for an entry: it may not be writable in this AL state. */
  function DownloadEntry(s: Sdo, r: Ref, flags: u16, dtype: u16, content: seq<Octet>, m: Msg, alState: nat,
                         preCode: u32, postCode: u32): Started
    requires WellFormed(m, dtype, |content|)
  {
    if WriteAccess(flags, alState) then StartDownload(s, r, dtype, content, m, preCode, postCode)
    else Started(s, content, Abort(if flags % 64 == 7 then AbortReadOnly else AbortNotInThisState))
  }

  /** A segment that fits the entry under download. */
  predicate SegmentFits(s: Sdo, content: seq<Octet>, m: Msg) {
    m.Segment? && Announced(m) == |m.data| && s.at + |m.data| <= |content|
  }

  function TakeSegment(s: Sdo, content: seq<Octet>, m: Msg, postCode: u32): Started
    requires SegmentFits(s, content, m)
  {
    var stored := Placed(content, s.at, m.data);
    if LastSegment(m) then
      Started(s.(mode := NoSegments, frags := 0, fragsLeft := 0), stored,
              if postCode != 0 then Abort(postCode) else Done(0x20 + m.command / 16 % 2 * 16))
    else
      Started(s.(at := s.at + |m.data|, fragsLeft := s.fragsLeft + |m.data|), stored,
              Done(0x20 + m.command / 16 % 2 * 16))
  }
}

/** The laws of a transfer. */
module SdoLaws {
  import opened Base
  import opened PdoMap
  import opened SdoSpec

  function Concat(ms: seq<Msg>): seq<Octet> {
    if ms == [] then [] else Concat(ms[..|ms| - 1]) + Data(ms[|ms| - 1])
  }

  function Data(m: Msg): seq<Octet> {
    match m
    case Expedited(_, data) => data
    case Normal(_, _, _, data) => data
    case Segment(_, _, data) => data
    case _ => []
  }

  /** A request for a segment: its toggle bit, and whether a mailbox buffer is free for the answer. */
  datatype Request = Request(toggle: bool, claimed: bool)

  /** The segments of a transfer under way: one for each request that found a buffer; once the last
      segment is out, requests for more are not answered. */
  function Segments(u: (Sdo, seq<Msg>), content: seq<Octet>, mbx: nat, rs: seq<Request>): (v: (Sdo, seq<Msg>))
    requires mbx > HeaderSize && u.0.mode != Downloading
    requires u.0.mode == Uploading ==> u.0.fragsLeft < u.0.frags == |content|
    ensures v.0.mode == Uploading ==> v.0.fragsLeft < v.0.frags == |content|
    ensures v.0.mode != Downloading
  {
    if rs == [] then u
    else
      var before := Segments(u, content, mbx, rs[..|rs| - 1]);
      var q := rs[|rs| - 1];
      if before.0.mode == NoSegments || !q.claimed then before
      else
        var next := NextSegment(before.0, content, q.toggle, mbx, 0);
        (next.0, before.1 + [next.1])
  }

  /** No transfer is open, or the upload of an entry replaces it. */
  predicate Replaces(s: Sdo, content: seq<Octet>) {
    s.mode == NoSegments || |content| > 4
  }

  /** An upload: the answer to the request, then the segments. */
  function Upload(s: Sdo, r: Ref, bits: nat, content: seq<Octet>, mbx: nat, rs: seq<Request>): (Sdo, seq<Msg>)
    requires |content| == Bytes(bits) && mbx > HeaderSize && |content| < 0x1_0000_0000
    requires Replaces(s, content)
  {
    var start := StartUpload(s, r, bits, content, mbx, 0, 0);
    Segments((start.0, [start.1]), content, mbx, rs)
  }

  /** A message that announces the bytes it carries and fits the mailbox. */
  predicate Proper(m: Msg, mbx: nat) {
    (m.Expedited? || m.Normal? || m.Segment?) && Announced(m) == |m.data| && Room(m) <= mbx
  }

  lemma StartProper(s: Sdo, r: Ref, bits: nat, content: seq<Octet>, mbx: nat)
    requires |content| == Bytes(bits) && mbx > HeaderSize && |content| < 0x1_0000_0000
    requires Replaces(s, content) && bits > 0
    ensures var (t, m) := StartUpload(s, r, bits, content, mbx, 0, 0);
            && Proper(m, mbx) && !m.Segment?
            && (t.mode == Uploading ==> Data(m) == content[..t.fragsLeft] && |content| > 4)
            && (t.mode != Uploading ==> t.mode == NoSegments && Data(m) == content)
            && (m.Normal? ==> m.total == |content| > 4)
  {
    var (t, m) := StartUpload(s, r, bits, content, mbx, 0, 0);
    if |content| <= 4 {
      assert (0x43 + UnusedBits(bits)) / 4 % 4 == UnusedBits(bits) / 4;
    }
  }

  lemma SegmentProper(s: Sdo, content: seq<Octet>, toggle: bool, mbx: nat)
    requires s.mode == Uploading && s.fragsLeft < s.frags == |content| && mbx > HeaderSize
    ensures var (t, m) := NextSegment(s, content, toggle, mbx, 0);
            && Proper(m, mbx) && m.Segment?
            && (LastSegment(m) <==> t.mode != Uploading)
            && (t.mode == Uploading ==> s.fragsLeft < t.fragsLeft && Data(m) == content[s.fragsLeft..t.fragsLeft])
            && (t.mode != Uploading ==> t.mode == NoSegments && Data(m) == content[s.fragsLeft..])
            && m.command / 16 % 2 == (if toggle then 1 else 0)
  {
    var size := s.frags - s.fragsLeft;
    var c := if toggle then 0x10 else 0x00;
    assert content[s.fragsLeft..s.frags] == content[s.fragsLeft..];
    if size < 7 {
      ShortCommand(c, size);
    }
  }

  /** The command of a last segment of fewer than 7 bytes: the bytes that are not used, and the toggle bit. */
  lemma ShortCommand(c: nat, size: nat)
    requires (c == 0x10 || c == 0x00) && 0 < size < 7
    ensures var command := c + 1 + 2 * (7 - size);
            command / 2 % 8 == 7 - size && command % 2 == 1 && command / 16 % 2 == (if c == 0x10 then 1 else 0)
  {
  }

  lemma ConcatSnoc(ms: seq<Msg>, m: Msg)
    ensures Concat(ms + [m]) == Concat(ms) + Data(m)
  {
    assert (ms + [m])[..|ms|] == ms;
  }

  /** The messages of an upload so far: each announces the bytes it carries and fits the mailbox;
      together they are a prefix of the entry, all of it once the transfer is over; and the
      last-segment bit is set exactly in the message that ends a segmented transfer. */
  ghost predicate Uploaded(ms: seq<Msg>, t: Sdo, content: seq<Octet>, mbx: nat) {
    && Segmentation(ms, content, mbx)
    && (t.mode == Uploading ==> t.fragsLeft < t.frags == |content| && Concat(ms) == content[..t.fragsLeft])
    && (t.mode != Uploading ==> Concat(ms) == content)
    && (t.mode == Uploading ==> ms[0].Normal? && !LastSegment(ms[|ms| - 1]))
    && (t.mode != Uploading ==> |ms| == 1 || LastSegment(ms[|ms| - 1]))
  }

  /** One first message, then segments, of which at most the last has the last-segment bit. */
  ghost predicate Segmentation(ms: seq<Msg>, content: seq<Octet>, mbx: nat) {
    && ms != [] && !ms[0].Segment? && (forall i | 1 <= i < |ms| :: ms[i].Segment?)
    && (forall i | 0 <= i < |ms| :: Proper(ms[i], mbx))
    && (forall i | 0 <= i < |ms| - 1 :: !LastSegment(ms[i]))
    && (ms[0].Normal? ==> ms[0].total == |content| > 4)
    && (ms[0].Expedited? ==> |ms| == 1 && Data(ms[0]) == content)
    && (|ms| > 1 ==> |Data(ms[0])| < |content|)
  }

  /** One more segment behind messages of which none is a last segment. */
  lemma SegmentationSnoc(ms: seq<Msg>, m: Msg, content: seq<Octet>, mbx: nat)
    requires Segmentation(ms, content, mbx) && ms[0].Normal? && !LastSegment(ms[|ms| - 1])
    requires m.Segment? && Proper(m, mbx) && |Data(ms[0])| < |content|
    ensures Segmentation(ms + [m], content, mbx)
  {
    var all := ms + [m];
    assert all[|ms|] == m;
    assert forall i | 0 <= i < |ms| :: all[i] == ms[i];
  }

  lemma SegmentExtends(ms: seq<Msg>, t: Sdo, content: seq<Octet>, toggle: bool, mbx: nat)
    requires Uploaded(ms, t, content, mbx) && t.mode == Uploading && mbx > HeaderSize
    ensures var (t', m) := NextSegment(t, content, toggle, mbx, 0);
            Uploaded(ms + [m], t', content, mbx)
  {
    SegmentProper(t, content, toggle, mbx);
    var (t', m) := NextSegment(t, content, toggle, mbx, 0);
    FirstShort(ms, content, t.fragsLeft);
    SegmentationSnoc(ms, m, content, mbx);
    assert (ms + [m])[|ms|] == m && (ms + [m])[0] == ms[0];
    if t'.mode == Uploading {
      AdvancesBy(ms, m, content, t.fragsLeft, t'.fragsLeft);
    } else {
      assert content[t.fragsLeft..] == content[t.fragsLeft..|content|] && content == content[..|content|];
      AdvancesBy(ms, m, content, t.fragsLeft, |content|);
    }
  }

  /** One more piece of the entry. */
  lemma AdvancesBy(ms: seq<Msg>, m: Msg, content: seq<Octet>, from: nat, to: nat)
    requires from <= to <= |content| && Concat(ms) == content[..from] && Data(m) == content[from..to]
    ensures Concat(ms + [m]) == content[..to]
  {
    ConcatSnoc(ms, m);
    assert content[..from] + content[from..to] == content[..to];
  }

  /** The first message is no longer than all of them. */
  lemma {:induction false} FirstShort(ms: seq<Msg>, content: seq<Octet>, n: nat)
    requires ms != [] && |Concat(ms)| <= n
    ensures |Data(ms[0])| <= n
  {
    if |ms| > 1 {
      assert ms[..|ms| - 1][0] == ms[0];
      FirstShort(ms[..|ms| - 1], content, n);
    }
  }

  lemma {:induction false} SegmentsLaw(u: (Sdo, seq<Msg>), content: seq<Octet>, mbx: nat, rs: seq<Request>)
    requires mbx > HeaderSize && u.0.mode != Downloading && Uploaded(u.1, u.0, content, mbx)
    ensures var v := Segments(u, content, mbx, rs); Uploaded(v.1, v.0, content, mbx)
  {
    if rs != [] {
      var n := |rs| - 1;
      SegmentsLaw(u, content, mbx, rs[..n]);
      var (t, ms) := Segments(u, content, mbx, rs[..n]);
      if t.mode == Uploading && rs[n].claimed {
        SegmentExtends(ms, t, content, rs[n].toggle, mbx);
      }
    }
  }

  /** Every upload, whatever the sizes of entry and mailbox, and whichever segment requests find no
      buffer, sends the entry, if and only if it has a bit: an empty one is answered with a message that
      announces a byte. */
  lemma UploadLaw(s: Sdo, r: Ref, bits: nat, content: seq<Octet>, mbx: nat, rs: seq<Request>)
    requires |content| == Bytes(bits) && mbx > HeaderSize && |content| < 0x1_0000_0000
    requires Replaces(s, content)
    ensures var u := Upload(s, r, bits, content, mbx, rs); Uploaded(u.1, u.0, content, mbx) <==> bits > 0
  {
    var start := StartUpload(s, r, bits, content, mbx, 0, 0);
    if bits > 0 {
      StartProper(s, r, bits, content, mbx);
      FirstUploaded(start.0, start.1, content, mbx);
      SegmentsLaw((start.0, [start.1]), content, mbx, rs);
    } else {
      NoneFollow((start.0, [start.1]), content, mbx, rs);
      assert !Proper(start.1, mbx);
    }
  }

  /** Once a transfer is over, no segment request is answered. */
  lemma {:induction false} NoneFollow(u: (Sdo, seq<Msg>), content: seq<Octet>, mbx: nat, rs: seq<Request>)
    requires mbx > HeaderSize && u.0.mode == NoSegments
    ensures Segments(u, content, mbx, rs) == u
  {
    if rs != [] {
      NoneFollow(u, content, mbx, rs[..|rs| - 1]);
    }
  }

  /** The first message of an upload. */
  lemma FirstUploaded(t: Sdo, m: Msg, content: seq<Octet>, mbx: nat)
    requires Proper(m, mbx) && !m.Segment?
    requires t.mode == Uploading ==>
               t.fragsLeft < t.frags == |content| && Data(m) == content[..t.fragsLeft] && m.Normal?
    requires t.mode != Uploading ==> Data(m) == content
    requires m.Normal? ==> m.total == |content| > 4
    ensures Uploaded([m], t, content, mbx)
  {
    ConcatSnoc([], m);
    assert [] + [m] == [m];
  }

  /**
   An upload requested while a segmented transfer is still open. It is answered as always; but the old
   transfer stays open, so that the next segment request continues it, exactly for entries of at most
   4 bytes, or when the request only repeats the one that opened it.
   */
  lemma LeavesOpenIff(s: Sdo, r: Ref, bits: nat, content: seq<Octet>, mbx: nat)
    requires |content| == Bytes(bits) && mbx > HeaderSize && |content| < 0x1_0000_0000
    requires s.mode != NoSegments
    ensures var (t, m) := StartUpload(s, r, bits, content, mbx, 0, 0);
            && (t == s <==> |content| <= 4 || (|content| + HeaderSize > mbx
                                               && s == Sdo(Uploading, |content|, mbx - HeaderSize, r, 0)))
            && (s.mode == Downloading ==> (t.mode == Downloading <==> |content| <= 4))
            && (|content| <= 4 ==> m.Expedited? && m.data == content)
  {
  }

  /** How long an upload lasts: it is still going on after k answered segment requests exactly when
      the entry is longer than 4 bytes and than the first message and k full segments hold. */
  lemma {:induction false} UploadEndsIff(s: Sdo, r: Ref, bits: nat, content: seq<Octet>, mbx: nat, rs: seq<Request>)
    requires |content| == Bytes(bits) && mbx > HeaderSize && |content| < 0x1_0000_0000
    requires Replaces(s, content) && forall i | 0 <= i < |rs| :: rs[i].claimed
    ensures var t := Upload(s, r, bits, content, mbx, rs).0;
            var sent := (mbx - HeaderSize) + |rs| * (mbx - SegmentHeaderSize);
            && (t.mode == Uploading <==> |content| > 4 && |content| > sent)
            && (t.mode == Uploading ==> t.fragsLeft == sent)
  {
    if rs != [] {
      var n := |rs| - 1;
      UploadEndsIff(s, r, bits, content, mbx, rs[..n]);
      OneMore(n, mbx - SegmentHeaderSize);
      EndsNext(Upload(s, r, bits, content, mbx, rs[..n]).0, content, rs[n].toggle, mbx);
    }
  }

  lemma OneMore(n: nat, c: nat)
    ensures (n + 1) * c == n * c + c
  {
  }

  lemma EndsNext(t: Sdo, content: seq<Octet>, toggle: bool, mbx: nat)
    requires mbx > HeaderSize
    ensures t.mode == Uploading && t.fragsLeft <= t.frags == |content| ==>
              var u := NextSegment(t, content, toggle, mbx, 0).0;
              && (u.mode == Uploading <==> |content| > t.fragsLeft + (mbx - SegmentHeaderSize))
              && (u.mode == Uploading ==> u.fragsLeft == t.fragsLeft + (mbx - SegmentHeaderSize))
              && (u.mode == Uploading || u.mode == NoSegments)
  {
  }

  // ---------------------------------------------------------------- replaying an upload as a download

  /** The server that takes the messages as download requests, in order. */
  function Download(s: Sdo, r: Ref, dtype: u16, content: seq<Octet>, ms: seq<Msg>): Option<(Sdo, seq<Octet>)> {
    if ms == [] then None
    else if |ms| == 1 then
      if WellFormed(ms[0], dtype, |content|) then
        var d := StartDownload(s, r, dtype, content, ms[0], 0, 0);
        if d.reply.Abort? then None else Some((d.sdo, d.content))
      else None
    else
      match Download(s, r, dtype, content, ms[..|ms| - 1])
      case None => None
      case Some(before) =>
        var m := ms[|ms| - 1];
        if before.0.mode == Downloading && SegmentFits(before.0, before.1, m) then
          var d := TakeSegment(before.0, before.1, m, 0);
          Some((d.sdo, d.content))
        else None
  }

  lemma StartReplays(s: Sdo, r: Ref, dtype: u16, content: seq<Octet>, old_: seq<Octet>, m: Msg, mbx: nat)
    requires |old_| == |content| <= 0xFFFF && Proper(m, mbx) && !m.Segment?
    requires Data(m) <= content
    requires m.Expedited? ==> |Data(m)| == |content|
    requires m.Normal? ==> m.total == |content| > 4
    ensures WellFormed(m, dtype, |old_|)
    ensures var d := StartDownload(s, r, dtype, old_, m, 0, 0);
            && d.reply == Done(0x60) && d.content == Data(m) + old_[|Data(m)|..]
            && d.sdo == (if |Data(m)| < |content| then s.(mode := Downloading, target := r, at := |Data(m)|)
                         else s.(mode := NoSegments))
  {
    assert DownloadSize(m) == |content|;
  }

  /** The server has stored the messages so far, and knows whether there is more to come. */
  ghost predicate Replayed(d: Option<(Sdo, seq<Octet>)>, ms: seq<Msg>, content: seq<Octet>, old_: seq<Octet>)
    requires |old_| == |content| && ms != []
  {
    && d.Some? && Concat(ms) <= content && d.value.1 == Concat(ms) + old_[|Concat(ms)|..]
    && (d.value.0.mode == Downloading <==> !LastSegment(ms[|ms| - 1]) && |Data(ms[0])| < |content|)
    && (d.value.0.mode == Downloading ==> d.value.0.at == |Concat(ms)|)
  }

  /** Data placed right behind what came before. */
  lemma PlacedNext(got: seq<Octet>, old_: seq<Octet>, data: seq<Octet>)
    requires |got| + |data| <= |old_|
    ensures Placed(got + old_[|got|..], |got|, data) == got + data + old_[|got + data|..]
  {
    var before := got + old_[|got|..];
    assert before[..|got|] == got;
    assert before[|got| + |data|..] == old_[|got| + |data|..];
  }

  lemma SegmentReplays(d: (Sdo, seq<Octet>), ms: seq<Msg>, m: Msg, content: seq<Octet>, old_: seq<Octet>, mbx: nat)
    requires |old_| == |content| && ms != [] && Replayed(Some(d), ms, content, old_)
    requires Proper(m, mbx) && m.Segment? && Concat(ms + [m]) <= content && d.0.mode == Downloading
    ensures SegmentFits(d.0, d.1, m)
    ensures var t := TakeSegment(d.0, d.1, m, 0); Replayed(Some((t.sdo, t.content)), ms + [m], content, old_)
  {
    ConcatSnoc(ms, m);
    assert (ms + [m])[0] == ms[0];
    assert |Concat(ms)| + |m.data| <= |content|;
    PlacedNext(Concat(ms), old_, m.data);
  }

  lemma DownloadSnoc(s: Sdo, r: Ref, dtype: u16, content: seq<Octet>, ms: seq<Msg>, m: Msg)
    requires ms != [] && Download(s, r, dtype, content, ms).Some?
    ensures var before := Download(s, r, dtype, content, ms).value;
            before.0.mode == Downloading && SegmentFits(before.0, before.1, m) ==>
              var d := TakeSegment(before.0, before.1, m, 0);
              Download(s, r, dtype, content, ms + [m]) == Some((d.sdo, d.content))
  {
    assert (ms + [m])[..|ms|] == ms;
  }

  lemma SegmentationPrefix(ms: seq<Msg>, m: Msg, content: seq<Octet>, mbx: nat)
    requires ms != [] && Segmentation(ms + [m], content, mbx) && Concat(ms + [m]) <= content
    ensures Segmentation(ms, content, mbx) && Concat(ms) <= content
    ensures m.Segment? && Proper(m, mbx) && !LastSegment(ms[|ms| - 1]) && |Data(ms[0])| < |content|
  {
    ConcatSnoc(ms, m);
    var all := ms + [m];
    assert all[|ms|] == m;
    assert forall i | 0 <= i < |ms| :: all[i] == ms[i];
  }

  lemma ReplayFirst(s: Sdo, r: Ref, dtype: u16, content: seq<Octet>, old_: seq<Octet>, m: Msg, mbx: nat)
    requires |old_| == |content| <= 0xFFFF && Segmentation([m], content, mbx) && Concat([m]) <= content
    ensures Replayed(Download(s, r, dtype, old_, [m]), [m], content, old_)
  {
    ConcatSnoc([], m);
    assert [] + [m] == [m];
    StartReplays(s, r, dtype, content, old_, m, mbx);
  }

  lemma ReplayNext(s: Sdo, r: Ref, dtype: u16, content: seq<Octet>, old_: seq<Octet>, ms: seq<Msg>, m: Msg, mbx: nat)
    requires |old_| == |content| <= 0xFFFF && ms != [] && Segmentation(ms + [m], content, mbx)
             && Concat(ms + [m]) <= content
    requires Replayed(Download(s, r, dtype, old_, ms), ms, content, old_)
    ensures Replayed(Download(s, r, dtype, old_, ms + [m]), ms + [m], content, old_)
  {
    SegmentationPrefix(ms, m, content, mbx);
    SegmentReplays(Download(s, r, dtype, old_, ms).value, ms, m, content, old_, mbx);
    DownloadSnoc(s, r, dtype, old_, ms, m);
  }

  /** The messages of an upload, taken as download requests by an entry of the same size. */
  lemma {:induction false} Replay(s: Sdo, r: Ref, dtype: u16, content: seq<Octet>, old_: seq<Octet>, ms: seq<Msg>,
                                  mbx: nat)
    requires |old_| == |content| <= 0xFFFF && Segmentation(ms, content, mbx) && Concat(ms) <= content
    ensures Replayed(Download(s, r, dtype, old_, ms), ms, content, old_)
  {
    var before, m := ms[..|ms| - 1], ms[|ms| - 1];
    assert ms == before + [m];
    if before == [] {
      ReplayFirst(s, r, dtype, content, old_, m, mbx);
    } else {
      SegmentationPrefix(before, m, content, mbx);
      Replay(s, r, dtype, content, old_, before, mbx);
      ReplayNext(s, r, dtype, content, old_, before, m, mbx);
    }
  }

  /**
   The round trip. The messages of a finished upload, taken as download requests by an entry of the
   same size, store exactly the bytes of the uploaded one, for every size up to 65535 and whatever
   segment requests went unanswered.
   */
  lemma UploadThenDownload(s: Sdo, s': Sdo, r: Ref, r': Ref, bits: nat, dtype: u16, content: seq<Octet>,
                           old_: seq<Octet>, mbx: nat, rs: seq<Request>)
    requires |content| == Bytes(bits) == |old_| && |content| <= 0xFFFF && mbx > HeaderSize && bits > 0
    requires Replaces(s, content) && Upload(s, r, bits, content, mbx, rs).0.mode == NoSegments
    ensures var d := Download(s', r', dtype, old_, Upload(s, r, bits, content, mbx, rs).1);
            d.Some? && d.value.1 == content && d.value.0.mode != Downloading
  {
    UploadLaw(s, r, bits, content, mbx, rs);
    var ms := Upload(s, r, bits, content, mbx, rs).1;
    Replay(s', r', dtype, content, old_, ms, mbx);
    if |ms| == 1 {
      ConcatSnoc([], ms[0]);
      assert [] + [ms[0]] == ms;
    }
  }

  /** A download goes on as its master expects: the reply is positive, and either all of its bytes are
      stored or the transfer is open for the rest. */
  predicate GoesOn(d: Started, m: Msg, content: seq<Octet>)
    requires m.Normal?
  {
    d.reply == Done(0x60) && |d.content| == |content|
    && if d.sdo.mode == Downloading then d.sdo.at == |m.data| && m.data <= d.content else m.data == d.content
  }

  /** What a positive answer to a normal request stores: as many bytes as the 16 bits kept of the size
      allow, before what the entry held, or before zeros if it is a visible string. */
  lemma StoredBySize(s: Sdo, r: Ref, dtype: u16, content: seq<Octet>, m: Msg, n: nat)
    requires m.Normal? && WellFormed(m, dtype, |content|) && Flexible(dtype) && m.total == |content|
    requires n == m.total % 0x1_0000 && |m.data| <= |content|
    ensures var d := StartDownload(s, r, dtype, content, m, 0, 0);
            var taken := m.data[..if n > 4 && n > |m.data| then |m.data| else n];
            && d.reply == Done(0x60)
            && (d.sdo.mode == Downloading <==> n > 4 && n > |m.data|)
            && |d.content| == |content| && taken <= d.content
            && (forall i | |taken| <= i < |content| ::
                  d.content[i] == if dtype == VisibleString && i >= n then Zeros(1)[0] else content[i])
  {
    assert DownloadSize(m) == n <= |content|;
  }

  /**
   A normal download of an entry's own size, of which the code keeps 16 bits. If the length of the
   entry is fixed, the download is taken exactly when the size fits them, and refused else. If it is
   flexible the server always says that it took the download; when the size does not fit, the rest of
   the download is lost exactly if the 16 bits announce no more than 4 bytes, or no more than came
   with the request: no transfer is opened for it.
   */
  lemma SizeFieldIff(s: Sdo, r: Ref, dtype: u16, content: seq<Octet>, m: Msg)
    requires m.Normal? && WellFormed(m, dtype, |content|)
    requires m.total == |content| > 4 && |m.data| <= |content|
    ensures var d := StartDownload(s, r, dtype, content, m, 0, 0);
            && (d.reply == Done(0x60) <==> Flexible(dtype) || |content| <= 0xFFFF)
            && (!Flexible(dtype) && |content| > 0xFFFF ==> d == Started(s, content, Abort(AbortTypeMismatch)))
            && (|content| <= 0xFFFF ==> GoesOn(d, m, content))
            && (Flexible(dtype) && |content| > 0xFFFF && |m.data| < |content| ==>
                  (GoesOn(d, m, content) <==> m.total % 0x1_0000 > 4 && m.total % 0x1_0000 > |m.data|))
  {
    var size := m.total % 0x1_0000;
    if |content| > 0xFFFF && Flexible(dtype) {
      StoredBySize(s, r, dtype, content, m, size);
    } else {
      assert |content| <= 0xFFFF ==> size == |content|;
    }
  }
}

/** The SDO handlers over mutable state, as esc_coe.c has them. */
module Sdo {
  import opened Base
  import opened Dictionary
  import opened PdoMap
  import opened SdoSpec

  /** What a request meets: the AL state, whether a mailbox buffer is free, and the codes of the
      application hooks before and after the access. */
  datatype Env = Env(alState: nat, claimed: bool, preCode: u32, postCode: u32)

  function IfClaimed(env: Env, m: Msg): Option<Msg> { if env.claimed then Some(m) else None }

  /** The entry a request names, or the abort code of what is missing. */
  datatype Lookup = Present(ref: Ref) | NoEntry(code: u32)

  ghost function Locate(dict: seq<Object>, index: u16, sub: u8): Lookup
    requires ValidDict(dict) && index != SentinelIndex
  {
    match Find(dict, index)
    case None => NoEntry(AbortNoObject)
    case Some(n) =>
      match FindSub(dict[n], sub)
      case None => NoEntry(AbortNoSubindex)
      case Some(k) => Present(Ref(n, k))
  }

  /** The part of SDO_uploadsegment that fills the claimed buffer; source is what data points to. */
  method FillSegment(s: SdoSpec.Sdo, source: seq<Octet>, toggle: bool, mbx: nat, postCode: u32)
    returns (t: SdoSpec.Sdo, m: Msg)
    requires s.mode == Uploading && s.fragsLeft <= s.frags <= |source| && mbx > HeaderSize
    ensures (t, m) == NextSegment(s, source, toggle, mbx, postCode)
  {
    t := s;
    var offset := t.fragsLeft;
    var size := t.frags - t.fragsLeft;
    var command := if toggle then 0x10 else 0x00;
    var length;
    if size + SegmentHeaderSize > mbx {
      size := mbx - SegmentHeaderSize;
      t := t.(fragsLeft := t.fragsLeft + size);
      length := SegmentHeaderSize + size;
    } else {
      t := t.(mode := NoSegments, frags := 0, fragsLeft := 0);
      command := command + 0x01;
      if size >= 7 {
        length := SegmentHeaderSize + size;
      } else {
        command := command + (7 - size) * 2;
        length := HeaderSize;
      }
    }
    m := Segment(length, command, source[offset..offset + size]);
    if t.mode == NoSegments && postCode != 0 {
      m := Abort(postCode);
    }
  }

  class Server {
    const dict: seq<Object>
    const mbxSize: nat                  // ESC_MBXDSIZE
    var segmented: Mode
    var frags: nat
    var fragsleft: nat
    var target: Ref                     // the storage ESCvar.data points into
    var at: nat                         // and where
    var content: map<Ref, seq<Octet>>    // what the entries hold

    ghost predicate Valid()
      reads this
    {
      && ValidDict(dict) && mbxSize > HeaderSize
      && (forall i, k | 0 <= i < |dict| - 1 && 0 <= k < |dict[i].entries| ::
            Ref(i, k) in content && |content[Ref(i, k)]| == Bytes(dict[i].entries[k].bitlength))
      && target in content
      && (segmented == Uploading ==> fragsleft < frags == |content[target]|)
    }

    function Abs(): SdoSpec.Sdo
      reads this
    {
      SdoSpec.Sdo(segmented, frags, fragsleft, target, at)
    }

    constructor (dict: seq<Object>, mbxSize: nat, content: map<Ref, seq<Octet>>, some: Ref)
      requires ValidDict(dict) && mbxSize > HeaderSize && some in content
      requires forall i, k | 0 <= i < |dict| - 1 && 0 <= k < |dict[i].entries| ::
                 Ref(i, k) in content && |content[Ref(i, k)]| == Bytes(dict[i].entries[k].bitlength)
      ensures Valid() && segmented == NoSegments && this.dict == dict && this.mbxSize == mbxSize
              && this.content == content
    {
      this.dict, this.mbxSize, this.content := dict, mbxSize, content;
      segmented, frags, fragsleft, target, at := NoSegments, 0, 0, some, 0;
    }

    method FindEntry(index: u16, sub: u8) returns (r: Lookup)
      requires Valid() && index != SentinelIndex
      ensures r == Locate(dict, index, sub)
      ensures r.Present? ==> r.ref.obj < |dict| - 1 && r.ref.entry < |dict[r.ref.obj].entries| && r.ref in content
    {
      var n := FindObject(dict, index);
      if n.None? {
        return NoEntry(AbortNoObject);
      }
      var k := FindSubindex(dict[n.value], sub);
      if k.None? {
        return NoEntry(AbortNoSubindex);
      }
      return Present(Ref(n.value, k.value));
    }

    /** SDO_upload. */
    method Upload(index: u16, sub: u8, env: Env) returns (reply: Option<Msg>)
      requires Valid() && index != SentinelIndex
      modifies this
      ensures Valid() && content == old(content)
      ensures match Locate(dict, index, sub)
              case NoEntry(code) => Abs() == old(Abs()) && reply == IfClaimed(env, Abort(code))
              case Present(r) =>
                var e := dict[r.obj].entries[r.entry];
                if !env.claimed then Abs() == old(Abs()) && reply == None
                else
                  var u := UploadEntry(old(Abs()), r, e.flags, e.bitlength, content[r], mbxSize, env.alState,
                                       env.preCode, env.postCode);
                  Abs() == u.0 && reply == Some(u.1)
    {
      var found := FindEntry(index, sub);
      if found.NoEntry? {
        return IfClaimed(env, Abort(found.code));
      }
      var e := dict[found.ref.obj].entries[found.ref.entry];
      if !ReadAccess(e.flags, env.alState) {
        return IfClaimed(env, Abort(AbortWriteOnly));
      }
      if !env.claimed {
        return None;
      }
      reply := AnswerUpload(found.ref, e.bitlength, env);
    }

    /** The part of SDO_upload that fills the claimed buffer. */
    method AnswerUpload(r: Ref, bits: u32, env: Env) returns (reply: Option<Msg>)
      requires Valid() && r in content && |content[r]| == Bytes(bits)
      modifies this
      ensures Valid() && content == old(content)
      ensures var u := StartUpload(old(Abs()), r, bits, content[r], mbxSize, env.preCode, env.postCode);
              Abs() == u.0 && reply == Some(u.1)
    {
      var size := bits;
      var dss := 0x0C;
      if size > 8 {
        dss := 0x08;
      }
      if size > 16 {
        dss := 0x04;
      }
      if size > 24 {
        dss := 0x00;
      }
      var command := 0x40 + 0x01;
      size := (size + 7) / 8;
      if env.preCode != 0 {
        return Some(Abort(env.preCode));
      }
      if size <= 4 {
        command := command + 0x02 + dss;
        reply := Some(Expedited(command, content[r]));
      } else {
        var total := size;
        frags := size;
        if size + HeaderSize > mbxSize {
          size := mbxSize - HeaderSize;
          fragsleft := size;
          segmented := Uploading;
          target, at := r, 0;
        } else {
          segmented := NoSegments;
        }
        reply := Some(Normal(HeaderSize + size, command, total, content[r][..size]));
        assert content[r][..|content[r]|] == content[r];
      }
      if segmented == NoSegments && env.postCode != 0 {
        reply := Some(Abort(env.postCode));
      }
    }

    /** SDO_uploadsegment; the dispatcher calls it only while an upload is segmented. */
    method UploadSegment(toggle: bool, env: Env) returns (reply: Option<Msg>)
      requires Valid() && segmented == Uploading
      modifies this
      ensures Valid() && content == old(content)
      ensures if !env.claimed then Abs() == old(Abs()) && reply == None
              else
                var u := NextSegment(old(Abs()), content[old(target)], toggle, mbxSize, env.postCode);
                Abs() == u.0 && reply == Some(u.1)
    {
      if !env.claimed {
        return None;
      }
      var t, m := FillSegment(Abs(), content[target], toggle, mbxSize, env.postCode);
      segmented, frags, fragsleft := t.mode, t.frags, t.fragsLeft;
      reply := Some(m);
    }

    /** SDO_download, for a request that is not held back. */
    method Download(index: u16, sub: u8, m: Msg, env: Env) returns (reply: Option<Msg>)
      requires Valid() && index != SentinelIndex
      requires Locate(dict, index, sub).Present? ==>
                 var r := Locate(dict, index, sub).ref;
                 WellFormed(m, dict[r.obj].entries[r.entry].datatype_, |content[r]|)
      modifies this
      ensures Valid()
      ensures match Locate(dict, index, sub)
              case NoEntry(code) =>
                Abs() == old(Abs()) && content == old(content) && reply == IfClaimed(env, Abort(code))
              case Present(r) =>
                var e := dict[r.obj].entries[r.entry];
                var d := DownloadEntry(old(Abs()), r, e.flags, e.datatype_, old(content)[r], m, env.alState,
                                       env.preCode, env.postCode);
                Abs() == d.sdo && content == old(content)[r := d.content] && reply == IfClaimed(env, d.reply)
    {
      var found := FindEntry(index, sub);
      if found.NoEntry? {
        return IfClaimed(env, Abort(found.code));
      }
      var e := dict[found.ref.obj].entries[found.ref.entry];
      if !WriteAccess(e.flags, env.alState) {
        reply := IfClaimed(env, Abort(if e.flags % 64 == 7 then AbortReadOnly else AbortNotInThisState));
        return;
      }
      reply := AcceptDownload(found.ref, e.datatype_, m, env);
    }

    /** The part of SDO_download for a writable entry. */
    method AcceptDownload(r: Ref, dtype: u16, m: Msg, env: Env) returns (reply: Option<Msg>)
      requires Valid() && r in content && WellFormed(m, dtype, |content[r]|)
      modifies this
      ensures Valid()
      ensures var d := StartDownload(old(Abs()), r, dtype, old(content)[r], m, env.preCode, env.postCode);
              Abs() == d.sdo && content == old(content)[r := d.content] && reply == IfClaimed(env, d.reply)
    {
      var size := if m.Expedited? then 4 - m.command / 4 % 4 else m.total % 0x1_0000;
      var actsize := |content[r]|;
      if actsize != size {
        if dtype == VisibleString {
          content := content[r := content[r][..size] + Zeros(actsize - size)];
        } else if !Flexible(dtype) {
          return IfClaimed(env, Abort(AbortTypeMismatch));
        }
      }
      if env.preCode != 0 {
        return IfClaimed(env, Abort(env.preCode));
      }
      reply := StoreFirst(r, m, size, env);
    }

    /** The part of SDO_download that stores the first bytes. */
    method StoreFirst(r: Ref, m: Msg, total: nat, env: Env) returns (reply: Option<Msg>)
      requires Valid() && r in content && (m.Expedited? || m.Normal?) && total == DownloadSize(m)
      requires Min(total, |m.data|) <= |content[r]| && (m.Expedited? || total <= 4 ==> total <= |m.data|)
      modifies this
      ensures Valid()
      ensures var d := TakeFirst(old(Abs()), r, old(content)[r], m, env.postCode);
              Abs() == d.sdo && content == old(content)[r := d.content] && reply == IfClaimed(env, d.reply)
    {
      var size := total;
      if size > 4 && size > |m.data| {
        size := |m.data|;
        segmented := Downloading;
        target, at := r, size;
      } else {
        segmented := NoSegments;
      }
      assert m.data[..|m.data|] == m.data;
      assert Placed(content[r], 0, m.data[..size]) == m.data[..size] + content[r][size..];
      content := content[r := m.data[..size] + content[r][size..]];
      reply := IfClaimed(env, Done(0x60));
      if segmented == NoSegments {
        if env.postCode != 0 {
          reply := IfClaimed(env, Abort(env.postCode));
        }
      }
    }

    /** SDO_downloadsegment for a single entry. The dispatcher also calls it while no download is open:
        the segment then goes to where data still points. */
    method DownloadSegment(m: Msg, env: Env) returns (reply: Option<Msg>)
      requires Valid() && SegmentFits(Abs(), content[target], m)
      requires segmented == Uploading && !LastSegment(m) ==> fragsleft + |m.data| < frags
      modifies this
      ensures Valid()
      ensures if !env.claimed then Abs() == old(Abs()) && content == old(content) && reply == None
              else
                var d := TakeSegment(old(Abs()), old(content)[old(target)], m, env.postCode);
                && Abs() == d.sdo && content == old(content)[old(target) := d.content] && reply == Some(d.reply)
    {
      if !env.claimed {
        return None;
      }
      var size := m.length - SegmentHeaderSize;
      if size == 7 {
        size := 7 - m.command / 2 % 8;
      }
      var command := 0x20 + m.command / 16 % 2 * 16;
      var c := content[target];
      content := content[target := c[..at] + m.data[..size] + c[at + size..]];
      assert m.data[..size] == m.data;
      reply := Some(Done(command));
      if m.command % 2 == 1 {
        segmented, frags, fragsleft := NoSegments, 0, 0;
        if env.postCode != 0 {
          reply := Some(Abort(env.postCode));
        }
      } else {
        at := at + size;
        fragsleft := fragsleft + size;
      }
    }
  }
}
