/**
 File over EtherCAT, writing (section 5.8 of ETG.1000.6): FOE_write opens a file, FOE_data takes its
 packets and hands the bytes to the application in blocks of the configured flush buffer.
 */
module FoeSpec {
  import opened Base

  const ErrIllegal: u32 := 0x8004
  const ErrDiskFull: u32 := 0x8003
  const ErrPacketNo: u32 := 0x8005
  const ErrProg: u32 := 0x800B
  const Two32 := 0x1_0000_0000

  datatype Phase = Ready | WaitForData

  /** FOEvar, the open file's offsets, the flush buffer below fbufposition, and the blocks passed
      to write_function since the file was opened. */
  datatype Foe = Foe(phase: Phase, packet: u32, position: u32, end: u32, offset: u32, total: u32,
                     buffer: seq<byte>, blocks: seq<seq<byte>>)

  datatype Reply = Ack(packet: u32) | Error(code: u32)

  /** A data packet and what it meets: how many write_function calls succeed before one fails,
      whether the call at the end succeeds, and whether mailbox buffers are free. */
  datatype Packet = Packet(number: u32, data: seq<byte>, okWrites: nat, closeOk: bool,
                           claimError: bool, claimAck: bool, claimLate: bool)

  datatype Step = Step(foe: Foe, replies: seq<Reply>, aborted: bool)

  /** The configured flush buffer size and the data bytes of a full packet. */
  datatype Config = Config(bufferSize: nat, packetSize: nat)

  predicate ValidConfig(cfg: Config) {
    1 <= cfg.bufferSize <= 0xFFFF && 1 <= cfg.packetSize <= 0xFFFF
  }

  function Reset(s: Foe): Foe {
    s.(phase := Ready, packet := 0, position := 0, buffer := [])
  }

  function Abort(s: Foe, code: u32, claimed: bool): Step {
    Step(Reset(s), if code != 0 && claimed then [Error(code)] else [], true)
  }

  /** One byte into the flush buffer, and the buffer out when it is full. */
  function Put(s: Foe, b: byte, cfg: Config): Foe
    requires s.position < Two32 - 1
  {
    var buffer := s.buffer + [b];
    if |buffer| >= cfg.bufferSize then
      s.(buffer := [], blocks := s.blocks + [buffer], position := s.position + 1,
         offset := (s.offset + cfg.bufferSize) % Two32)
    else s.(buffer := buffer, position := s.position + 1)
  }

  /** A byte that completes a block. */
  predicate Flushes(s: Foe, cfg: Config) {
    |s.buffer| + 1 >= cfg.bufferSize
  }

  datatype Written = Written(foe: Foe, copied: nat, failed: bool)

  /** FOE_fwrite: bytes go in one by one until they are used up, the file is full or a write fails. */
  function FWrite(s: Foe, data: seq<byte>, okWrites: nat, cfg: Config): Written
    requires s.position <= s.end
    decreases |data|
  {
    if data == [] || s.position == s.end then Written(s, 0, false)
    else
      var s1 := Put(s, data[0], cfg);
      if Flushes(s, cfg) && okWrites == 0 then Written(s1, 0, true)
      else
        var r := FWrite(s1, data[1..], if Flushes(s, cfg) then okWrites - 1 else okWrites, cfg);
        r.(copied := r.copied + 1)
  }

  /** FOE_fclose: what is left in the flush buffer goes out. */
  function FClose(s: Foe): Foe {
    s.(blocks := s.blocks + [s.buffer], offset := (s.offset + |s.buffer|) % Two32, buffer := [])
  }

  function SendAck(s: Foe): Foe { s.(packet := (s.packet + 1) % Two32) }

  /** FOE_write: a write request with the outcome of looking up the file. */
  function Open(s: Foe, code: u32, maxData: u32, claimError: bool, claimAck: bool): Step {
    if s.phase != Ready then Abort(s, ErrIllegal, claimError)
    else if code != 0 then Abort(Reset(s), code, claimError)
    else
      var s := Reset(s).(end := maxData, offset := 0, total := 0, blocks := []);
      if claimAck then Step(SendAck(s).(phase := WaitForData), [Ack(s.packet)], false)
      else Abort(s, ErrProg, claimError)
  }

  /** FOE_data. */
  function Data(s: Foe, e: Packet, cfg: Config): Step
    requires s.position <= s.end
  {
    if s.phase != WaitForData then Abort(s, ErrIllegal, e.claimError)
    else if e.number != s.packet then Abort(s, ErrPacketNo, e.claimError)
    else if e.data == [] then
      var s := FClose(s);
      Step(Reset(s), if e.claimAck then [Ack(s.packet)] else [], false)
    else if (s.position + |e.data|) % Two32 > s.end then Abort(s, ErrDiskFull, e.claimError)
    else
      var w := FWrite(s, e.data, e.okWrites, cfg);
      Took(w.foe.(total := (w.foe.total + w.copied) % Two32), w.copied, e, cfg)
  }

  /** The rest of FOE_data once the bytes of a packet are written, or some of them. */
  function Took(s: Foe, copied: nat, e: Packet, cfg: Config): Step {
    if copied == 0 then Abort(s, ErrProg, e.claimError)
    else if |e.data| == cfg.packetSize then TookFull(s, copied, e)
    else TookLast(s, copied, e)
  }

  /** After a full packet: an abort is answered, and then acknowledged all the same. */
  function TookFull(s: Foe, copied: nat, e: Packet): Step {
    if copied != |e.data| then
      var a := Abort(s, ErrProg, e.claimError);
      Acknowledge(a.foe, a.replies, true, e)
    else Acknowledge(s, [], false, e)
  }

  /** After a shorter packet: the file is closed. */
  function TookLast(s: Foe, copied: nat, e: Packet): Step {
    if copied != |e.data| then Abort(s, ErrProg, e.claimError)
    else
      var s := FClose(s);
      if !e.closeOk then Abort(s, ErrProg, e.claimError)
      else Step(Reset(s), if e.claimAck then [Ack(s.packet)] else [], false)
  }

  function Acknowledge(s: Foe, replies: seq<Reply>, aborted: bool, e: Packet): Step {
    if e.claimAck then Step(SendAck(s), replies + [Ack(s.packet)], aborted)
    else
      var a := Abort(s, ErrProg, e.claimLate);
      Step(a.foe, replies + a.replies, true)
  }

  // ---------------------------------------------------------------- laws

  function Concat(blocks: seq<seq<byte>>): seq<byte> {
    if blocks == [] then [] else Concat(blocks[..|blocks| - 1]) + blocks[|blocks| - 1]
  }

  predicate FullBlocks(blocks: seq<seq<byte>>, size: nat) {
    forall i | 0 <= i < |blocks| :: |blocks[i]| == size
  }

  /** While a file is open: the blocks written and the flush buffer hold the bytes received. */
  ghost predicate Streams(s: Foe, received: seq<byte>, cfg: Config) {
    && Concat(s.blocks) + s.buffer == received
    && FullBlocks(s.blocks, cfg.bufferSize) && |s.buffer| < cfg.bufferSize
    && s.offset == |Concat(s.blocks)| && s.position == |received| <= s.end
  }

  lemma ConcatSnoc(blocks: seq<seq<byte>>, b: seq<byte>)
    ensures Concat(blocks + [b]) == Concat(blocks) + b
  {
    assert (blocks + [b])[..|blocks|] == blocks;
  }

  lemma PutStreams(s: Foe, received: seq<byte>, b: byte, cfg: Config)
    requires ValidConfig(cfg) && Streams(s, received, cfg) && s.position < s.end
    ensures Streams(Put(s, b, cfg), received + [b], cfg)
    ensures Put(s, b, cfg).blocks == if Flushes(s, cfg) then s.blocks + [s.buffer + [b]] else s.blocks
  {
    ConcatSnoc(s.blocks, s.buffer + [b]);
    assert Concat(s.blocks) + (s.buffer + [b]) == received + [b];
  }

  /** What FOE_fwrite has done: it added the bytes it took to the stream, and took all of them unless
      the file is full or a write fails; it reports as copied what it took, short of a byte whose
      flush failed. */
  ghost predicate Wrote(s: Foe, received: seq<byte>, data: seq<byte>, okWrites: nat, w: Written, cfg: Config)
    requires ValidConfig(cfg) && s.position <= s.end
  {
    var taken := if w.failed then w.copied + 1 else w.copied;
    var room := Min(|data|, s.end - s.position);
    && taken <= |data| && Streams(w.foe, received + data[..taken], cfg)
    && (!w.failed ==> w.copied == room)
    && (w.failed <==> (|received| + room) / cfg.bufferSize > |received| / cfg.bufferSize + okWrites)
    && SameRequest(s, w.foe)
  }

  lemma WroteNothing(s: Foe, received: seq<byte>, data: seq<byte>, okWrites: nat, cfg: Config)
    requires ValidConfig(cfg) && Streams(s, received, cfg) && (data == [] || s.position == s.end)
    ensures Wrote(s, received, data, okWrites, Written(s, 0, false), cfg)
  {
    assert received + data[..0] == received;
  }

  /** The first byte's block is full and cannot be written. */
  lemma WroteFails(s: Foe, received: seq<byte>, data: seq<byte>, cfg: Config)
    requires ValidConfig(cfg) && Streams(s, received, cfg) && data != [] && s.position < s.end && Flushes(s, cfg)
    ensures Wrote(s, received, data, 0, Written(Put(s, data[0], cfg), 0, true), cfg)
  {
    PutStreams(s, received, data[0], cfg);
    BlockCount(s, received, cfg);
    BlockCount(Put(s, data[0], cfg), received + [data[0]], cfg);
    assert data[..1] == [data[0]];
    DivMonotone(|received| + 1, |received| + Min(|data|, s.end - s.position), cfg.bufferSize);
  }

  /** One byte, and then the rest. */
  lemma WroteMore(s: Foe, received: seq<byte>, data: seq<byte>, okWrites: nat, w: Written, cfg: Config)
    requires ValidConfig(cfg) && Streams(s, received, cfg) && data != [] && s.position < s.end
    requires Flushes(s, cfg) ==> okWrites > 0
    requires var s1 := Put(s, data[0], cfg);
             s1.position <= s1.end
             && Wrote(s1, received + [data[0]], data[1..], if Flushes(s, cfg) then okWrites - 1 else okWrites, w, cfg)
    ensures Wrote(s, received, data, okWrites, w.(copied := w.copied + 1), cfg)
  {
    PutStreams(s, received, data[0], cfg);
    BlockCount(s, received, cfg);
    BlockCount(Put(s, data[0], cfg), received + [data[0]], cfg);
    TakenNext(received, data, if w.failed then w.copied + 1 else w.copied);
  }

  lemma TakenNext(received: seq<byte>, data: seq<byte>, taken: nat)
    requires data != []
    ensures taken <= |data[1..]| ==> received + [data[0]] + data[1..][..taken] == received + data[..taken + 1]
  {
    if taken <= |data[1..]| {
      assert [data[0]] + data[1..][..taken] == data[..taken + 1];
    }
  }

  lemma {:induction false} FWriteStreams(s: Foe, received: seq<byte>, data: seq<byte>, okWrites: nat, cfg: Config)
    requires ValidConfig(cfg) && Streams(s, received, cfg)
    ensures Wrote(s, received, data, okWrites, FWrite(s, data, okWrites, cfg), cfg)
    decreases |data|
  {
    if data == [] || s.position == s.end {
      WroteNothing(s, received, data, okWrites, cfg);
    } else if Flushes(s, cfg) && okWrites == 0 {
      WroteFails(s, received, data, cfg);
    } else {
      var left := if Flushes(s, cfg) then okWrites - 1 else okWrites;
      PutStreams(s, received, data[0], cfg);
      FWriteStreams(Put(s, data[0], cfg), received + [data[0]], data[1..], left, cfg);
      WroteMore(s, received, data, okWrites, FWrite(Put(s, data[0], cfg), data[1..], left, cfg), cfg);
    }
  }

  predicate SameRequest(s: Foe, t: Foe) {
    t.phase == s.phase && t.packet == s.packet && t.end == s.end && t.total == s.total
  }

  lemma MulMonotone(a: nat, b: nat, c: nat)
    ensures a <= b ==> c * a <= c * b
  {
  }

  lemma DivMonotone(a: nat, b: nat, c: nat)
    requires a <= b && c > 0
    ensures a / c <= b / c
  {
    var p, q := a / c, b / c;
    assert a == c * p + a % c && b == c * q + b % c;
    assert c * (q + 1) == c * q + c;
    MulMonotone(q + 1, p, c);
  }

  lemma DivUnique(n: nat, k: nat, r: nat, c: nat)
    requires c > 0 && n == c * k + r && r < c
    ensures n / c == k
  {
    var q := n / c;
    assert n == c * q + n % c;
    assert c * (q + 1) == c * q + c && c * (k + 1) == c * k + c;
    MulMonotone(q + 1, k, c);
    MulMonotone(k + 1, q, c);
  }

  lemma {:induction false} ConcatLength(blocks: seq<seq<byte>>, size: nat)
    requires FullBlocks(blocks, size)
    ensures |Concat(blocks)| == size * |blocks|
  {
    if blocks != [] {
      var n := |blocks| - 1;
      ConcatLength(blocks[..n], size);
      assert size * (n + 1) == size * n + size;
    }
  }

  /** The blocks written are the whole blocks of the stream. */
  lemma BlockCount(s: Foe, received: seq<byte>, cfg: Config)
    requires ValidConfig(cfg) && Streams(s, received, cfg)
    ensures |received| / cfg.bufferSize == |s.blocks|
  {
    ConcatLength(s.blocks, cfg.bufferSize);
    DivUnique(|received|, |s.blocks|, |s.buffer|, cfg.bufferSize);
  }

  // ---------------------------------------------------------------- a whole transfer

  /** The bytes of a run of packets. */
  function Payload(es: seq<Packet>): seq<byte> {
    if es == [] then [] else Payload(es[..|es| - 1]) + es[|es| - 1].data
  }

  /** A file just opened for writing and acknowledged. */
  predicate Opened(s: Foe) {
    s == Foe(WaitForData, 1, 0, s.end, 0, 0, [], [])
  }

  /** A packet is accepted and the file stays open. */
  predicate Accepts(s: Foe, e: Packet, s': Foe, cfg: Config) {
    && s.position <= s.end && s'.phase == WaitForData
    && !Data(s, e, cfg).aborted && Data(s, e, cfg).foe == s'
  }

  /** A run of packets, none of which was refused; the file stays open throughout. */
  ghost predicate AcceptedRun(ss: seq<Foe>, es: seq<Packet>, cfg: Config) {
    && |ss| == |es| + 1 && Opened(ss[0])
    && forall i | 0 <= i < |es| :: Accepts(ss[i], es[i], ss[i + 1], cfg)
  }

  /** What accepting a packet tells about it. */
  lemma AcceptedPacket(s: Foe, received: seq<byte>, e: Packet, cfg: Config)
    requires ValidConfig(cfg) && s.phase == WaitForData && Streams(s, received, cfg)
    requires !Data(s, e, cfg).aborted && e.data != []
    ensures e.number == s.packet && |received| + |e.data| <= s.end
    ensures var w := FWrite(s, e.data, e.okWrites, cfg);
            w.copied == |e.data| && !w.failed && Streams(w.foe, received + e.data, cfg) && SameRequest(s, w.foe)
  {
    FWriteStreams(s, received, e.data, e.okWrites, cfg);
    assert e.data[..|e.data|] == e.data;
  }

  lemma StaysOpen(s: Foe, received: seq<byte>, e: Packet, s': Foe, cfg: Config)
    requires ValidConfig(cfg) && s.phase == WaitForData && Streams(s, received, cfg) && Accepts(s, e, s', cfg)
    ensures Streams(s', received + e.data, cfg) && e.number == s.packet && |e.data| == cfg.packetSize
    ensures s'.packet == (s.packet + 1) % Two32 && s'.end == s.end && Data(s, e, cfg).replies == [Ack(s.packet)]
    ensures s'.total == (s.total + |e.data|) % Two32
  {
    AcceptedPacket(s, received, e, cfg);
    FWriteStreams(s, received, e.data, e.okWrites, cfg);
  }

  lemma PayloadNext(es: seq<Packet>, n: nat)
    requires 0 < n <= |es|
    ensures Payload(es[..n]) == Payload(es[..n - 1]) + es[n - 1].data
  {
    assert es[..n][..n - 1] == es[..n - 1];
  }

  /** A file open after n accepted packets with some payload. */
  ghost predicate OpenAfter(s: Foe, received: seq<byte>, n: nat, end: nat, cfg: Config) {
    && s.phase == WaitForData && Streams(s, received, cfg) && s.end == end && s.packet == n + 1
    && s.total == |received|
  }

  lemma OpenNext(s: Foe, received: seq<byte>, n: nat, end: nat, e: Packet, s': Foe, cfg: Config)
    requires ValidConfig(cfg) && OpenAfter(s, received, n, end, cfg) && Accepts(s, e, s', cfg) && n < Two32 - 2
    ensures OpenAfter(s', received + e.data, n + 1, end, cfg) && e.number == n + 1
  {
    StaysOpen(s, received, e, s', cfg);
    TotalIs(s.total, |e.data|, |received + e.data|);
  }

  lemma {:induction false} StreamUpTo(ss: seq<Foe>, es: seq<Packet>, n: nat, cfg: Config)
    requires ValidConfig(cfg) && AcceptedRun(ss, es, cfg) && n <= |es| < Two32 - 1
    ensures OpenAfter(ss[n], Payload(es[..n]), n, ss[0].end, cfg)
    ensures n > 0 ==> es[n - 1].number == n
  {
    if n > 0 {
      StreamUpTo(ss, es, n - 1, cfg);
      OpenNext(ss[n - 1], Payload(es[..n - 1]), n - 1, ss[0].end, es[n - 1], ss[n], cfg);
      PayloadNext(es, n);
    }
  }

  /**
   The write stream, while a file is open: after any run of accepted packets the blocks passed to
   write_function, each exactly the buffer size long, followed by the flush buffer, are the packets'
   bytes; address_offset is the bytes flushed, fposition the bytes received, never beyond the end;
   and the packets were numbered 1, 2, 3 and so on.
   */
  lemma WriteStream(ss: seq<Foe>, es: seq<Packet>, cfg: Config)
    requires ValidConfig(cfg) && AcceptedRun(ss, es, cfg) && |es| < Two32 - 1
    ensures var s := ss[|es|];
            && s.phase == WaitForData && Streams(s, Payload(es), cfg) && s.end == ss[0].end
            && s.packet == |es| + 1 && s.total == |Payload(es)|
    ensures forall i | 0 <= i < |es| :: es[i].number == i + 1
  {
    StreamUpTo(ss, es, |es|, cfg);
    assert es[..|es|] == es;
    forall i | 0 <= i < |es| ensures es[i].number == i + 1 {
      StreamUpTo(ss, es, i + 1, cfg);
    }
  }

  /** All bytes are passed on, in blocks of the given size but for the last, which is shorter. */
  ghost predicate AllWritten(s: Foe, bytes: seq<byte>, size: nat) {
    var n := |s.blocks| - 1;
    && n >= 0 && Concat(s.blocks) == bytes
    && FullBlocks(s.blocks[..n], size) && |s.blocks[n]| < size
    && s.offset == |bytes| == s.total
  }

  lemma Closes(s: Foe, received: seq<byte>, last: Packet, cfg: Config)
    requires ValidConfig(cfg) && s.phase == WaitForData && Streams(s, received, cfg)
    requires var r := Data(s, last, cfg); !r.aborted && r.foe.phase == Ready
    requires s.total == |received|
    ensures AllWritten(Data(s, last, cfg).foe, received + last.data, cfg.bufferSize)
    ensures last.number == s.packet && |last.data| != cfg.packetSize
  {
    if last.data == [] {
      CloseStreams(s, received, cfg);
      assert received + last.data == received;
    } else {
      AcceptedPacket(s, received, last, cfg);
      ClosesFile(s, last, cfg);
      ClosesAs(FWrite(s, last.data, last.okWrites, cfg), received + last.data, cfg);
    }
  }

  lemma ClosesAs(w: Written, bytes: seq<byte>, cfg: Config)
    requires ValidConfig(cfg) && Streams(w.foe, bytes, cfg) && w.foe.total + w.copied == |bytes| < Two32
    ensures AllWritten(Reset(FClose(w.foe.(total := (w.foe.total + w.copied) % Two32))), bytes, cfg.bufferSize)
  {
    TotalIs(w.foe.total, w.copied, |bytes|);
    CloseStreams(w.foe.(total := |bytes|), bytes, cfg);
  }

  /** Sums of bytes received do not wrap. */
  lemma TotalIs(total: nat, copied: nat, n: nat)
    requires total + copied == n < Two32
    ensures (total + copied) % Two32 == n
  {
  }

  /** What is left of a file after the packet that ends it. */
  lemma ClosesFile(s: Foe, last: Packet, cfg: Config)
    requires s.phase == WaitForData && s.position <= s.end && last.data != []
    requires var r := Data(s, last, cfg); !r.aborted && r.foe.phase == Ready
    ensures last.number == s.packet && |last.data| != cfg.packetSize
    ensures var w := FWrite(s, last.data, last.okWrites, cfg);
            Data(s, last, cfg).foe == Reset(FClose(w.foe.(total := (w.foe.total + w.copied) % Two32)))
  {
    FWriteKeepsPhase(s, last.data, last.okWrites, cfg);
  }

  lemma {:induction false} FWriteKeepsPhase(s: Foe, data: seq<byte>, okWrites: nat, cfg: Config)
    requires s.position <= s.end
    ensures FWrite(s, data, okWrites, cfg).foe.phase == s.phase
    decreases |data|
  {
    if data != [] && s.position != s.end && !(Flushes(s, cfg) && okWrites == 0) {
      FWriteKeepsPhase(Put(s, data[0], cfg), data[1..], if Flushes(s, cfg) then okWrites - 1 else okWrites, cfg);
    }
  }

  /**
   The end of a transfer: a shorter packet, or an empty one, closes the file. All bytes received
   have then been passed on, in blocks of the buffer size but for the last, which is shorter.
   */
  lemma TransferComplete(ss: seq<Foe>, es: seq<Packet>, last: Packet, cfg: Config)
    requires ValidConfig(cfg) && AcceptedRun(ss, es, cfg) && |es| < Two32 - 1
    requires var s := ss[|es|];
             s.position <= s.end && !Data(s, last, cfg).aborted && Data(s, last, cfg).foe.phase == Ready
    ensures AllWritten(Data(ss[|es|], last, cfg).foe, Payload(es) + last.data, cfg.bufferSize)
    ensures last.number == |es| + 1 && |last.data| != cfg.packetSize
  {
    WriteStream(ss, es, cfg);
    Closes(ss[|es|], Payload(es), last, cfg);
  }

  lemma CloseStreams(s: Foe, received: seq<byte>, cfg: Config)
    requires ValidConfig(cfg) && Streams(s, received, cfg) && s.total == |received|
    ensures AllWritten(FClose(s), received, cfg.bufferSize)
  {
    ConcatSnoc(s.blocks, s.buffer);
    assert (s.blocks + [s.buffer])[..|s.blocks|] == s.blocks;
  }

  /** A flush of the buffer fails while the bytes of a packet go in: more blocks fill up than writes
      succeed. */
  predicate FlushFails(received: nat, e: Packet, cfg: Config)
    requires ValidConfig(cfg)
  {
    (received + |e.data|) / cfg.bufferSize > received / cfg.bufferSize + e.okWrites
  }

  /** A packet with the expected number whose bytes fit the file. */
  predicate Fits(s: Foe, received: nat, e: Packet) {
    e.number == s.packet && received + |e.data| <= s.end
  }

  /** The bytes a packet writes: none, some or all of them. */
  lemma Copied(s: Foe, received: seq<byte>, e: Packet, cfg: Config)
    requires ValidConfig(cfg) && Streams(s, received, cfg) && e.data != []
    ensures var n := FWrite(s, e.data, e.okWrites, cfg).copied;
            && n <= |e.data|
            && (n == 0 <==> |received| == s.end || (e.okWrites == 0 && Flushes(s, cfg)))
            && (n == |e.data| <==> |received| + |e.data| <= s.end && !FlushFails(|received|, e, cfg))
  {
    WriteOutcome(s, received, e, cfg);
    FWriteStreams(s, received, e.data, e.okWrites, cfg);
  }

  /**
   When a packet for an open file is refused. An empty one: exactly when its number is not the
   expected one. Any other: exactly when its number is not the expected one, its bytes do not fit,
   a write fails, or, for a packet of full size, no buffer is free for its acknowledgement.
   */
  lemma RefusedIff(s: Foe, received: seq<byte>, e: Packet, cfg: Config)
    requires ValidConfig(cfg) && s.phase == WaitForData && Streams(s, received, cfg)
    requires |e.data| <= 0xFFFF
    ensures e.data == [] ==> (Data(s, e, cfg).aborted <==> e.number != s.packet)
    ensures e.data != [] ==>
              (Data(s, e, cfg).aborted <==>
                 || e.number != s.packet
                 || |received| + |e.data| > s.end
                 || FlushFails(|received|, e, cfg)
                 || (if |e.data| == cfg.packetSize then !e.claimAck else !e.closeOk))
  {
    if e.data != [] {
      Copied(s, received, e, cfg);
      DataAborts(s, e, cfg);
      WrapsLess(s.position + |e.data|, s.end);
    }
  }

  /** A packet is refused before its bytes are written, if not all of them are, or by what follows. */
  lemma DataAborts(s: Foe, e: Packet, cfg: Config)
    requires s.phase == WaitForData && s.position <= s.end && e.data != []
    ensures Data(s, e, cfg).aborted <==>
              || e.number != s.packet || (s.position + |e.data|) % Two32 > s.end
              || FWrite(s, e.data, e.okWrites, cfg).copied != |e.data|
              || (if |e.data| == cfg.packetSize then !e.claimAck else !e.closeOk)
  {
  }

  lemma WrapsLess(x: nat, end: nat)
    ensures x % Two32 > end ==> x > end
  {
  }

  /** A write_function call fails in the course of a packet that is otherwise in order: a flush, or
      the last call when the packet ends the file. */
  predicate WriteFails(s: Foe, received: nat, e: Packet, cfg: Config)
    requires ValidConfig(cfg)
  {
    Fits(s, received, e) && (FlushFails(received, e, cfg) || (|e.data| != cfg.packetSize && !e.closeOk))
  }

  /**
   A failed write makes the server refuse the packet exactly if the packet is not empty. The empty
   packet that ends a file of full packets is acknowledged, and the file closed, whatever the last
   write answers.
   */
  lemma FailureRefusedIff(s: Foe, received: seq<byte>, e: Packet, cfg: Config)
    requires ValidConfig(cfg) && s.phase == WaitForData && Streams(s, received, cfg)
    requires |e.data| <= 0xFFFF && WriteFails(s, |received|, e, cfg)
    ensures Data(s, e, cfg).aborted <==> e.data != []
    ensures e.data == [] ==> Data(s, e, cfg).foe.phase == Ready
                             && Data(s, e, cfg).replies == if e.claimAck then [Ack(e.number)] else []
  {
    RefusedIff(s, received, e, cfg);
  }

  /** The 32-bit size check lets the packet through: it fits, or position and length wrap around. */
  predicate PassesCheck(s: Foe, e: Packet) {
    e.number == s.packet && (s.position + |e.data|) % Two32 <= s.end
  }

  /** Some of the bytes of a packet are written, but not all. */
  predicate WrittenInPart(s: Foe, received: nat, e: Packet, cfg: Config)
    requires ValidConfig(cfg)
  {
    && received < s.end && !(e.okWrites == 0 && Flushes(s, cfg))
    && (received + |e.data| > s.end || FlushFails(received, e, cfg))
  }

  /** Why a packet is refused: its number, its size, or what happened to its bytes. */
  function RefusalCode(s: Foe, e: Packet): u32 {
    if e.number != s.packet then 0x8005 else if !PassesCheck(s, e) then 0x8003 else 0x800B
  }

  /** A full packet was written, and only its acknowledgement found no buffer. */
  predicate OnlyAckMissing(s: Foe, received: nat, e: Packet, cfg: Config)
    requires ValidConfig(cfg)
  {
    |e.data| == cfg.packetSize && Fits(s, received, e) && !FlushFails(received, e, cfg)
  }

  /** The answer to a packet of which some bytes were written, or none, and which is refused. */
  lemma TookReplies(s: Foe, copied: nat, e: Packet, cfg: Config)
    requires Took(s, copied, e, cfg).aborted
    ensures var r, error := Took(s, copied, e, cfg).replies, if e.claimError then [Error(0x800B)] else [];
            r == if |e.data| != cfg.packetSize || copied == 0 then error
                 else if copied == |e.data| then if e.claimLate then [Error(0x800B)] else []
                 else error + (if e.claimAck then [Ack(0)] else if e.claimLate then [Error(0x800B)] else [])
  {
  }

  /** A packet whose number or size is refused. */
  lemma UnreadReplies(s: Foe, e: Packet, cfg: Config)
    requires s.phase == WaitForData && s.position <= s.end && Data(s, e, cfg).aborted
    requires e.data == [] || !PassesCheck(s, e)
    ensures Data(s, e, cfg).replies == if e.claimError then [Error(RefusalCode(s, e))] else []
    ensures !PassesCheck(s, e)
  {
  }

  /** What a refused packet is answered with: an error alone with its code, if it is not a full one written
      in part; else an error and an acknowledgement. */
  lemma RefusalReplies(s: Foe, received: seq<byte>, e: Packet, cfg: Config)
    requires ValidConfig(cfg) && s.phase == WaitForData && Streams(s, received, cfg) && |e.data| <= 0xFFFF
    requires Data(s, e, cfg).aborted
    ensures var r, error := Data(s, e, cfg).replies, if e.claimError then [Error(RefusalCode(s, e))] else [];
            r == if |e.data| == cfg.packetSize && PassesCheck(s, e) && WrittenInPart(s, |received|, e, cfg)
                 then error + (if e.claimAck then [Ack(0)] else if e.claimLate then [Error(0x800B)] else [])
                 else if OnlyAckMissing(s, |received|, e, cfg) then if e.claimLate then [Error(0x800B)] else []
                 else error
  {
    if e.data == [] || !PassesCheck(s, e) {
      UnreadReplies(s, e, cfg);
      FitsPasses(s, received, e);
    } else {
      Copied(s, received, e, cfg);
      var w := FWrite(s, e.data, e.okWrites, cfg);
      TookReplies(w.foe.(total := (w.foe.total + w.copied) % Two32), w.copied, e, cfg);
    }
  }

  lemma FitsPasses(s: Foe, received: seq<byte>, e: Packet)
    requires s.position == |received| <= s.end
    ensures Fits(s, |received|, e) ==> PassesCheck(s, e)
  {
  }

  /** After a refused packet the file is not open any more, and nothing of it is left in the buffer. */
  lemma RefusalCloses(s: Foe, e: Packet, cfg: Config)
    requires s.position <= s.end && Data(s, e, cfg).aborted
    ensures var t := Data(s, e, cfg).foe; t.phase == Ready && t.position == 0 && t.buffer == []
  {
  }

  /**
   A refused packet is acknowledged all the same exactly if it is a full packet that passes the size
   check, is written in part, and finds a buffer. The acknowledgement then carries the packet number 0
   of the state just reset.
   */
  lemma RefusedYetAckedIff(s: Foe, received: seq<byte>, e: Packet, cfg: Config)
    requires ValidConfig(cfg) && s.phase == WaitForData && Streams(s, received, cfg) && |e.data| <= 0xFFFF
    requires Data(s, e, cfg).aborted
    ensures (exists n :: Ack(n) in Data(s, e, cfg).replies) <==>
              && |e.data| == cfg.packetSize && PassesCheck(s, e) && WrittenInPart(s, |received|, e, cfg)
              && e.claimAck
    ensures forall n | Ack(n) in Data(s, e, cfg).replies :: n == 0
  {
    RefusalReplies(s, received, e, cfg);
    var r := Data(s, e, cfg).replies;
    if |e.data| == cfg.packetSize && PassesCheck(s, e) && WrittenInPart(s, |received|, e, cfg) && e.claimAck {
      assert r[|r| - 1] == Ack(0);
    }
  }

  /** Whether the bytes of a packet that fits are all written. */
  lemma WriteOutcome(s: Foe, received: seq<byte>, e: Packet, cfg: Config)
    requires ValidConfig(cfg) && Streams(s, received, cfg)
    ensures |received| + |e.data| > s.end ==> FWrite(s, e.data, e.okWrites, cfg).copied < |e.data|
    ensures |received| + |e.data| <= s.end ==>
              var w := FWrite(s, e.data, e.okWrites, cfg);
              && (w.failed <==> (|received| + |e.data|) / cfg.bufferSize > |received| / cfg.bufferSize + e.okWrites)
              && (w.failed ==> w.copied < |e.data|) && (!w.failed ==> w.copied == |e.data|)
  {
    FWriteStreams(s, received, e.data, e.okWrites, cfg);
  }
}

/** The FoE handlers over mutable state, as esc_foe.c has them. */
module Foe {
  import opened Base
  import opened FoeSpec

  class Server {
    var foestate: Phase
    var fbufposition: nat      // uint16_t
    var foepacket: u32
    var fposition: u32
    var fend: u32
    const fbuffer: array<byte>
    var addressOffset: u32     // of the open file
    var totalSize: u32
    const cfg: Config
    ghost var blocks: seq<seq<byte>>   // what write_function was given since the file was opened

    ghost predicate Valid()
      reads this, fbuffer
    {
      && ValidConfig(cfg) && fbuffer.Length >= cfg.bufferSize && fbufposition < cfg.bufferSize
      && fposition <= fend
    }

    ghost function Abs(): FoeSpec.Foe
      requires fbufposition <= fbuffer.Length
      reads this, fbuffer
    {
      FoeSpec.Foe(foestate, foepacket, fposition, fend, addressOffset, totalSize, fbuffer[..fbufposition], blocks)
    }

    constructor (cfg: Config, buffer: array<byte>)
      requires ValidConfig(cfg) && buffer.Length >= cfg.bufferSize
      ensures Valid() && this.cfg == cfg && fbuffer == buffer
      ensures Abs() == FoeSpec.Foe(Ready, 0, 0, 0, 0, 0, [], [])
    {
      this.cfg, fbuffer := cfg, buffer;
      foestate, fbufposition, foepacket, fposition, fend := Ready, 0, 0, 0, 0;
      addressOffset, totalSize, blocks := 0, 0, [];
    }

    /** FOE_init. */
    method Init()
      requires Valid()
      modifies this
      ensures Valid() && Abs() == Reset(old(Abs()))
    {
      foepacket := 0;
      foestate := Ready;
      fposition := 0;
      fbufposition := 0;
    }

    /** FOE_abort. */
    method AbortTransfer(code: u32, claimed: bool) returns (replies: seq<Reply>)
      requires Valid()
      modifies this
      ensures Valid() && Step(Abs(), replies, true) == Abort(old(Abs()), code, claimed)
    {
      replies := [];
      if code != 0 {
        if claimed {
          replies := [Error(code)];
        }
      }
      Init();
    }

    /** FOE_send_ack. */
    method Acknowledgement(claimed: bool) returns (replies: seq<Reply>)
      requires Valid()
      modifies this
      ensures Valid()
      ensures Abs() == if claimed then SendAck(old(Abs())) else old(Abs())
      ensures replies == if claimed then [Ack(old(foepacket))] else []
    {
      replies := [];
      if claimed {
        replies := [Ack(foepacket)];
        foepacket := (foepacket + 1) % Two32;
      }
    }

    /** One byte into the flush buffer, which is written when it is full; left writes will succeed. */
    method PutByte(b: byte, left: nat) returns (failed: bool, rest: nat)
      requires Valid() && fposition < fend
      modifies this, fbuffer
      ensures Valid() && Abs() == Put(old(Abs()), b, cfg) && totalSize == old(totalSize) && fend == old(fend)
      ensures failed == (Flushes(old(Abs()), cfg) && left == 0)
      ensures !failed ==> rest == if Flushes(old(Abs()), cfg) then left - 1 else left
    {
      ghost var before := Abs();
      failed, rest := false, left;
      fbuffer[fbufposition] := b;
      fbufposition := fbufposition + 1;
      assert fbuffer[..fbufposition] == before.buffer + [b];
      if fbufposition >= cfg.bufferSize {
        failed := left == 0;
        blocks := blocks + [fbuffer[..fbufposition]];
        fbufposition := 0;
        addressOffset := (addressOffset + cfg.bufferSize) % Two32;
        rest := if failed then 0 else left - 1;
      }
      fposition := fposition + 1;
    }

    /** FOE_fwrite; the first okWrites calls of write_function succeed. */
    method Write(data: seq<byte>, okWrites: nat) returns (ncopied: nat)
      requires Valid()
      modifies this, fbuffer
      ensures Valid()
      ensures var w := FWrite(old(Abs()), data, okWrites, cfg);
              && ncopied == w.copied
              && Abs() == w.foe.(total := (w.foe.total + w.copied) % Two32)
    {
      ghost var s0 := Abs();
      ghost var whole := FWrite(s0, data, okWrites, cfg);
      ncopied := 0;
      var failed := false;
      var length, at, left := |data|, 0, okWrites;
      while length > 0 && fend - fposition != 0 && !failed
        invariant Valid() && length >= 0 && at >= 0 && left >= 0 && length + at == |data|
        invariant totalSize == old(totalSize) && fend == old(fend)
        invariant !failed ==> at == ncopied
        invariant !failed ==> (var rest := FWrite(Abs(), data[at..], left, cfg);
                               whole == rest.(copied := rest.copied + at))
        invariant failed ==> whole == Written(Abs(), ncopied, true)
        decreases length
      {
        length := length - 1;
        failed, left := PutByte(data[at], left);
        assert data[at..][1..] == data[at + 1..];
        at := at + 1;
        if !failed {
          ncopied := ncopied + 1;
        }
      }
      totalSize := (totalSize + ncopied) % Two32;
    }

    /** FOE_fclose. */
    method Close()
      requires Valid()
      modifies this
      ensures Valid() && Abs() == FClose(old(Abs()))
    {
      blocks := blocks + [fbuffer[..fbufposition]];
      addressOffset := (addressOffset + fbufposition) % Two32;
      fbufposition := 0;
    }

    /** FOE_write, with the outcome of FOE_fopen. */
    method WriteRequest(code: u32, maxData: u32, claimError: bool, claimAck: bool)
      returns (replies: seq<Reply>, ghost aborted: bool)
      requires Valid()
      modifies this
      ensures Valid() && Step(Abs(), replies, aborted) == Open(old(Abs()), code, maxData, claimError, claimAck)
    {
      aborted := true;
      if foestate != Ready {
        replies := AbortTransfer(ErrIllegal, claimError);
        return;
      }
      Init();
      if code == 0 {
        addressOffset, totalSize, fposition, fend := 0, 0, 0, maxData;
        blocks := [];
        replies := Acknowledgement(claimAck);
        if !claimAck {
          replies := AbortTransfer(ErrProg, claimError);
        } else {
          foestate := WaitForData;
          aborted := false;
        }
      } else {
        replies := AbortTransfer(code, claimError);
      }
    }

    /** FOE_data. */
    method DataRequest(e: Packet) returns (replies: seq<Reply>, ghost aborted: bool)
      requires Valid()
      modifies this, fbuffer
      ensures Valid() && Step(Abs(), replies, aborted) == Data(old(Abs()), e, cfg)
    {
      aborted := true;
      if foestate != WaitForData {
        replies := AbortTransfer(ErrIllegal, e.claimError);
        return;
      }
      if e.number != foepacket {
        replies := AbortTransfer(ErrPacketNo, e.claimError);
      } else if |e.data| == 0 {
        Close();
        replies := Acknowledgement(e.claimAck);
        Init();
        aborted := false;
      } else if (fposition + |e.data|) % Two32 > fend {
        replies := AbortTransfer(ErrDiskFull, e.claimError);
      } else {
        var ncopied := Write(e.data, e.okWrites);
        if ncopied == 0 {
          replies := AbortTransfer(ErrProg, e.claimError);
        } else if |e.data| == cfg.packetSize {
          replies, aborted := EndFull(ncopied, e);
        } else {
          replies, aborted := EndLast(ncopied, e);
        }
      }
    }

    /** The part of FOE_data behind a full packet. */
    method EndFull(ncopied: nat, e: Packet) returns (replies: seq<Reply>, ghost aborted: bool)
      requires Valid()
      modifies this
      ensures Valid() && Step(Abs(), replies, aborted) == TookFull(old(Abs()), ncopied, e)
    {
      replies := [];
      aborted := false;
      if ncopied != |e.data| {
        replies := AbortTransfer(ErrProg, e.claimError);
        aborted := true;
      }
      var more := Acknowledgement(e.claimAck);
      if !e.claimAck {
        more := AbortTransfer(ErrProg, e.claimLate);
        aborted := true;
      }
      replies := replies + more;
    }

    /** The part of FOE_data behind a shorter packet. */
    method EndLast(ncopied: nat, e: Packet) returns (replies: seq<Reply>, ghost aborted: bool)
      requires Valid()
      modifies this
      ensures Valid() && Step(Abs(), replies, aborted) == TookLast(old(Abs()), ncopied, e)
    {
      aborted := true;
      var ok := ncopied == |e.data|;
      if ok {
        Close();
        ok := e.closeOk;
      }
      if !ok {
        replies := AbortTransfer(ErrProg, e.claimError);
      } else {
        replies := Acknowledgement(e.claimAck);
        Init();
        aborted := false;
      }
    }
  }
}
