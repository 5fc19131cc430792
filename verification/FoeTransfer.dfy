/** A whole file over FoE, from the write request to the packet that ends it: when it is taken. */
module FoeTransfer {
  import opened Base
  import opened FoeSpec

  /**
   A write request. It opens the file, with as many bytes to come as the file may have, and is acknowledged as
   packet 0, if and only if no transfer is under way, the file was found and a mailbox buffer is free. If not,
   it is answered with the code of what was wrong, and no transfer is under way after it.
   */
  lemma OpenLaw(s: Foe, code: u32, maxData: u32, claimError: bool, claimAck: bool)
    ensures var r := Open(s, code, maxData, claimError, claimAck);
            && (r.aborted <==> s.phase != Ready || code != 0 || !claimAck)
            && (!r.aborted ==> Opened(r.foe) && r.foe.end == maxData && r.replies == [Ack(0)])
            && (r.aborted ==> r.foe.phase == Ready && r.foe.packet == 0 && r.foe.position == 0 && r.foe.buffer == []
                              && r.replies == if !claimError then []
                                              else if s.phase != Ready then [Error(0x8004)]
                                              else if code != 0 then [Error(code)]
                                              else [Error(0x800B)])
  {
  }

  /** A packet outside a transfer is refused as illegal. */
  lemma NotOpen(s: Foe, e: Packet, cfg: Config)
    requires s.phase == Ready && s.position <= s.end
    ensures var r := Data(s, e, cfg);
            && r.aborted && r.replies == (if e.claimError then [Error(0x8004)] else [])
            && r.foe == s.(packet := 0, position := 0, buffer := [])
  {
  }

  // ---------------------------------------------------------------- the packets of a file

  /** Nothing goes wrong with a packet: its writes succeed, and a buffer is free for the acknowledgement. */
  predicate Faultless(e: Packet) {
    e.okWrites >= |e.data| && e.closeOk && e.claimAck
  }

  /** The file cut into full packets and a last one that is shorter, possibly empty, numbered from 1. */
  ghost predicate Cuts(es: seq<Packet>, file: seq<byte>, cfg: Config) {
    && es != [] && Payload(es) == file && |es[|es| - 1].data| < cfg.packetSize
    && forall i | 0 <= i < |es| :: es[i].number == i + 1 && (i < |es| - 1 ==> |es[i].data| == cfg.packetSize)
  }

  /** The packets a master cuts a file into. */
  function Packets(file: seq<byte>, first: u32, cfg: Config): (es: seq<Packet>)
    requires ValidConfig(cfg) && first + |file| < Two32
    ensures es != []
    decreases |file|
  {
    var n := cfg.packetSize;
    if |file| < n then [Packet(first, file, |file|, true, true, true, true)]
    else [Packet(first, file[..n], n, true, true, true, true)] + Packets(file[n..], first + 1, cfg)
  }

  lemma {:induction false} PayloadCons(e: Packet, es: seq<Packet>)
    ensures Payload([e] + es) == e.data + Payload(es)
  {
    if es == [] {
      assert [e] + es == [e] && [e][..0] == [];
    } else {
      var n := |es| - 1;
      PayloadCons(e, es[..n]);
      assert ([e] + es)[..n + 1] == [e] + es[..n];
    }
  }

  lemma {:induction false} PacketsCarry(file: seq<byte>, first: u32, cfg: Config)
    requires ValidConfig(cfg) && first + |file| < Two32
    ensures Payload(Packets(file, first, cfg)) == file
    decreases |file|
  {
    var n := cfg.packetSize;
    if |file| < n {
      PayloadOne(Packet(first, file, |file|, true, true, true, true));
    } else {
      var e, rest := Packet(first, file[..n], n, true, true, true, true), Packets(file[n..], first + 1, cfg);
      PacketsCarry(file[n..], first + 1, cfg);
      assert Packets(file, first, cfg) == [e] + rest;
      PayloadCons(e, rest);
      Rejoin(file, n);
    }
  }

  lemma PayloadOne(e: Packet)
    ensures Payload([e]) == e.data
  {
    assert [e][..0] == [];
  }

  lemma Rejoin(file: seq<byte>, n: nat)
    requires n <= |file|
    ensures file[..n] + file[n..] == file
  {
  }

  lemma {:induction false} PacketAt(file: seq<byte>, first: u32, cfg: Config, i: nat)
    requires ValidConfig(cfg) && first + |file| < Two32 && i < |Packets(file, first, cfg)|
    ensures var es := Packets(file, first, cfg);
            && es[i].number == first + i && Faultless(es[i])
            && (if i < |es| - 1 then |es[i].data| == cfg.packetSize else |es[i].data| < cfg.packetSize)
    decreases |file|
  {
    if |file| >= cfg.packetSize && i > 0 {
      PacketAt(file[cfg.packetSize..], first + 1, cfg, i - 1);
    }
  }

  /** Every file is cut into packets. */
  lemma PacketsCut(file: seq<byte>, cfg: Config)
    requires ValidConfig(cfg) && 1 + |file| < Two32
    ensures var es := Packets(file, 1, cfg); Cuts(es, file, cfg) && forall i | 0 <= i < |es| :: Faultless(es[i])
  {
    var es := Packets(file, 1, cfg);
    PacketsCarry(file, 1, cfg);
    forall i | 0 <= i < |es|
      ensures es[i].number == 1 + i && Faultless(es[i])
      ensures if i < |es| - 1 then |es[i].data| == cfg.packetSize else |es[i].data| < cfg.packetSize
    {
      PacketAt(file, 1, cfg, i);
    }
  }

  // ---------------------------------------------------------------- when a file is taken

  /** The states of a server that handles these packets one after the other. */
  ghost predicate Session(ss: seq<Foe>, es: seq<Packet>, cfg: Config) {
    && |ss| == |es| + 1
    && forall i | 0 <= i < |es| :: Handles(ss[i], es[i], ss[i + 1], cfg)
  }

  predicate Handles(s: Foe, e: Packet, s': Foe, cfg: Config) {
    s.position <= s.end && s' == Data(s, e, cfg).foe
  }

  predicate Refuses(s: Foe, e: Packet, cfg: Config) {
    s.position <= s.end && Data(s, e, cfg).aborted
  }

  lemma BlocksAtMost(received: nat, n: nat, size: nat)
    requires size > 0
    ensures (received + n) / size <= received / size + n
  {
    var q, r := received / size, received % size;
    assert received == size * q + r;
    MulMonotone(1, size, n);
    assert size * (q + n) + r == size * q + size * n + r;
    DivMonotone(received + n, size * (q + n) + r, size);
    DivUnique(size * (q + n) + r, q + n, r, size);
  }

  /** Without any other fault a packet is refused exactly if its bytes do not fit. */
  lemma FitsIff(s: Foe, received: seq<byte>, n: nat, end: nat, e: Packet, cfg: Config)
    requires ValidConfig(cfg) && OpenAfter(s, received, n, end, cfg) && Faultless(e) && e.number == n + 1
    requires |e.data| <= cfg.packetSize
    ensures Refuses(s, e, cfg) <==> |received| + |e.data| > end
  {
    BlocksAtMost(|received|, |e.data|, cfg.bufferSize);
    RefusedIff(s, received, e, cfg);
  }

  /** It is then answered as too long for the file, as far as the 32-bit sum shows it. */
  lemma TooLong(s: Foe, received: seq<byte>, n: nat, end: nat, e: Packet, cfg: Config)
    requires ValidConfig(cfg) && OpenAfter(s, received, n, end, cfg) && e.number == n + 1 && e.data != []
    requires end < |received| + |e.data| < Two32 && |e.data| <= cfg.packetSize
    ensures Refuses(s, e, cfg) && Data(s, e, cfg).replies == if e.claimError then [Error(0x8003)] else []
  {
    RefusedIff(s, received, e, cfg);
    RefusalReplies(s, received, e, cfg);
  }

  /** A full packet that is not refused leaves the file open, acknowledged. */
  lemma FullGoesOn(s: Foe, received: seq<byte>, n: nat, end: nat, e: Packet, cfg: Config)
    requires ValidConfig(cfg) && OpenAfter(s, received, n, end, cfg) && !Refuses(s, e, cfg)
    requires |e.data| == cfg.packetSize && n < Two32 - 2
    ensures OpenAfter(Data(s, e, cfg).foe, received + e.data, n + 1, end, cfg)
    ensures Data(s, e, cfg).replies == [Ack(n + 1)]
  {
    FWriteKeepsPhase(s, e.data, e.okWrites, cfg);
    OpenNext(s, received, n, end, e, Data(s, e, cfg).foe, cfg);
    StaysOpen(s, received, e, Data(s, e, cfg).foe, cfg);
  }

  /** The packet that ends a file, if it is not refused, closes it, with all bytes passed on. */
  lemma LastCloses(s: Foe, received: seq<byte>, n: nat, end: nat, e: Packet, cfg: Config)
    requires ValidConfig(cfg) && OpenAfter(s, received, n, end, cfg) && !Refuses(s, e, cfg)
    requires |e.data| < cfg.packetSize && e.claimAck && e.number == n + 1
    ensures var r := Data(s, e, cfg);
            && r.foe.phase == Ready && AllWritten(r.foe, received + e.data, cfg.bufferSize)
            && r.replies == [Ack(n + 1)]
  {
    FWriteKeepsPhase(s, e.data, e.okWrites, cfg);
    LastAcked(s, e, cfg);
    Closes(s, received, e, cfg);
  }

  /** It is acknowledged if there is a buffer, and the file is closed all the same. */
  lemma LastAcked(s: Foe, e: Packet, cfg: Config)
    requires s.phase == WaitForData && s.position <= s.end && !Data(s, e, cfg).aborted
    requires |e.data| != cfg.packetSize
    ensures Data(s, e, cfg).foe.phase == Ready
    ensures Data(s, e, cfg).replies == if e.claimAck then [Ack(e.number)] else []
  {
    FWriteKeepsPacket(s, e.data, e.okWrites, cfg);
  }

  lemma {:induction false} FWriteKeepsPacket(s: Foe, data: seq<byte>, okWrites: nat, cfg: Config)
    requires s.position <= s.end
    ensures FWrite(s, data, okWrites, cfg).foe.packet == s.packet
    decreases |data|
  {
    if data != [] && s.position != s.end && !(Flushes(s, cfg) && okWrites == 0) {
      FWriteKeepsPacket(Put(s, data[0], cfg), data[1..], if Flushes(s, cfg) then okWrites - 1 else okWrites, cfg);
    }
  }

  /** While no packet of a file is refused, it stays open, and every packet is acknowledged. */
  lemma {:induction false} OpenUpTo(ss: seq<Foe>, es: seq<Packet>, n: nat, cfg: Config)
    requires ValidConfig(cfg) && Session(ss, es, cfg) && Opened(ss[0]) && Cuts(es, Payload(es), cfg) && n < |es|
    requires forall i | 0 <= i < n :: !Refuses(ss[i], es[i], cfg)
    ensures OpenAfter(ss[n], Payload(es[..n]), n, ss[0].end, cfg)
    ensures n > 0 ==> Data(ss[n - 1], es[n - 1], cfg).replies == [Ack(n)]
  {
    if n > 0 {
      var i := n - 1;
      OpenUpTo(ss, es, i, cfg);
      assert Handles(ss[i], es[i], ss[i + 1], cfg) && es[i].number == i + 1 && |es[i].data| == cfg.packetSize;
      assert es[i + 1].number == i + 2;
      FullGoesOn(ss[i], Payload(es[..i]), i, ss[0].end, es[i], cfg);
      PayloadNext(es, n);
    } else {
      assert es[..0] == [];
    }
  }

  lemma {:induction false} PayloadGrows(es: seq<Packet>, n: nat)
    requires n <= |es|
    ensures |Payload(es[..n])| <= |Payload(es)|
    decreases |es| - n
  {
    if n < |es| {
      PayloadNext(es, n + 1);
      PayloadGrows(es, n + 1);
    } else {
      assert es[..n] == es;
    }
  }

  /** Where a packet of a file is the first to be refused, the bytes up to it do not fit, and only there. */
  lemma RefusedAt(ss: seq<Foe>, es: seq<Packet>, n: nat, cfg: Config)
    requires ValidConfig(cfg) && Session(ss, es, cfg) && Opened(ss[0]) && Cuts(es, Payload(es), cfg) && n < |es|
    requires Faultless(es[n]) && forall i | 0 <= i < n :: !Refuses(ss[i], es[i], cfg)
    ensures Refuses(ss[n], es[n], cfg) <==> |Payload(es[..n + 1])| > ss[0].end
    ensures Refuses(ss[n], es[n], cfg) && |Payload(es[..n + 1])| < Two32 ==>
              Data(ss[n], es[n], cfg).replies == if es[n].claimError then [Error(0x8003)] else []
  {
    OpenUpTo(ss, es, n, cfg);
    PayloadNext(es, n + 1);
    FitsIff(ss[n], Payload(es[..n]), n, ss[0].end, es[n], cfg);
    if Refuses(ss[n], es[n], cfg) && |Payload(es[..n + 1])| < Two32 {
      TooLong(ss[n], Payload(es[..n]), n, ss[0].end, es[n], cfg);
    }
  }

  /** A file is taken: no packet is refused, each is acknowledged by its number, and all bytes are passed on. */
  ghost predicate Taken(ss: seq<Foe>, es: seq<Packet>, file: seq<byte>, cfg: Config)
    requires Session(ss, es, cfg)
  {
    && (forall i | 0 <= i < |es| :: !Refuses(ss[i], es[i], cfg) && Acked(ss[i], es[i], cfg))
    && ss[|es|].phase == Ready && AllWritten(ss[|es|], file, cfg.bufferSize)
  }

  predicate Acked(s: Foe, e: Packet, cfg: Config) {
    s.position <= s.end && Data(s, e, cfg).replies == [Ack(e.number)]
  }

  /** The packet that ends the file, after the others were accepted. */
  lemma EndsFile(ss: seq<Foe>, es: seq<Packet>, n: nat, cfg: Config)
    requires ValidConfig(cfg) && Session(ss, es, cfg) && Opened(ss[0]) && Cuts(es, Payload(es), cfg) && n + 1 == |es|
    requires Faultless(es[n]) && forall i | 0 <= i <= n :: !Refuses(ss[i], es[i], cfg)
    ensures ss[n + 1].phase == Ready && AllWritten(ss[n + 1], Payload(es), cfg.bufferSize)
    ensures Acked(ss[n], es[n], cfg)
  {
    OpenUpTo(ss, es, n, cfg);
    assert Handles(ss[n], es[n], ss[n + 1], cfg) && es[n].number == n + 1;
    PayloadNext(es, n + 1);
    assert es[..n + 1] == es;
    LastCloses(ss[n], Payload(es[..n]), n, ss[0].end, es[n], cfg);
  }

  lemma AckedAt(ss: seq<Foe>, es: seq<Packet>, i: nat, cfg: Config)
    requires ValidConfig(cfg) && Session(ss, es, cfg) && Opened(ss[0]) && Cuts(es, Payload(es), cfg) && i + 1 < |es|
    requires forall k | 0 <= k <= i :: !Refuses(ss[k], es[k], cfg)
    ensures Acked(ss[i], es[i], cfg)
  {
    OpenUpTo(ss, es, i + 1, cfg);
    assert Handles(ss[i], es[i], ss[i + 1], cfg) && es[i].number == i + 1;
  }

  lemma TakenIfNoneRefused(ss: seq<Foe>, es: seq<Packet>, file: seq<byte>, cfg: Config)
    requires ValidConfig(cfg) && Session(ss, es, cfg) && Opened(ss[0]) && Cuts(es, file, cfg)
    requires forall i | 0 <= i < |es| :: Faultless(es[i])
    requires forall i | 0 <= i < |es| :: !Refuses(ss[i], es[i], cfg)
    ensures Taken(ss, es, file, cfg)
  {
    EndsFile(ss, es, |es| - 1, cfg);
    forall i | 0 <= i < |es| ensures Acked(ss[i], es[i], cfg) {
      if i + 1 < |es| {
        AckedAt(ss, es, i, cfg);
      }
    }
  }

  lemma {:induction false} NoneRefused(ss: seq<Foe>, es: seq<Packet>, n: nat, cfg: Config)
    requires ValidConfig(cfg) && Session(ss, es, cfg) && Opened(ss[0]) && Cuts(es, Payload(es), cfg) && n <= |es|
    requires |Payload(es)| <= ss[0].end && forall i | 0 <= i < |es| :: Faultless(es[i])
    ensures forall i | 0 <= i < n :: !Refuses(ss[i], es[i], cfg)
  {
    if n > 0 {
      NoneRefused(ss, es, n - 1, cfg);
      PayloadGrows(es, n);
      RefusedAt(ss, es, n - 1, cfg);
    }
  }

  /**
   From the request on: a server that is ready opens a file that is found, and then, if nothing else goes wrong,
   takes the file with its bytes in order exactly if it is at most as long as the file may be.
   */
  lemma FileTakenIff(s: Foe, maxData: u32, claimError: bool, ss: seq<Foe>, es: seq<Packet>, file: seq<byte>,
                     cfg: Config)
    requires ValidConfig(cfg) && s.phase == Ready && Session(ss, es, cfg) && Cuts(es, file, cfg)
    requires ss[0] == Open(s, 0, maxData, claimError, true).foe && forall i | 0 <= i < |es| :: Faultless(es[i])
    ensures Taken(ss, es, file, cfg) <==> |file| <= maxData
  {
    OpenLaw(s, 0, maxData, claimError, true);
    if |file| <= maxData {
      NoneRefused(ss, es, |es|, cfg);
      TakenIfNoneRefused(ss, es, file, cfg);
    } else if Taken(ss, es, file, cfg) {
      var n := |es| - 1;
      assert es[..n + 1] == es;
      RefusedAt(ss, es, n, cfg);
    }
  }
}
