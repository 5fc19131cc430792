/**
 Ethernet over EtherCAT fragmentation, section 5.7 of ETG.1000.6, as the stack codes it:
 EOE_send_fragment cuts a frame into fragments with a 6-bit fragment number, a 6-bit offset in
 32-byte blocks and a 4-bit frame number; EOE_receive_fragment puts them together again.
 */
module EoeSpec {
  import opened Base

  const EoeHeaderSize := 4
  /** The longest frame whose size in 32-byte blocks fits the 6-bit field. */
  const MaxFrame := 63 * 32

  // ---------------------------------------------------------------- header words

  datatype Fragment = Fragment(info1: u16, info2: u16, data: seq<byte>)

  function Port(info1: u16): nat { info1 / 16 % 16 }

  predicate IsLast(info1: u16) { info1 / 256 % 2 == 1 }

  predicate TimeAppended(info1: u16) { info1 / 512 % 2 == 1 }

  function FragNo(info2: u16): nat { info2 % 64 }

  function FrameOffset(info2: u16): nat { info2 / 64 % 64 }

  function FrameNo(info2: u16): nat { info2 / 4096 % 16 }

  function Info1(last: bool): u16 { if last then 256 else 0 }

  /** The three masked fields occupy disjoint bits, so their union is their sum. */
  function Info2(fragNo: nat, offset: nat, frameNo: nat): u16 {
    fragNo % 64 + 64 * (offset % 64) + 4096 * (frameNo % 16)
  }

  /** Each header field reads back as what was stored in it, reduced to the field's width. */
  lemma HeaderFields(fragNo: nat, offset: nat, frameNo: nat, last: bool)
    ensures FragNo(Info2(fragNo, offset, frameNo)) == fragNo % 64
    ensures FrameOffset(Info2(fragNo, offset, frameNo)) == offset % 64
    ensures FrameNo(Info2(fragNo, offset, frameNo)) == frameNo % 16
    ensures IsLast(Info1(last)) == last && !TimeAppended(Info1(last)) && Port(Info1(last)) == 0
    ensures Info1(last) == Word1(0, 0, last, false)
  {
    var a, b, c := fragNo % 64, offset % 64, frameNo % 16;
    assert Info2(fragNo, offset, frameNo) / 64 == b + 64 * c;
    assert Info2(fragNo, offset, frameNo) / 4096 == c;
  }

  // ---------------------------------------------------------------- how a frame is cut

  /** Whole 32-byte blocks that fit one mailbox of `mbx` bytes. */
  function Chunk(mbx: nat): nat
    requires 42 <= mbx
  {
    (mbx - EoeHeaderSize - MbxHeaderSize) / 32 * 32
  }

  /** Number of fragments a frame of n bytes takes. */
  function Count(n: nat, mbx: nat): (c: nat)
    requires 42 <= mbx
    ensures c >= 1
    decreases n
  {
    if n + 10 <= mbx then 1 else 1 + Count(n - Chunk(mbx), mbx)
  }

  /** Where the bytes of fragment k start. */
  function At(k: nat, mbx: nat): nat
    requires 42 <= mbx
  {
    if k == 0 then 0 else At(k - 1, mbx) + Chunk(mbx)
  }

  /** Fragments before k are whole chunks, and the remainder is cut as a frame of its own. */
  lemma {:induction false} CountAt(n: nat, mbx: nat, k: nat)
    requires 42 <= mbx && k < Count(n, mbx)
    ensures At(k, mbx) <= n && Count(n - At(k, mbx), mbx) == Count(n, mbx) - k
    ensures k + 1 < Count(n, mbx) <==> n - At(k, mbx) + 10 > mbx
    ensures k + 1 < Count(n, mbx) ==> At(k + 1, mbx) < n
  {
    if k > 0 {
      CountAt(n, mbx, k - 1);
    }
  }

  /** A frame the size field can describe takes at most 63 fragments. */
  lemma {:induction false} CountBound(n: nat, mbx: nat)
    requires 42 <= mbx && 1 <= n
    ensures Count(n, mbx) <= (n + 31) / 32
    ensures n <= MaxFrame ==> Count(n, mbx) <= 63
    decreases n
  {
    if n + 10 > mbx {
      CountBound(n - Chunk(mbx), mbx);
    }
  }

  /** Fragment k of a frame, sent under number frameNo: its header and the bytes it carries. The
      sender's fragment counter is 8 bits wide, so fragments 256, 512, .. again carry the size. */
  function FragAt(frame: seq<byte>, mbx: nat, frameNo: nat, k: nat): Fragment
    requires 42 <= mbx && k < Count(|frame|, mbx)
  {
    CountAt(|frame|, mbx, k);
    var last := k + 1 == Count(|frame|, mbx);
    Fragment(Info1(last),
             Info2(k % 256, if k % 256 > 0 then At(k, mbx) / 32 else (|frame| + 31) / 32, frameNo),
             frame[At(k, mbx)..if last then |frame| else At(k + 1, mbx)])
  }

  /** The fragments of a frame from number k on, when fragment 0 carries number base. */
  function FragsFrom(frame: seq<byte>, mbx: nat, base: nat, k: nat): seq<Fragment>
    requires 42 <= mbx && k <= Count(|frame|, mbx)
  {
    var c := Count(|frame|, mbx);
    seq(c - k, j requires 0 <= j < c - k => Numbered(frame, mbx, base, k + j))
  }

  /** Fragment n of a frame; every 256 fragments the frame number moves on. */
  function Numbered(frame: seq<byte>, mbx: nat, base: nat, n: nat): Fragment
    requires 42 <= mbx && n < Count(|frame|, mbx)
  {
    FragAt(frame, mbx, base + n / 256, n)
  }

  // ---------------------------------------------------------------- the sender

  /** The transmit half of EOEvar and the static frame counter: the frame being sent, how many of
      its fragments are out, and the running frame number, of which the code keeps 8 bits. */
  datatype Tx = Tx(frame: Option<seq<byte>>, sent: nat, frameNo: nat)

  const TxInit := Tx(None, 0, 0)

  /** What one call of EOE_send_fragment meets: the frame the application offers, if asked, and
      whether a mailbox buffer is free. */
  datatype TxEvent = TxEvent(fetched: Option<seq<byte>>, claimed: bool)

  predicate TxValid(s: Tx, mbx: nat)
    requires 42 <= mbx
  {
    match s.frame
    case None => s.sent == 0
    case Some(f) => 1 <= |f| && s.sent < Count(|f|, mbx)
  }

  predicate Usable(fetched: Option<seq<byte>>) {
    fetched.Some? && |fetched.value| > 0
  }

  function Fetch(s: Tx, fetched: Option<seq<byte>>): Tx {
    if s.frame.None? && Usable(fetched) then s.(frame := fetched) else s
  }

  /** The frame number the next fragment goes out under. */
  function NextNo(s: Tx): nat {
    if s.sent % 256 == 0 then s.frameNo + 1 else s.frameNo
  }

  /** One call: at most one fragment of the current frame leaves. */
  function TxStep(s: Tx, mbx: nat, e: TxEvent): (r: (Tx, Option<Fragment>))
    requires 42 <= mbx && TxValid(s, mbx)
    ensures TxValid(r.0, mbx)
  {
    var s := Fetch(s, e.fetched);
    if s.frame.None? || !e.claimed then (s, None)
    else
      var f := s.frame.value;
      var done := s.sent + 1 == Count(|f|, mbx);
      (Tx(if done then None else s.frame, if done then 0 else s.sent + 1, NextNo(s)),
       Some(FragAt(f, mbx, NextNo(s), s.sent)))
  }

  // ---------------------------------------------------------------- the receiver

  /** The receive half of EOEvar; data is what the buffer holds below rxframeoffset. */
  datatype Rx = Rx(hasBuf: bool, fragNo: nat, size: nat, frameNo: nat, data: seq<byte>)

  /** What handle_recv_buffer is given: the port, rxebuf.len, and the bytes stored. */
  datatype Delivery = Delivery(port: nat, len: u32, bytes: seq<byte>)

  predicate RxValid(s: Rx) {
    && |s.data| <= s.size <= MaxFrame
    && s.fragNo <= 64
    && (s.fragNo > 0 ==> s.hasBuf)
    && (s.fragNo == 0 ==> s == RxReset(s.hasBuf))
  }

  function RxReset(hasBuf: bool): Rx { Rx(hasBuf, 0, 0, 0, []) }

  /** Whether a fragment continues the frame under assembly. */
  predicate Continues(s: Rx, f: Fragment) {
    && s.fragNo > 0
    && FragNo(f.info2) == s.fragNo
    && FrameNo(f.info2) == s.frameNo
    && FrameOffset(f.info2) * 32 == |s.data|
  }

  /** The frame under assembly before the bytes of f are stored, or None when f is refused. */
  function Accepting(s: Rx, f: Fragment): Option<Rx> {
    if Continues(s, f) then Some(s)
    else if FragNo(f.info2) == 0 && s.hasBuf then
      Some(Rx(true, 0, FrameOffset(f.info2) * 32, FrameNo(f.info2), []))
    else None
  }

  /** One received fragment. alloc says whether get_buffer yields a buffer if it is asked. */
  function RxStep(s: Rx, f: Fragment, alloc: bool): (r: (Rx, Option<Delivery>))
    requires RxValid(s)
    ensures RxValid(r.0)
    ensures alloc ==> (s.hasBuf ==> r.0.hasBuf)
  {
    match Accepting(s, f)
    case None =>
      if s.fragNo == 0 && FragNo(f.info2) > 0 then (s, None)
      else (RxReset(s.hasBuf || alloc), None)
    case Some(a) =>
      if |a.data| + |f.data| > a.size then (RxReset(true), None)
      else
        var stored := a.data + f.data;
        if IsLast(f.info1) then
          var len := if TimeAppended(f.info1) then (|stored| - 4) % 0x1_0000_0000 else |stored|;
          (RxReset(alloc), Some(Delivery(Port(f.info1), len, stored)))
        else (a.(fragNo := a.fragNo + 1, data := stored), None)
  }

  // ---------------------------------------------------------------- what is delivered

  /** The first header word of a fragment: its type, port, and the bits for the last one and for a time stamp. */
  function Word1(kind: nat, port: nat, last: bool, time: bool): nat
    requires kind < 16 && port < 16
  {
    kind + 16 * port + (if last then 0x100 else 0) + (if time then 0x200 else 0)
  }

  lemma Word1Fields(kind: nat, port: nat, last: bool, time: bool)
    requires kind < 16 && port < 16
    ensures var w := Word1(kind, port, last, time);
            Port(w) == port && IsLast(w) == last && TimeAppended(w) == time
  {
    var w := Word1(kind, port, last, time);
    assert w / 256 == (if last then 1 else 0) + (if time then 2 else 0);
    assert w / 512 == if time then 1 else 0;
    assert w / 16 == port + (if last then 16 else 0) + (if time then 32 else 0);
  }

  /**
   A frame is delivered exactly with a fragment that is marked as the last, is accepted and fits; to the port
   of that fragment, with all bytes stored, and a length that leaves out the four bytes of a time stamp. A frame
   too short for its time stamp is delivered with a length just below 4 GiB.
   */
  lemma DeliversIff(s: Rx, f: Fragment, alloc: bool, kind: nat, port: nat, last: bool, time: bool)
    requires RxValid(s) && kind < 16 && port < 16 && f.info1 == Word1(kind, port, last, time)
    ensures var d, a := RxStep(s, f, alloc).1, Accepting(s, f);
            var fits := a.Some? && |a.value.data| + |f.data| <= a.value.size;
            && (d.Some? <==> last && fits)
            && (d.Some? ==> var stored := a.value.data + f.data;
                            d.value == Delivery(port, if !time then |stored|
                                                      else if |stored| >= 4 then |stored| - 4
                                                      else 0xFFFF_FFFC + |stored|, stored))
  {
    Word1Fields(kind, port, last, time);
  }
}

/** The EoE handlers over mutable state, as esc_eoe.c has them. */
module Eoe {
  import opened Base
  import opened EoeSpec

  class Sender {
    var txframe: Option<seq<byte>>   // txebuf.payload; None is the NULL pointer
    var txfragmentno: u8
    var txframesize: nat
    var txframeoffset: nat
    var frameno: u8
    const mbxSize: nat
    ghost var sent: nat              // fragments of the current frame already out
    ghost var started: nat           // the frame number without wrap-around

    ghost predicate Valid()
      reads this
    {
      && 42 <= mbxSize && TxValid(Abs(), mbxSize)
      && txfragmentno == sent % 256 && frameno == started % 256
      && txframeoffset == At(sent, mbxSize)
      && (txframe.None? ==> txframesize == 0)
      && (txframe.Some? ==> txframesize == |txframe.value|)
    }

    ghost function Abs(): Tx
      reads this
    {
      Tx(txframe, sent, started)
    }

    constructor (mbx: nat)
      requires 42 <= mbx
      ensures Valid() && Abs() == TxInit && mbxSize == mbx
    {
      mbxSize := mbx;
      txframe, txfragmentno, txframesize, txframeoffset, frameno, sent, started := None, 0, 0, 0, 0, 0, 0;
    }

    /** EOE_init_tx with free_buffer configured. */
    method InitTx()
      modifies this
      ensures txframe == None && txfragmentno == 0 && txframesize == 0 && txframeoffset == 0 && sent == 0
      ensures frameno == old(frameno) && started == old(started)
    {
      txfragmentno, txframesize, txframeoffset, sent := 0, 0, 0, 0;
      txframe := None;
    }

    /** EOE_send_fragment: fetch a frame if idle, then send one fragment if a buffer is free. */
    method SendFragment(fetched: Option<seq<byte>>, claimed: bool) returns (out: Option<Fragment>)
      requires Valid()
      modifies this
      ensures Valid()
      ensures (Abs(), out) == TxStep(old(Abs()), mbxSize, TxEvent(fetched, claimed))
    {
      out := None;
      if txframe.None? {
        if fetched.Some? && |fetched.value| > 0 {
          txframe := fetched;
          txframesize := |fetched.value|;
        } else {
          return;
        }
      }
      if claimed {
        var f := SendClaimed();
        out := Some(f);
      }
    }

    /** The part of EOE_send_fragment that runs once a mailbox buffer is claimed. */
    method SendClaimed() returns (out: Fragment)
      requires Valid() && txframe.Some?
      modifies this
      ensures Valid()
      ensures (Abs(), Some(out)) == TxStep(old(Abs()), mbxSize, TxEvent(None, true))
    {
      CountAt(|txframe.value|, mbxSize, sent);
      var lenToSend := txframesize - txframeoffset;
      if lenToSend + EoeHeaderSize + MbxHeaderSize > mbxSize {
        lenToSend := (mbxSize - EoeHeaderSize - MbxHeaderSize) / 32 * 32;
      }
      var last := lenToSend == txframesize - txframeoffset;
      assert last == (sent + 1 == Count(|txframe.value|, mbxSize));
      var offset := if txfragmentno > 0 then txframeoffset / 32 else (txframesize + 31) / 32;
      if txfragmentno == 0 {
        Wrap(started);
        frameno := (frameno + 1) % 256;
        started := started + 1;
      }
      Info2Wraps(txfragmentno, offset, started);
      out := Fragment(Info1(last), Info2(txfragmentno, offset, frameno),
                      txframe.value[txframeoffset..txframeoffset + lenToSend]);
      if last {
        InitTx();
      } else {
        txframeoffset := txframeoffset + lenToSend;
        Wrap(sent);
        txfragmentno := (txfragmentno + 1) % 256;
        sent := sent + 1;
      }
    }
  }

  class Receiver {
    var rxebuf: array?<byte>   // rxebuf.payload
    var rxfragmentno: nat
    var rxframesize: nat
    var rxframeoffset: nat
    var rxframeno: nat

    ghost predicate Valid()
      reads this, rxebuf
    {
      && (rxebuf != null ==> rxebuf.Length >= MaxFrame)
      && (rxebuf == null ==> rxfragmentno == 0)
      && (rxfragmentno == 0 ==> rxframesize == 0 && rxframeoffset == 0 && rxframeno == 0)
      && rxframeoffset <= rxframesize <= MaxFrame
      && rxfragmentno <= 64
    }

    ghost function Abs(): (s: Rx)
      requires Valid()
      reads this, rxebuf
      ensures RxValid(s)
    {
      Rx(rxebuf != null, rxfragmentno, rxframesize, rxframeno,
         if rxebuf == null then [] else rxebuf[..rxframeoffset])
    }

    constructor (fetched: array?<byte>)
      requires fetched != null ==> fetched.Length >= MaxFrame
      ensures Valid() && Abs() == RxReset(fetched != null) && rxebuf == fetched
    {
      rxebuf := fetched;
      rxfragmentno, rxframesize, rxframeoffset, rxframeno := 0, 0, 0, 0;
    }

    /** EOE_init_rx; fetched is what get_buffer yields if it is called. */
    method InitRx(fetched: array?<byte>)
      requires rxebuf != null ==> rxebuf.Length >= MaxFrame
      requires fetched != null ==> fetched.Length >= MaxFrame
      modifies this
      ensures Valid()
      ensures rxebuf == if old(rxebuf) == null then fetched else old(rxebuf)
      ensures Abs() == RxReset(rxebuf != null)
    {
      rxfragmentno, rxframesize, rxframeoffset, rxframeno := 0, 0, 0, 0;
      if rxebuf == null {
        rxebuf := fetched;
      }
    }

    /** EOE_receive_fragment up to the size check: whether the fragment belongs to the frame
        under assembly or starts a new one. */
    method Accept(f: Fragment, fetched: array?<byte>) returns (ok: bool)
      requires Valid()
      requires fetched != null ==> fetched.Length >= MaxFrame && fetched != rxebuf
      modifies this
      ensures ok == Accepting(old(Abs()), f).Some?
      ensures !ok ==> Valid() && Abs() == RxStep(old(Abs()), f, fetched != null).0
      ensures !ok ==> rxebuf == old(rxebuf) || rxebuf == fetched
      ensures ok ==> rxebuf == old(rxebuf) != null && rxframeoffset <= rxframesize <= MaxFrame
      ensures ok ==> rxfragmentno <= 63
      ensures ok ==> rxframeoffset <= rxebuf.Length
      ensures ok ==> Accepting(old(Abs()), f)
                     == Some(Rx(true, rxfragmentno, rxframesize, rxframeno, rxebuf[..rxframeoffset]))
    {
      ok := false;
      if rxfragmentno != FragNo(f.info2) {
        if rxfragmentno != 0 {
          InitRx(fetched);
        }
        if FragNo(f.info2) > 0 {
          return;
        }
      }
      if rxfragmentno == 0 {
        rxframesize := FrameOffset(f.info2) * 32;
        if rxebuf != null {
          rxframeoffset := 0;
          rxframeno := FrameNo(f.info2);
        } else {
          InitRx(fetched);
          return;
        }
      } else {
        var offset := FrameOffset(f.info2) * 32;
        if rxframeno != FrameNo(f.info2) {
          InitRx(fetched);
          return;
        } else if rxframeoffset != offset {
          InitRx(fetched);
          return;
        }
      }
      ok := true;
    }

    /** EOE_receive_fragment. A completed frame's buffer is handed over with the length to read;
        the receiver goes on with the buffer fetched, if any. */
    method ReceiveFragment(f: Fragment, fetched: array?<byte>)
      returns (handed: array?<byte>, len: u32, stored: nat)
      requires Valid()
      requires fetched != null ==> fetched.Length >= MaxFrame && fetched != rxebuf
      modifies this, rxebuf
      ensures Valid() && (rxebuf == old(rxebuf) || rxebuf == fetched)
      ensures Abs() == RxStep(old(Abs()), f, fetched != null).0
      ensures handed == if RxStep(old(Abs()), f, fetched != null).1.Some? then old(rxebuf) else null
      ensures handed != null ==>
                && stored <= handed.Length
                && RxStep(old(Abs()), f, fetched != null).1
                   == Some(Delivery(Port(f.info1), len, handed[..stored]))
    {
      handed, len, stored := null, 0, 0;
      var ok := Accept(f, fetched);
      if !ok {
        return;
      }
      if rxframeoffset + |f.data| <= rxframesize {
        CopyIn(rxebuf, rxframeoffset, f.data);
        rxframeoffset := rxframeoffset + |f.data|;
        rxfragmentno := rxfragmentno + 1;
      } else {
        InitRx(fetched);
        return;
      }
      if IsLast(f.info1) {
        handed, len, stored := HandOver(TimeAppended(f.info1), fetched);
      }
    }

    /** The part of EOE_receive_fragment that gives a complete frame away. */
    method HandOver(timeAppended: bool, fetched: array?<byte>) returns (handed: array?<byte>, len: u32, stored: nat)
      requires rxebuf != null && rxframeoffset <= MaxFrame
      requires fetched != null ==> fetched.Length >= MaxFrame
      modifies this
      ensures Valid() && rxebuf == fetched && Abs() == RxReset(fetched != null)
      ensures handed == old(rxebuf) && stored == old(rxframeoffset)
      ensures len == if timeAppended then (stored - 4) % 0x1_0000_0000 else stored
    {
      stored := rxframeoffset;
      len := if timeAppended then (rxframeoffset - 4) % 0x1_0000_0000 else rxframeoffset;
      handed := rxebuf;
      rxebuf := null;
      InitRx(fetched);
    }
  }

  lemma Wrap(k: nat)
    ensures (k + 1) % 256 == (k % 256 + 1) % 256
  {
  }

  lemma Info2Wraps(fragNo: nat, offset: nat, frameNo: nat)
    ensures Info2(fragNo, offset, frameNo % 256) == Info2(fragNo, offset, frameNo)
  {
    assert frameNo % 256 % 16 == frameNo % 16;
  }

  /** memcpy into a buffer at an offset. */
  method CopyIn(a: array<byte>, at: nat, data: seq<byte>)
    requires at + |data| <= a.Length
    modifies a
    ensures a[..] == old(a[..at]) + data + old(a[at + |data|..])
  {
    for i := 0 to |data|
      invariant a[..] == old(a[..at]) + data[..i] + old(a[at + i..])
    {
      a[at + i] := data[i];
    }
  }
}
