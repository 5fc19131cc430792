/**
 Which requests an entry answers: access by the bits of its flags and the AL state, the abort codes, and the
 command bytes of the answers (section 7.2.4 of CiA 301).
 */
module SdoAccess {
  import opened Base
  import opened Dictionary
  import opened PdoMap
  import opened SdoSpec
  import Handlers = Sdo
  import opened CaSpec
  import opened CaTransferSpec

  // ---------------------------------------------------------------- flags

  const Rpre := 0x01
  const Rsafe := 0x02
  const Rop := 0x04
  const Wpre := 0x08
  const Wsafe := 0x10
  const Wop := 0x20
  const OtherFlags := 0x40

  /** What an entry may be read and written in. */
  datatype Rights = Rights(rpre: bool, rsafe: bool, rop: bool, wpre: bool, wsafe: bool, wop: bool)

  function Flag(b: bool, value: nat): nat { if b then value else 0 }

  /** The flags word with these rights, and other flags behind them. */
  function Word(a: Rights, others: nat): nat {
    Flag(a.rpre, Rpre) + Flag(a.rsafe, Rsafe) + Flag(a.rop, Rop)
    + Flag(a.wpre, Wpre) + Flag(a.wsafe, Wsafe) + Flag(a.wop, Wop) + OtherFlags * others
  }

  function RightsOf(flags: nat): Rights {
    Rights(flags % 2 == 1, flags / 2 % 2 == 1, flags / 4 % 2 == 1,
           flags / 8 % 2 == 1, flags / 16 % 2 == 1, flags / 32 % 2 == 1)
  }

  /** Every flags word is one of these. */
  lemma EveryWord(flags: nat)
    ensures flags == Word(RightsOf(flags), flags / 64)
  {
    Halves(flags);
    Half(flags, flags / 2);
    Half(flags / 2, flags / 4);
    Half(flags / 4, flags / 8);
    Half(flags / 8, flags / 16);
    Half(flags / 16, flags / 32);
    Half(flags / 32, flags / 64);
  }

  lemma Half(n: nat, h: nat)
    requires h == n / 2
    ensures n == Flag(n % 2 == 1, 1) + 2 * h
  {
  }

  /** Dividing by a power of two is halving. */
  lemma Halves(n: nat)
    ensures n / 4 == n / 2 / 2 && n / 8 == n / 4 / 2 && n / 16 == n / 8 / 2
    ensures n / 32 == n / 16 / 2 && n / 64 == n / 32 / 2
  {
  }

  lemma LowBit(b: bool, n: nat)
    ensures (Flag(b, 1) + 2 * n) / 2 == n && ((Flag(b, 1) + 2 * n) % 2 == 1 <==> b)
  {
  }

  /** An entry may be read in PREOP, SAFEOP and OP by a bit each. */
  predicate MayRead(a: Rights, alState: nat) {
    match alState
    case 2 => a.rpre
    case 4 => a.rsafe
    case 8 => a.rop
    case _ => false
  }

  predicate MayWrite(a: Rights, alState: nat) {
    match alState
    case 2 => a.wpre
    case 4 => a.wsafe
    case 8 => a.wop
    case _ => false
  }

  /** Six halvings. */
  lemma Chain(w: nat, w1: nat, w2: nat, w3: nat, w4: nat, w5: nat, w6: nat)
    requires w / 2 == w1 && w1 / 2 == w2 && w2 / 2 == w3 && w3 / 2 == w4 && w4 / 2 == w5 && w5 / 2 == w6
    ensures w / 4 == w2 && w / 8 == w3 && w / 16 == w4 && w / 32 == w5 && w / 64 == w6
  {
    Halves(w);
  }

  /** The bits of a word come back. */
  lemma WordBits(a: Rights, others: nat)
    ensures RightsOf(Word(a, others)) == a && Word(a, others) / 64 == others
  {
    var w, w5 := Word(a, others), Flag(a.wop, 1) + 2 * others;
    var w4 := Flag(a.wsafe, 1) + 2 * w5;
    var w3 := Flag(a.wpre, 1) + 2 * w4;
    var w2 := Flag(a.rop, 1) + 2 * w3;
    var w1 := Flag(a.rsafe, 1) + 2 * w2;
    assert w == Flag(a.rpre, 1) + 2 * w1;
    LowBit(a.wop, others);
    LowBit(a.wsafe, w5);
    LowBit(a.wpre, w4);
    LowBit(a.rop, w3);
    LowBit(a.rsafe, w2);
    LowBit(a.rpre, w1);
    Chain(w, w1, w2, w3, w4, w5, others);
  }

  lemma AccessBits(a: Rights, others: nat, alState: nat)
    requires Word(a, others) <= 0xFFFF
    ensures ReadAccess(Word(a, others), alState) <==> MayRead(a, alState)
    ensures WriteAccess(Word(a, others), alState) <==> MayWrite(a, alState)
  {
    WordBits(a, others);
  }

  /**
   A download to an entry is refused for access exactly if the flag of the AL state is clear, or there is none
   for it: as read-only if the entry may be read in all three states and written in none, else as not possible
   in this state. Nothing is stored then, and no transfer begins.
   */
  lemma DownloadAccessIff(s: Sdo, r: Ref, a: Rights, others: nat, dtype: u16, content: seq<Octet>, m: Msg,
                          alState: nat, preCode: u32, postCode: u32)
    requires Word(a, others) <= 0xFFFF && WellFormed(m, dtype, |content|)
    ensures DownloadEntry(s, r, Word(a, others), dtype, content, m, alState, preCode, postCode)
         == if MayWrite(a, alState) then StartDownload(s, r, dtype, content, m, preCode, postCode)
            else Started(s, content, Abort(if a == Rights(true, true, true, false, false, false) then 0x06010002
                                           else 0x08000022))
  {
    AccessBits(a, others, alState);
    ReadOnlyWord(a, others);
  }

  lemma ReadOnlyWord(a: Rights, others: nat)
    ensures Word(a, others) % 64 == 7 <==> a == Rights(true, true, true, false, false, false)
  {
    WordBits(a, others);
    WordBits(Rights(true, true, true, false, false, false), others);
  }

  /** An upload is refused for access exactly if the flag of the AL state is clear, or there is none for it. */
  lemma UploadAccessIff(s: Sdo, r: Ref, a: Rights, others: nat, bits: nat, content: seq<Octet>, mbx: nat,
                        alState: nat, preCode: u32, postCode: u32)
    requires Word(a, others) <= 0xFFFF && |content| == Bytes(bits) && mbx > HeaderSize && |content| < 0x1_0000_0000
    ensures UploadEntry(s, r, Word(a, others), bits, content, mbx, alState, preCode, postCode)
         == if MayRead(a, alState) then StartUpload(s, r, bits, content, mbx, preCode, postCode)
            else (s, Abort(0x06010001))
  {
    AccessBits(a, others, alState);
  }

  const RO := Rpre + Rsafe + Rop
  const WO := Wpre + Wsafe + Wop
  const RW := RO + WO
  const RWpre := Wpre + RO
  const RWop := Wop + RO
  const RWpreSafe := Wpre + Wsafe + RO

  /** The named combinations: where their entries may be written; all but WO may be read in all three states. */
  lemma NamedAccess(alState: nat)
    ensures WriteAccess(RWpre, alState) <==> alState == 2
    ensures WriteAccess(RWop, alState) <==> alState == 8
    ensures WriteAccess(RWpreSafe, alState) <==> alState == 2 || alState == 4
    ensures WriteAccess(RW, alState) <==> alState == 2 || alState == 4 || alState == 8
    ensures WriteAccess(WO, alState) <==> WriteAccess(RW, alState)
    ensures !WriteAccess(RO, alState) && !ReadAccess(WO, alState)
    ensures forall f | f in {RO, RW, RWpre, RWop, RWpreSafe} ::
              ReadAccess(f, alState) <==> alState == 2 || alState == 4 || alState == 8
  {
  }

  /** An entry is found exactly if there is an object with its index and in that a table row with its subindex;
      the abort code tells which one is missing. */
  lemma LocateLaw(dict: seq<Object>, index: u16, sub: u8)
    requires ValidDict(dict) && index != SentinelIndex
    ensures match Handlers.Locate(dict, index, sub)
            case Present(r) =>
              && r.obj < |dict| - 1 && r.entry <= dict[r.obj].maxsub < |dict[r.obj].entries|
              && dict[r.obj].index == index && dict[r.obj].entries[r.entry].subindex == sub
            case NoEntry(code) =>
              if exists i :: 0 <= i < |dict| && dict[i].index == index
              then code == 0x06090011
                   && forall i, k | 0 <= i < |dict| - 1 && dict[i].index == index && 0 <= k <= dict[i].maxsub ::
                        dict[i].entries[k].subindex != sub
              else code == 0x06020000
  {
    FindsSentinelIff(dict, index);
  }

  // ---------------------------------------------------------------- command bytes

  /** The answer to an upload request: expedited with the number of unused bytes, for up to 4; else the size
      follows and the data behind it. */
  lemma UploadCommand(s: Sdo, r: Ref, bits: nat, content: seq<Octet>, mbx: nat)
    requires |content| == Bytes(bits) && mbx > HeaderSize && |content| < 0x1_0000_0000
    ensures match StartUpload(s, r, bits, content, mbx, 0, 0).1
            case Expedited(command, data) =>
              && |content| <= 4 && data == content
              && command == (match |content| case 4 => 0x43 case 3 => 0x47 case 2 => 0x4B case _ => 0x4F)
            case Normal(length, command, total, data) =>
              |content| > 4 && command == 0x41 && length == 10 + |data| && total == |content|
            case _ => false
  {
  }

  /** The hooks' codes: before the access it refuses the upload and begins nothing. The code after the access
      takes the place of the answer, of what is sent in one message. */
  lemma UploadHooks(s: Sdo, r: Ref, bits: nat, content: seq<Octet>, mbx: nat, preCode: u32, postCode: u32)
    requires |content| == Bytes(bits) && mbx > HeaderSize && |content| < 0x1_0000_0000
    ensures var (t, m) := StartUpload(s, r, bits, content, mbx, preCode, postCode);
            var (u, n) := StartUpload(s, r, bits, content, mbx, 0, 0);
            && (preCode != 0 ==> t == s && m == Abort(preCode))
            && (preCode == 0 ==> t == u && m == if postCode != 0 && u.mode == NoSegments then Abort(postCode) else n)
  {
  }

  /**
   The answer to a download request to a writable entry. One of another size is refused, unless its data type is a
   string or an array of integers. A code of the hook before the access refuses it, too, when a shorter visible
   string is cut already; one of the hook after it replaces the answer, of what comes in one message.
   */
  lemma DownloadOutcome(s: Sdo, r: Ref, dtype: u16, content: seq<Octet>, m: Msg, preCode: u32, postCode: u32)
    requires WellFormed(m, dtype, |content|)
    ensures var d := StartDownload(s, r, dtype, content, m, preCode, postCode);
            var n, size := StartDownload(s, r, dtype, content, m, 0, 0), DownloadSize(m);
            if size != |content| && dtype !in {0x0009, 0x000A, 0x000B, 0x0260, 0x0261, 0x0262, 0x0263}
            then d == Started(s, content, Abort(0x06070010))
            else if preCode != 0 then
              && d.sdo == s && d.reply == Abort(preCode)
              && d.content == if dtype == 0x0009 && size != |content|
                              then content[..size] + Zeros(|content| - size) else content
            else
              && d.sdo == n.sdo && d.content == n.content && n.reply == Done(0x60)
              && d.reply == if n.sdo.mode == NoSegments && postCode != 0 then Abort(postCode) else Done(0x60)
  {
  }

  /** The command byte of a segment: whether it is the last, how many of 7 bytes a short last one leaves
      unused, and the toggle bit. */
  function SegmentCommand(last: bool, unused: nat, toggle: bool): nat
    requires unused < 8
  {
    (if last then 1 else 0) + 2 * unused + (if toggle then 0x10 else 0)
  }

  /** A segment sent carries the toggle bit of its request. */
  lemma SegmentSent(s: Sdo, content: seq<Octet>, toggle: bool, mbx: nat)
    requires s.mode == Uploading && s.fragsLeft < s.frags <= |content| && mbx > HeaderSize
    ensures var (t, m) := NextSegment(s, content, toggle, mbx, 0);
            && m.Segment? && m.length == Max(10, 3 + |m.data|)
            && t == (if t.mode == NoSegments then s.(mode := NoSegments, frags := 0, fragsLeft := 0)
                     else s.(fragsLeft := s.fragsLeft + |m.data|))
            && m.command == SegmentCommand(t.mode == NoSegments, if |m.data| < 7 then 7 - |m.data| else 0, toggle)
  {
  }

  lemma CommandBits(last: bool, unused: nat, toggle: bool)
    requires unused < 8
    ensures var c := SegmentCommand(last, unused, toggle);
            c % 2 == (if last then 1 else 0) && c / 2 % 8 == unused && c / 16 % 2 == (if toggle then 1 else 0)
  {
  }

  /**
   A segment received is answered with its toggle bit. The bytes that its length and command announce go behind
   those that came before; the last one ends the transfer, and then the hook's code takes the place of the answer.
   */
  lemma SegmentTaken(s: Sdo, content: seq<Octet>, m: Msg, last: bool, unused: nat, toggle: bool, postCode: u32)
    requires unused < 8 && SegmentFits(s, content, m) && m.command == SegmentCommand(last, unused, toggle)
    ensures var d := TakeSegment(s, content, m, postCode);
            && d.content == content[..s.at] + m.data + content[s.at + |m.data|..]
            && |m.data| == (if m.length == 10 then 7 - unused else m.length - 3)
            && d.reply == (if last && postCode != 0 then Abort(postCode) else Done(if toggle then 0x30 else 0x20))
            && d.sdo == (if last then s.(mode := NoSegments, frags := 0, fragsLeft := 0)
                         else s.(at := s.at + |m.data|, fragsLeft := s.fragsLeft + |m.data|))
  {
    CommandBits(last, unused, toggle);
  }

  /** A segment of a Complete Access download is answered with its toggle bit, or refused by a last one that
      comes before all bytes have. Only the last one changes what the object holds. */
  lemma CaSegmentTaken(s: Ca, a: Access, m: Msg, last: bool, unused: nat, toggle: bool, postCode: u32)
    requires unused < 8 && InOrEnd(a, a.obj.maxsub + 1) && SegmentInBuffer(s, m)
    requires m.command == SegmentCommand(last, unused, toggle)
    ensures var d, missing := TakeCaSegment(s, a, m, postCode), s.transfer.fragsLeft + |m.data| < s.transfer.frags;
            && d.state.buffer == s.buffer[..s.transfer.at] + m.data + s.buffer[s.transfer.at + |m.data|..]
            && d.reply == (if last && missing then Abort(0x06070010)
                           else if last && postCode != 0 then Abort(postCode)
                           else Done(if toggle then 0x30 else 0x20))
            && d.state.content == (if last && !missing then Download(a, s.content, d.state.buffer, s.transfer.frags)
                                   else s.content)
            && d.state.transfer
            == (if !last then s.transfer.(at := s.transfer.at + |m.data|, fragsLeft := s.transfer.fragsLeft + |m.data|)
                else if missing then s.transfer
                else s.transfer.(mode := NoSegments, frags := 0, fragsLeft := 0))
  {
    CommandBits(last, unused, toggle);
  }

  /** What the loop makes of an object that it does not move: the code for Complete Access not supported is rounded
      up to bytes for strings, and the size takes its place for an image of more than 65535 bytes. */
  function NotMoved(a: Access): Option<u32>
    requires InOrEnd(a, a.obj.maxsub + 1) && Total(a) <= 0xFFFF_FFF8
  {
    if a.obj.entries[0].datatype_ in {0x0009, 0x000A, 0x000B} then Some(0x00C0_2001)
    else if Total(a) > 8 * 0xFFFF then Some((Total(a) + 7) / 8)
    else None
  }

  lemma NotMovedIs(a: Access)
    requires InOrEnd(a, a.obj.maxsub + 1) && Total(a) <= 0xFFFF_FFF8
    ensures NotMoved(a) == SizeProblem(a)
  {
  }

  /**
   A Complete Access upload. It is refused, and begins nothing, for an object that is not moved, one too large for
   the buffer, or by the code of the hook before the access, in this order. Else the image is answered with its
   command byte and size, unless it is sent in one message and the hook after the access has a code.
   */
  lemma CaUploadOutcome(s: Ca, a: Access, mbx: nat, preCode: u32, postCode: u32)
    requires Movable(a) && Holds(a, s.content) && Total(a) <= 0xFFFF_FFF8 && mbx > HeaderSize
    ensures var (t, m), size := Start(s, a, mbx, preCode, postCode), (Total(a) + 7) / 8;
            var refused := if NotMoved(a).Some? then NotMoved(a).value
                           else if size + 30 > |s.buffer| then 0x06010004 else preCode;
            if refused != 0 then t == s && m == Abort(refused)
            else if (size <= 4 || size + 10 <= mbx) && postCode != 0 then m == Abort(postCode)
            else if size <= 4 then
              m.Expedited? && m.command == (match size case 0 => 0x53 case 1 => 0x5F case 2 => 0x5B case 3 => 0x57
                                                       case _ => 0x53)
            else m.Normal? && m.command == 0x51 && m.total == size
  {
    NotMovedIs(a);
  }

  /**
   A Complete Access download. It is refused, and changes nothing, for an object that is not moved, one smaller
   than announced, a hook that asks for time or has another code, and one too large for the buffer if it comes in
   segments, in this order. Else it is stored, or begins a transfer for this object without a change to it.
   */
  lemma CaDownloadOutcome(s: Ca, index: u16, sub: u8, a: Access, m: Msg, rest: seq<Octet>, mbx: nat, preCode: u32,
                          postCode: u32)
    requires InOrEnd(a, a.obj.maxsub + 1) && Total(a) <= 0xFFFF_FFF8 && mbx > HeaderSize && InMailbox(a, m, rest, mbx)
    ensures var d, bytes := Receive(s, index, sub, a, m, rest, mbx, preCode, postCode), DownloadSize(m);
            var refused := if NotMoved(a).Some? then NotMoved(a).value
                           else if bytes > (Total(a) + 7) / 8 then 0x06070010
                           else if preCode == 0xFFFF_FFFF then 0x08000000
                           else if preCode != 0 then preCode
                           else if bytes + 10 > mbx && bytes + 30 > |s.buffer| then 0x06010004 else 0;
            if refused != 0 then d == Outcome(s, Abort(refused))
            else if bytes + 10 > mbx then
              && d.reply == Done(0x70) && d.state.content == s.content
              && d.state.index == index && d.state.subindex == sub && d.state.transfer.mode == Downloading
            else
              && d.reply == (if postCode != 0 then Abort(postCode) else Done(0x70))
              && d.state == s.(content := Download(a, s.content, m.data + rest, bytes),
                               transfer := s.transfer.(mode := NoSegments))
  {
    NotMovedIs(a);
  }
}
