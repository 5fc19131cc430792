/** The Complete Access handlers over mutable state, as esc_coe.c has them. */
module CompleteAccess {
  import opened Base
  import opened Dictionary
  import opened PdoMap
  import opened SdoSpec
  import opened Sdo
  import opened CaSpec
  import opened CaLaws
  import MB = MailboxSpec
  import Leaks = MailboxLeaks
  import opened CaTransferSpec

  datatype Load = Up | Down

  datatype Result = Granted(access: Access) | Refused(code: u32)

  /** memcpy to a byte of the buffer */
  method CopyIn(buf: array<Octet>, at: nat, data: seq<Octet>)
    requires at + |data| <= buf.Length
    modifies buf
    ensures buf[..] == PutBytes(old(buf[..]), data, at)
  {
    forall j | 0 <= j < |data| {
      buf[at + j] := data[j];
    }
  }

  class Server {
    const dict: seq<Object>
    const mbxSize: nat               // ESC_MBXDSIZE
    const mbxdata: array<Octet>      // the preallocated buffer
    var segmented: Mode
    var frags: nat
    var fragsleft: nat
    var at: nat                      // where in mbxdata ESCvar.data points
    var index: u16
    var subindex: u8
    var content: Store

    ghost predicate Valid()
      reads this
    {
      && ValidDict(dict) && mbxSize > HeaderSize && mbxdata.Length >= 2
      && (forall i | 0 <= i < |dict| - 1 :: Holds(Access(dict[i], i, 0, 0), content))
      && (segmented == Uploading ==> fragsleft < frags <= mbxdata.Length)
      && (segmented == Downloading ==> index != SentinelIndex && Downloadable(index, subindex))
    }

    /** A download under way is for an object that can be moved, in whatever AL state. */
    ghost predicate Downloadable(index: u16, sub: u8)
      requires ValidDict(dict) && index != SentinelIndex
    {
      forall alState: nat :: Ready(Request(index, sub, alState))
    }

    ghost predicate Ready(r: Result)
      requires ValidDict(dict)
    {
      r.Granted? && Accessible(r.access) && !Dynamic(r.access.obj)
    }

    ghost function Abs(): Ca
      reads this, mbxdata
    {
      Ca(SdoSpec.Sdo(segmented, frags, fragsleft, Ref(0, 0), at), index, subindex, mbxdata[..], content)
    }

    constructor (dict: seq<Object>, mbxSize: nat, mbxdata: array<Octet>, content: Store)
      requires ValidDict(dict) && mbxSize > HeaderSize && mbxdata.Length >= 2
      requires forall i | 0 <= i < |dict| - 1 :: Holds(Access(dict[i], i, 0, 0), content)
      ensures Valid() && segmented == NoSegments
      ensures this.dict == dict && this.mbxSize == mbxSize && this.mbxdata == mbxdata && this.content == content
    {
      this.dict, this.mbxSize, this.mbxdata, this.content := dict, mbxSize, mbxdata, content;
      segmented, frags, fragsleft, at, index, subindex := NoSegments, 0, 0, 0, 0, 0;
    }

    /** The upload half of the loop's body, for one entry. */
    method SendEntry(a: Access, k: nat, size: nat, buf: array<Octet>)
      requires Movable(a) && In(a, k) && Holds(a, content) && size == PlacedAt(a, k)
      requires Bytes(size + EntryAt(a, k).bitlength) <= buf.Length
      modifies buf
      ensures buf[..] == Put(a, k, content, old(buf[..]))
    {
      var e := a.obj.entries[k];
      var source := content[Ref(a.place, k)];
      var bitoffset := size % 8;
      if e.bitlength % 8 == 0 {
        if ReadAccess(e.flags, a.alState) {
          CopyIn(buf, size / 8, source);
        } else {
          CopyIn(buf, size / 8, Zeros(|source|));
        }
      } else if ReadAccess(e.flags, a.alState) {
        if bitoffset == 0 {
          buf[size / 8] := ZeroOctet();
        }
        buf[size / 8] := OrIn(buf[size / 8], source[0], bitoffset, e.bitlength);
      } else {
        buf[size / 8] := Clear(buf[size / 8], bitoffset, e.bitlength);
      }
    }

    lemma TakeHolds(a: Access, k: nat, data: seq<Octet>)
      requires Valid() && a.place < |dict| - 1 && a.obj == dict[a.place] && In(a, k)
      requires |data| == Bytes(EntryAt(a, k).bitlength)
      ensures forall i | 0 <= i < |dict| - 1 :: Holds(Access(dict[i], i, 0, 0), content[Ref(a.place, k) := data])
    {
    }

    /** The loop's body, for one entry. */
    method MoveEntry(a: Access, k: nat, size: nat, buf: array<Octet>, load: Load)
      requires Valid() && a.place < |dict| - 1 && a.obj == dict[a.place]
      requires Movable(a) && In(a, k) && Holds(a, content) && size == PlacedAt(a, k)
      requires Bytes(size + EntryAt(a, k).bitlength) <= buf.Length
      modifies this`content, buf
      ensures Valid()
      ensures load.Up? ==> content == old(content) && buf[..] == Put(a, k, content, old(buf[..]))
      ensures load.Down? ==> buf[..] == old(buf[..]) && content == Take(a, k, old(content), buf[..])
    {
      var e := a.obj.entries[k];
      if load.Up? {
        SendEntry(a, k, size, buf);
      } else if e.bitlength % 8 == 0 && WriteAccess(e.flags, a.alState) {
        PosNext(a, k);
        TakeHolds(a, k, buf[size / 8..size / 8 + e.bitlength / 8]);
        content := content[Ref(a.place, k) := buf[size / 8..size / 8 + e.bitlength / 8]];
      }
    }

    /** What the loop has done when it comes to entry n. */
    ghost predicate Moved(a: Access, n: nat, load: Load, content0: Store, buf0: seq<Octet>, content: Store,
                          buf: seq<Octet>)
      requires InOrEnd(a, n) && Holds(a, content0)
    {
      if load.Up? then content == content0 && buf == Packed(a, n, content0, Cleared(buf0))
      else buf == buf0 && content == Stored(a, n, content0, buf0)
    }

    lemma Fits(a: Access, n: nat, bytes: nat)
      requires Movable(a) && In(a, n) && Bytes(Total(a)) <= bytes
      ensures Bytes(PlacedAt(a, n) + EntryAt(a, n).bitlength) <= bytes
    {
      Inside(a, n);
    }

    /** A byte entry moves on to the next byte boundary. */
    method Align(a: Access, n: nat, pos: nat) returns (size: nat)
      requires Movable(a) && In(a, n) && pos == Pos(a, n)
      ensures size == PlacedAt(a, n)
    {
      size := pos;
      if a.obj.entries[n].bitlength % 8 == 0 && size % 8 != 0 {
        size := size + (8 - size % 8);
      }
    }

    /** One turn of the loop. */
    method Turn(a: Access, n: nat, pos: nat, buf: array?<Octet>, load: Load, ghost content0: Store,
                ghost buf0: seq<Octet>)
      returns (size: nat)
      requires Valid() && a.place < |dict| - 1 && a.obj == dict[a.place] && Movable(a) && In(a, n) && pos == Pos(a, n)
      requires Holds(a, content) && Holds(a, content0)
      requires buf != null ==> Bytes(Total(a)) <= buf.Length && Moved(a, n, load, content0, buf0, content, buf[..])
      modifies this`content, buf
      ensures Valid() && Holds(a, content) && size == Pos(a, n + 1)
      ensures buf == null ==> content == old(content)
      ensures buf != null ==> Moved(a, n + 1, load, content0, buf0, content, buf[..])
    {
      var bitlen := a.obj.entries[n].bitlength;
      size := Align(a, n, pos);
      if buf != null {
        Fits(a, n, buf.Length);
        MoveEntry(a, n, size, buf, load);
      }
      size := size + if n == 0 && a.obj.objtype != OtypeVar then 16 else bitlen;
    }

    /** complete_access_subindex_loop: into or out of a buffer, or for the size only. */
    method SubindexLoop(a: Access, buf: array?<Octet>, load: Load, max: nat) returns (size: nat)
      requires Valid() && a.place < |dict| - 1 && a.obj == dict[a.place] && Movable(a) && Holds(a, content)
      requires buf != null ==> Bytes(Total(a)) <= buf.Length && buf.Length >= 2
      modifies this`content, buf
      ensures Valid() && size == (if Dynamic(a.obj) then AbortNotSupported else Pos(a, Stop(a, a.first, max)))
      ensures Dynamic(a.obj) || buf == null ==> content == old(content)
      ensures Dynamic(a.obj) && buf != null ==> buf[..] == old(buf[..])
      ensures !Dynamic(a.obj) && buf != null ==>
                Moved(a, Stop(a, a.first, max), load, old(content), old(buf[..]), content, buf[..])
    {
      var dtype := a.obj.entries[0].datatype_;
      if dtype == 0x0009 || dtype == 0x000A || dtype == 0x000B {
        return AbortNotSupported;
      }
      ghost var content0, buf0 := content, if buf != null then buf[..] else [];
      size := 0;
      if load.Up? && buf != null {
        buf[1] := ZeroOctet();
      }
      var n := a.first;
      while n <= a.obj.maxsub
        invariant InOrEnd(a, n) && size == Pos(a, n) && Stop(a, a.first, max) == Stop(a, n, max)
        invariant Valid() && Holds(a, content)
        invariant if buf != null then Moved(a, n, load, content0, buf0, content, buf[..]) else content == content0
      {
        size := Turn(a, n, size, buf, load, content0, buf0);
        n := n + 1;
        if max > 0 && (size + 7) / 8 >= max {
          break;
        }
      }
    }

    /** An object that a request can name for Complete Access. */
    ghost predicate Accessible(a: Access) {
      && a.place < |dict| - 1 && a.obj == dict[a.place] && Movable(a) && Total(a) <= 0xFFFF_FFF8
    }

    /** complete_access_get_variables: the access a request asks for, or an abort code. */
    ghost function Request(index: u16, sub: u8, alState: nat): (r: Result)
      requires ValidDict(dict) && index != SentinelIndex
    {
      if sub > 1 then Refused(AbortUnsupported)
      else
        match Locate(dict, index, sub)
        case NoEntry(code) => Refused(code)
        case Present(r) => Granted(Access(dict[r.obj], r.obj, r.entry, alState))
    }

    method GetVariables(index: u16, sub: u8, alState: nat) returns (r: Result)
      requires Valid() && index != SentinelIndex
      ensures r == Request(index, sub, alState)
      ensures r.Granted? ==>
                r.access.place < |dict| - 1 && r.access.obj == dict[r.access.place] && Holds(r.access, content)
      ensures r.Granted? ==>
                r.access.first <= r.access.obj.maxsub < |r.access.obj.entries| && r.access.alState == alState
    {
      if sub > 1 {
        return Refused(AbortUnsupported);
      }
      var n := FindObject(dict, index);
      if n.None? {
        return Refused(AbortNoObject);
      }
      var k := FindSubindex(dict[n.value], sub);
      if k.None? {
        return Refused(AbortNoSubindex);
      }
      assert Holds(Access(dict[n.value], n.value, 0, 0), content);
      return Granted(Access(dict[n.value], n.value, k.value, alState));
    }

    /** SDO_upload_complete_access. */
    method Upload(index: u16, sub: u8, env: Env) returns (reply: Option<Msg>)
      requires Valid() && index != SentinelIndex
      requires Request(index, sub, env.alState).Granted? ==> Accessible(Request(index, sub, env.alState).access)
      modifies this, mbxdata
      ensures Valid()
      ensures match Request(index, sub, env.alState)
              case Refused(code) => Abs() == old(Abs()) && reply == IfClaimed(env, Abort(code))
              case Granted(a) =>
                if !env.claimed then Abs() == old(Abs()) && reply == None
                else
                  Holds(a, old(content)) &&
                  var u := Start(old(Abs()), a, mbxSize, env.preCode, env.postCode);
                  Abs() == u.0 && reply == Some(u.1)
    {
      var r := GetVariables(index, sub, env.alState);
      if r.Refused? {
        return IfClaimed(env, Abort(r.code));
      }
      if !env.claimed {
        return None;
      }
      reply := AnswerUpload(r.access, env);
    }

    /** The part of SDO_upload_complete_access that has a buffer for the answer. */
    method AnswerUpload(a: Access, env: Env) returns (reply: Option<Msg>)
      requires Valid() && Accessible(a) && Holds(a, content)
      modifies this, mbxdata
      ensures Valid()
      ensures var u := Start(old(Abs()), a, mbxSize, env.preCode, env.postCode);
              Abs() == u.0 && reply == Some(u.1)
    {
      var size := SubindexLoop(a, null, Up, 0);
      NoLimit(a);
      var dss := if size > 24 || size == 0 then 0 else 4 * (3 - (size - 1) / 8);
      size := (size + 7) / 8;
      if size > 0xFFFF {
        return Some(Abort(size));
      }
      if size + Spare > mbxdata.Length {
        return Some(Abort(AbortNotSupported));
      }
      if env.preCode != 0 {
        return Some(Abort(env.preCode));
      }
      reply := SendImage(a, size, dss, env.postCode);
    }

    /** The part of SDO_upload_complete_access after all checks: the image and the first message. */
    method SendImage(a: Access, size: nat, dss: nat, postCode: u32) returns (reply: Option<Msg>)
      requires Valid() && Accessible(a) && Holds(a, content) && SizeProblem(a).None?
      requires size == Bytes(Total(a)) && size + Spare <= mbxdata.Length && (size <= 4 ==> dss == Unused(Total(a)))
      modifies this, mbxdata
      ensures Valid()
      ensures var u := Start(old(Abs()), a, mbxSize, 0, postCode);
              Abs() == u.0 && reply == Some(u.1)
    {
      var _ := SubindexLoop(a, mbxdata, Up, 0);
      NoLimit(a);
      assert mbxdata[..] == CaSpec.Upload(a, old(content), old(mbxdata[..]));
      reply := FirstMessage(size, dss, postCode);
    }

    /** The part of SDO_upload_complete_access that fills the claimed buffer from the image. */
    method FirstMessage(size: nat, dss: nat, postCode: u32) returns (reply: Option<Msg>)
      requires Valid() && size <= mbxdata.Length && size <= 0xFFFF
      requires size <= 4 ==> 0x53 + dss <= 0xFF
      modifies this
      ensures Valid() && mbxdata[..] == old(mbxdata[..]) && content == old(content)
      ensures (Abs(), reply.Some?) == (old(Abs()).(transfer := Begun(old(Abs()).transfer, size, mbxSize)), true)
      ensures reply.value == (if !(size > 4 && size + HeaderSize > mbxSize) && postCode != 0 then Abort(postCode)
                              else First(mbxdata[..size], dss, mbxSize))
    {
      segmented := NoSegments;
      var part := size;
      if size > 4 && size + HeaderSize > mbxSize {
        frags := size;
        part := mbxSize - HeaderSize;
        fragsleft := part;
        segmented := Uploading;
        at := 0;
      }
      assert mbxdata[..size][..part] == mbxdata[..part];
      reply := Some(if size <= 4 then Expedited(0x53 + dss, mbxdata[..size])
                    else Normal(HeaderSize + part, 0x51, size, mbxdata[..part]));
      if segmented == NoSegments && postCode != 0 {
        reply := Some(Abort(postCode));
      }
    }

    /** SDO_uploadsegment, out of mbxdata. */
    method UploadSegment(toggle: bool, env: Env) returns (reply: Option<Msg>)
      requires Valid() && segmented == Uploading
      modifies this
      ensures Valid() && mbxdata[..] == old(mbxdata[..]) && content == old(content)
      ensures if !env.claimed then Abs() == old(Abs()) && reply == None
              else
                var u := NextSegment(old(Abs()).transfer, mbxdata[..old(frags)], toggle, mbxSize, env.postCode);
                Abs() == old(Abs()).(transfer := u.0) && reply == Some(u.1)
    {
      if !env.claimed {
        return None;
      }
      var s := SdoSpec.Sdo(segmented, frags, fragsleft, Ref(0, 0), at);
      var t, m := FillSegment(s, mbxdata[..frags], toggle, mbxSize, env.postCode);
      segmented, frags, fragsleft := t.mode, t.frags, t.fragsLeft;
      reply := Some(m);
    }

    /** SDO_download_complete_access; mbx0 is the mailbox from the request's data on. */
    method Download(index: u16, sub: u8, m: Msg, mbx0: array<Octet>, ghost rest: seq<Octet>, env: Env)
      returns (reply: Option<Msg>)
      requires Valid() && index != SentinelIndex && mbx0 != mbxdata && mbx0.Length >= 2
      requires (m.Expedited? || m.Normal?) && mbx0[..] == m.data + rest
      requires Request(index, sub, env.alState).Granted? ==>
                 var a := Request(index, sub, env.alState).access;
                 Accessible(a) && InMailbox(a, m, rest, mbxSize)
      modifies this, mbxdata, mbx0
      ensures Valid() && mbx0[..] == old(mbx0[..])
      ensures match Request(index, sub, env.alState)
              case Refused(code) => Abs() == old(Abs()) && reply == IfClaimed(env, Abort(code))
              case Granted(a) =>
                var o := Receive(old(Abs()), index, sub, a, m, rest, mbxSize, env.preCode, env.postCode);
                Abs() == o.state && reply == IfClaimed(env, o.reply)
    {
      var r := GetVariables(index, sub, env.alState);
      if r.Refused? {
        return IfClaimed(env, Abort(r.code));
      }
      reply := AcceptDownload(index, sub, r.access, m, mbx0, rest, env);
    }

    method AcceptDownload(index: u16, sub: u8, a: Access, m: Msg, mbx0: array<Octet>, ghost rest: seq<Octet>, env: Env)
      returns (reply: Option<Msg>)
      requires Valid() && Accessible(a) && Holds(a, content) && InMailbox(a, m, rest, mbxSize)
      requires index != SentinelIndex && Request(index, sub, env.alState) == Granted(a)
      requires mbx0 != mbxdata && mbx0.Length >= 2 && mbx0[..] == m.data + rest
      modifies this, mbxdata, mbx0
      ensures Valid() && mbx0[..] == old(mbx0[..])
      ensures var o := Receive(old(Abs()), index, sub, a, m, rest, mbxSize, env.preCode, env.postCode);
              Abs() == o.state && reply == IfClaimed(env, o.reply)
    {
      var bytes := if m.Expedited? then 4 - m.command / 4 % 4 else m.total % 0x1_0000;
      var size := ImageSize(a);
      if size > 0xFFFF {
        return IfClaimed(env, Abort(size));
      }
      if bytes > size {
        return IfClaimed(env, Abort(AbortTypeMismatch));
      }
      var code := if env.preCode == HeldBack then AbortGeneral else env.preCode;
      if code != 0 {
        return IfClaimed(env, Abort(code));
      }
      reply := StoreRequest(index, sub, a, m, mbx0, rest, bytes, env);
    }

    /** The size of an object in bytes, or what BITS2BYTES makes of an abort code. */
    method ImageSize(a: Access) returns (size: nat)
      requires Valid() && Accessible(a) && Holds(a, content)
      modifies this`content
      ensures Valid() && content == old(content)
      ensures size == if Dynamic(a.obj) then Bytes(AbortNotSupported) else Bytes(Total(a))
    {
      var bits := SubindexLoop(a, null, Down, 0);
      NoLimit(a);
      size := (bits + 7) / 8;
    }

    /** The part of SDO_download_complete_access that takes a request which no check refused. */
    method StoreRequest(index: u16, sub: u8, a: Access, m: Msg, mbx0: array<Octet>, ghost rest: seq<Octet>, bytes: nat,
                        env: Env)
      returns (reply: Option<Msg>)
      requires Valid() && Accessible(a) && Holds(a, content) && InMailbox(a, m, rest, mbxSize)
      requires index != SentinelIndex && Request(index, sub, env.alState) == Granted(a)
      requires mbx0 != mbxdata && mbx0.Length >= 2 && mbx0[..] == m.data + rest
      requires SizeProblem(a).None? && bytes == DownloadSize(m) <= Bytes(Total(a)) && env.preCode == 0
      modifies this, mbxdata, mbx0
      ensures Valid() && mbx0[..] == old(mbx0[..])
      ensures var o := Receive(old(Abs()), index, sub, a, m, rest, mbxSize, env.preCode, env.postCode);
              Abs() == o.state && reply == IfClaimed(env, o.reply)
    {
      if bytes + HeaderSize > mbxSize {
        if bytes + Spare > mbxdata.Length {
          return IfClaimed(env, Abort(AbortNotSupported));
        }
        StaysMovable(index, sub, a);
        StartSegments(index, sub, bytes, mbx0[..mbxSize - HeaderSize]);
      } else {
        StoreDirect(a, bytes, mbx0);
        if env.postCode != 0 {
          return IfClaimed(env, Abort(env.postCode));
        }
      }
      reply := IfClaimed(env, Done(0x70));
    }

    /** The part of SDO_download_complete_access that stores a request in one message. */
    method StoreDirect(a: Access, bytes: nat, mbx0: array<Octet>)
      requires Valid() && Accessible(a) && Holds(a, content) && !Dynamic(a.obj)
      requires mbx0 != mbxdata && mbx0.Length >= 2 && Bytes(Total(a)) <= mbx0.Length
      modifies `segmented, `content, mbx0
      ensures Valid() && mbx0[..] == old(mbx0[..])
      ensures Abs() == old(Abs()).(transfer := old(Abs()).transfer.(mode := NoSegments),
                                   content := CaSpec.Download(a, old(content), mbx0[..], bytes))
    {
      segmented := NoSegments;
      var _ := SubindexLoop(a, mbx0, Down, bytes);
    }

    /** The part of SDO_download_complete_access that starts a segmented transfer. */
    method StartSegments(index: u16, sub: u8, bytes: nat, data: seq<Octet>)
      requires Valid() && index != SentinelIndex && Downloadable(index, sub)
      requires |data| == mbxSize - HeaderSize <= mbxdata.Length
      modifies this, mbxdata
      ensures Valid()
      ensures Abs() == old(Abs()).(transfer := old(Abs()).transfer.(mode := Downloading, frags := bytes,
                                                                    fragsLeft := |data|,
                                                                    at := |data|),
                                   index := index, subindex := sub, buffer := Placed(old(mbxdata[..]), 0, data))
    {
      frags := bytes;
      fragsleft := |data|;
      segmented := Downloading;
      at := |data|;
      this.index, this.subindex := index, sub;
      CopyIn(mbxdata, 0, data);
      PlacedIsPut(old(mbxdata[..]), 0, data);
    }

    lemma StaysMovable(index: u16, sub: u8, a: Access)
      requires ValidDict(dict) && index != SentinelIndex && Request(index, sub, a.alState) == Granted(a)
      requires Accessible(a) && !Dynamic(a.obj)
      ensures Downloadable(index, sub)
    {
      forall alState: nat ensures Ready(Request(index, sub, alState)) {
        SameLayout(a, Request(index, sub, alState).access, a.obj.maxsub + 1);
      }
    }

    lemma PlacedIsPut(buf: seq<Octet>, at: nat, data: seq<Octet>)
      requires at + |data| <= |buf|
      ensures PutBytes(buf, data, at) == Placed(buf, at, data)
    {
    }

    /** SDO_downloadsegment for a Complete Access transfer. MBXout is the claimed mailbox buffer, 0 if none
        is free, and again says whether another one is, for an abort beside the claimed answer; calls
        is what is done with the pool of buffers. */
    method DownloadSegment(m: Msg, env: Env, MBXout: nat, again: bool) returns (reply: Option<Msg>, calls: seq<MB.Ev>)
      requires Valid() && index != SentinelIndex && Downloadable(index, subindex) && SegmentInBuffer(Abs(), m)
      requires segmented == Uploading && !LastSegment(m) ==> fragsleft + |m.data| < frags
      requires Bytes(Total(Request(index, subindex, env.alState).access)) <= mbxdata.Length
      requires env.claimed <==> MBXout != 0
      modifies this, mbxdata
      ensures Valid()
      ensures if !env.claimed then Abs() == old(Abs()) && reply == None
              else
                var a := Request(old(index), old(subindex), env.alState).access;
                var o := TakeCaSegment(old(Abs()), a, m, env.postCode);
                Abs() == o.state
                && reply == (if LastSegment(m) && !Complete(old(Abs()), m) && !again then None else Some(o.reply))
      ensures calls == Leaks.PoolCalls(MBXout, LastSegment(m) && !Complete(old(Abs()), m))
    {
      calls := [MB.EvClaim];
      if MBXout == 0 {
        return None, calls;
      }
      var size := m.length - SegmentHeaderSize;
      if size == 7 {
        size := 7 - m.command / 2 % 8;
      }
      CopyIn(mbxdata, at, m.data);
      PlacedIsPut(old(mbxdata[..]), at, m.data);
      reply := Some(Done(0x20 + m.command / 16 % 2 * 16));
      if m.command % 2 == 1 {
        if frags > fragsleft + size {
          reply := if again then Some(Abort(AbortTypeMismatch)) else None;
          return reply, calls + [MB.EvSend];
        }
        FinishDownload(env.alState);
        if env.postCode != 0 {
          reply := Some(Abort(env.postCode));
        }
      } else {
        Advance(size);
      }
      calls := calls + [MB.EvRequest(MBXout)];
    }

    /** More segments are to come. */
    method Advance(size: nat)
      requires Valid() && (segmented == Uploading ==> fragsleft + size < frags)
      modifies `at, `fragsleft
      ensures Valid() && at == old(at) + size && fragsleft == old(fragsleft) + size
    {
      at := at + size;
      fragsleft := fragsleft + size;
    }

    /** The part of SDO_downloadsegment that moves the buffer into the dictionary. */
    method FinishDownload(alState: nat)
      requires Valid() && index != SentinelIndex && Downloadable(index, subindex)
      requires Bytes(Total(Request(index, subindex, alState).access)) <= mbxdata.Length
      modifies this, mbxdata
      ensures Valid()
      ensures var s := old(Abs());
              Abs() == s.(content := CaSpec.Download(Request(old(index), old(subindex), alState).access, s.content,
                                                     s.buffer,
                                                     s.transfer.frags),
                          transfer := s.transfer.(mode := NoSegments, frags := 0, fragsLeft := 0))
    {
      var r := GetVariables(index, subindex, alState);
      assert Ready(r);
      var _ := SubindexLoop(r.access, mbxdata, Down, frags);
      segmented, frags, fragsleft := NoSegments, 0, 0;
    }

    lemma NoLimit(a: Access)
      requires Movable(a)
      ensures Stop(a, a.first, 0) == a.obj.maxsub + 1
    {
      StopWithout(a, a.first);
    }

    lemma StopWithout(a: Access, k: nat)
      requires InOrEnd(a, k)
      ensures Stop(a, k, 0) == a.obj.maxsub + 1
      decreases a.obj.maxsub + 1 - k
    {
      if k <= a.obj.maxsub {
        StopWithout(a, k + 1);
      }
    }
  }
}
