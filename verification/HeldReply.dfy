/**
 The CoE process and the reply it may hold back. ESC_coeprocess takes up the request in mailbox 0 and
 hands it to a handler; a download whose hook asks for time (ESC_SDO_PENDING) is answered later, by
 ESC_SDO_complete. What the handlers answer otherwise is the subject of the modules Sdo,
 CompleteAccess and OdList; here it comes in from the environment.
 */
module CoeSpec {
  import opened Base

  const AbortGeneral: u32 := 0x08000000       // ABORT_GENERALERROR
  const AbortUnsupported: u32 := 0x06010000   // ABORT_UNSUPPORTED
  const UnsupportedProtocol: u16 := 0x0002    // MBXERR_UNSUPPORTEDPROTOCOL
  const InvalidHeader: u16 := 0x0005          // MBXERR_INVALIDHEADER
  const InvalidSize: u16 := 0x0008            // MBXERR_INVALIDSIZE
  const InWork: u16 := 0x0009                 // MBXERR_SERVICEINWORK

  /** A request in mailbox 0: whether its type is CoE, its length, and the fields the process reads. */
  datatype Request = Request(coe: bool, length: u16, service: nat, command: u8, opcode: u8, index: u16, sub: u8)

  datatype Held = Held(index: u16, sub: u8)

  /** ESCvar.xoe: no protocol at work, CoE, CoE with a list of objects to continue. */
  datatype Xoe = Idle | Coe | CoeList

  /** Whether the mailboxes run, the request in mailbox 0, the protocol at work, the reply held back,
      and whether a segmented upload is open. */
  datatype St = St(run: bool, inbox: Option<Request>, xoe: Xoe, held: Option<Held>, uploading: bool)

  /** Before the mailboxes run for the first time. */
  const Stopped := St(false, None, Idle, None, false)

  datatype Reply =
    | Response(index: u16, sub: u8)
    | SdoAbort(index: u16, sub: u8, code: u32)
    | MbxError(error: u16)
    | Information

  /** A reply put in a mailbox buffer, and the request it answers, if it is not a held one. */
  datatype Out = Out(reply: Reply, to: Option<Request>)

  /** What a turn meets: whether a buffer is free (and a second one), and the last reply still unread;
      whether the hook asks for time, and whether the download fits its one mailbox; what the handler
      of an SDO request answers, and whether an upload is open after it; whether the list of objects
      needs more turns; whether FoE or EoE takes the request, if it is not for CoE. */
  datatype Env = Env(claimed: bool, again: bool, outpost: bool, pending: bool, fits: bool, answer: Reply,
                     uploading: bool, more: bool, taken: bool)

  datatype Handler =
    | Busy | UploadCa | Upload | UploadSegment | DownloadCa | Download | DownloadSegment | Nothing
    | List | Describe | Unrecognised

  /** The handler of a request. */
  function Dispatch(q: Request, held: bool, uploading: bool): Handler {
    if q.service == 2 then
      var kind, ca := q.command / 0x20 * 0x20, q.command / 0x10 % 2 == 1;
      if held then Busy
      else if kind == 0x40 && q.length == 10 then if ca then UploadCa else Upload
      else if kind == 0x60 && q.command % 0x10 == 0 && q.length == 10 && uploading then UploadSegment
      else if kind == 0x20 then if ca then DownloadCa else Download
      else if kind == 0x00 then DownloadSegment
      else Nothing
    else if q.service == 8 && q.opcode == 1 then List
    else if q.service == 8 && (q.opcode == 3 || q.opcode == 5) then Describe
    else Unrecognised
  }

  function Answer(env: Env, reply: Reply, q: Request): seq<Out> {
    if env.claimed then [Out(reply, Some(q))] else []
  }

  function Release(s: St): St { s.(inbox := None, xoe := Idle) }

  /** One handler's run. */
  function Handle(s: St, q: Request, env: Env): (St, seq<Out>) {
    match Dispatch(q, s.held.Some?, s.uploading)
    case Busy => (Release(s), Answer(env, MbxError(InWork), q))
    case Nothing => (s, [])
    case List =>
      if !env.claimed then (s, [])
      else (if env.more then s.(xoe := CoeList) else Release(s), Answer(env, Information, q))
    case Describe => if !env.claimed then (s, []) else (Release(s), Answer(env, Information, q))
    case Unrecognised =>
      (Release(s),
       Answer(env, if q.service == 0 then MbxError(InvalidHeader) else SdoAbort(q.index, q.sub, AbortUnsupported), q))
    case Download =>
      if env.pending then
        if env.fits then (Release(s).(held := Some(Held(q.index, q.sub))), [])
        else (Release(s), Answer(env, SdoAbort(q.index, q.sub, AbortGeneral), q))
      else (Release(s).(uploading := env.uploading), Answer(env, env.answer, q))
    case _ => (Release(s).(uploading := env.uploading), Answer(env, env.answer, q))
  }

  /** Taking up the request in mailbox 0. */
  function Intake(s: St, env: Env): (St, seq<Out>) {
    if s.xoe == Idle && s.inbox.Some? && s.inbox.value.coe then
      if s.inbox.value.length < 8 then (s, Answer(env, MbxError(InvalidSize), s.inbox.value))
      else (s.(xoe := Coe), [])
    else (s, [])
  }

  /** ESC_coeprocess. */
  function Process(s: St, env: Env): (St, seq<Out>) {
    if !s.run || s.inbox.None? then (s, [])
    else
      var (t, out) := Intake(s, env);
      if t.xoe == CoeList then
        if env.outpost || !env.claimed then (t, [])
        else (if env.more then t else Release(t), Answer(env, Information, t.inbox.value))
      else if t.xoe == Coe then Handle(t, t.inbox.value, env)
      else (t, out)
  }

  /** ESC_xoeprocess: a request no protocol took up. */
  function Drop(s: St, env: Env): (St, seq<Out>) {
    if !s.run || s.xoe != Idle || s.inbox.None? then (s, [])
    else if env.taken && !s.inbox.value.coe then (s.(inbox := None), [])
    else
      (s.(inbox := None),
       if !env.again then []
       else [Out(MbxError(if s.inbox.value.length == 0 then InvalidHeader else UnsupportedProtocol), s.inbox)])
  }

  /** A turn: ESC_coeprocess, the other protocols, ESC_xoeprocess. */
  function Protocols(s: St, env: Env): (St, seq<Out>) {
    var (t, out) := Process(s, env);
    var (u, more) := Drop(t, env);
    (u, out + more)
  }

  /** ESC_SDO_complete. */
  function Complete(s: St, code: u32, claimed: bool): (St, seq<Out>) {
    match s.held
    case None => (s, [])
    case Some(h) =>
      (s.(held := None),
       if !claimed then []
       else [Out(if code != 0 then SdoAbort(h.index, h.sub, code) else Response(h.index, h.sub), None)])
  }

  /** ESC_SDO_cancel. */
  function Cancel(s: St): St { s.(held := None) }

  /** ESC_stopmbx. */
  function StopMbx(s: St): St { Cancel(St(false, None, Idle, s.held, false)) }

  datatype Event =
    | StartMailboxes
    | StopMailboxes
    | Mail(request: Request)
    | Turn(env: Env)
    | Completion(code: u32, claimed: bool)
    | Cancellation

  function Next(s: St, e: Event): (St, seq<Out>) {
    match e
    case StartMailboxes => (s.(run := true), [])
    case StopMailboxes => (StopMbx(s), [])
    case Mail(q) => (if s.run && s.inbox.None? && s.xoe == Idle then s.(inbox := Some(q)) else s, [])
    case Turn(env) => Protocols(s, env)
    case Completion(code, claimed) => Complete(s, code, claimed)
    case Cancellation => (Cancel(s), [])
  }

  function Run(s: St, es: seq<Event>): (St, seq<Out>) {
    if es == [] then (s, [])
    else
      var (t, out) := Run(s, es[..|es| - 1]);
      var (u, more) := Next(t, es[|es| - 1]);
      (u, out + more)
  }
}

/** Which handler takes a request, and how each turn ends. */
module CoeTable {
  import opened Base
  import opened CoeSpec

  /** The command byte of an SDO request: its command specifier, the Complete Access bit, and four bits more. */
  function Command(kind: nat, ca: bool, low: nat): nat
    requires kind < 8 && low < 16
  {
    32 * kind + (if ca then 16 else 0) + low
  }

  lemma CommandBits(kind: nat, ca: bool, low: nat)
    requires kind < 8 && low < 16
    ensures var c := Command(kind, ca, low);
            c / 0x20 * 0x20 == 32 * kind && (c / 0x10 % 2 == 1 <==> ca) && c % 0x10 == low
  {
    var c := Command(kind, ca, low);
    assert c / 32 == kind;
    assert c / 16 == 2 * kind + if ca then 1 else 0;
  }

  /**
   The handler of an SDO request, by its command specifier: 1 downloads and 2 uploads, with Complete Access by
   its bit; 0 goes on with a download, and 3 with an upload that is open. Uploads have to be ten bytes long, and
   a request for a segment has nothing but the toggle bit beside. Nothing takes any other.
   */
  lemma SdoHandler(q: Request, kind: nat, ca: bool, low: nat, uploading: bool)
    requires kind < 8 && low < 16 && q.service == 2 && q.command == Command(kind, ca, low)
    ensures Dispatch(q, true, uploading) == Busy
    ensures Dispatch(q, false, uploading)
         == match kind
            case 0 => DownloadSegment
            case 1 => if ca then DownloadCa else Download
            case 2 => if q.length != 10 then Nothing else if ca then UploadCa else Upload
            case 3 => if q.length == 10 && low == 0 && uploading then UploadSegment else Nothing
            case _ => Nothing
  {
    CommandBits(kind, ca, low);
  }

  /** The handler of any other request: of the information services 1, 3 and 5 are known. */
  lemma OtherHandler(q: Request, held: bool, uploading: bool)
    requires q.service != 2
    ensures Dispatch(q, held, uploading)
         == if q.service == 8 && q.opcode == 1 then List
            else if q.service == 8 && (q.opcode == 3 || q.opcode == 5) then Describe
            else Unrecognised
  {
  }

  /** One reply, if there is a buffer. */
  function One(env: Env, reply: Reply, q: Request): seq<Out> {
    if env.claimed then [Out(reply, Some(q))] else []
  }

  /** A request that starts a turn. */
  predicate Fresh(s: St, q: Request) {
    s.run && s.xoe == Idle && s.inbox == Some(q) && q.coe
  }

  /** A request too short for CoE is answered as of invalid size, and then, as no protocol has taken it, as one
      of a protocol that is not supported. */
  lemma ShortRequest(s: St, q: Request, env: Env)
    requires Fresh(s, q) && q.length < 8
    ensures Protocols(s, env)
         == (s.(inbox := None),
             One(env, MbxError(0x0008), q)
             + if env.again then [Out(MbxError(if q.length == 0 then 0x0005 else 0x0002), Some(q))] else [])
  {
  }

  /** Every other ends its turn by its handler: with the mailbox free again and one reply, if there is a buffer,
      held back, or still at work. */
  lemma TurnEnds(s: St, q: Request, env: Env)
    requires Fresh(s, q) && q.length >= 8
    ensures var (t, out) := Protocols(s, env);
            var free := s.(inbox := None);
            match Dispatch(q, s.held.Some?, s.uploading)
            case Busy => t == free && out == One(env, MbxError(0x0009), q)
            case Nothing => t == s.(xoe := Coe) && out == []
            case List =>
              if !env.claimed then t == s.(xoe := Coe) && out == []
              else t == (if env.more then s.(xoe := CoeList) else free) && out == One(env, Information, q)
            case Describe =>
              if !env.claimed then t == s.(xoe := Coe) && out == [] else t == free && out == One(env, Information, q)
            case Unrecognised =>
              && t == free
              && out == One(env, if q.service == 0 then MbxError(0x0005) else SdoAbort(q.index, q.sub, 0x06010000), q)
            case Download =>
              if !env.pending then t == free.(uploading := env.uploading) && out == One(env, env.answer, q)
              else if env.fits then t == free.(held := Some(Held(q.index, q.sub))) && out == []
              else t == free && out == One(env, SdoAbort(q.index, q.sub, 0x08000000), q)
            case _ => t == free.(uploading := env.uploading) && out == One(env, env.answer, q)
  {
    var (t, out) := Process(s, env);
    assert out + [] == out && Drop(t, env) == (t, []);
  }

  /** A request of another protocol is left to FoE and EoE: it leaves the mailbox without a reply of this one if
      either takes it, and is answered as not supported else, if there is a buffer. */
  lemma OtherProtocol(s: St, q: Request, env: Env)
    requires s.run && s.xoe == Idle && s.inbox == Some(q) && !q.coe
    ensures Protocols(s, env)
         == (s.(inbox := None),
             if env.taken || !env.again then []
             else [Out(MbxError(if q.length == 0 then 0x0005 else 0x0002), Some(q))])
  {
    var (t, out) := Process(s, env);
    assert (t, out) == (s, []) && out + Drop(s, env).1 == Drop(s, env).1;
  }

  /** Stopping ends everything, whatever was at work; a request gets in exactly while the mailboxes run and the one
      before is done with. */
  lemma GetsIn(s: St, q: Request)
    ensures Next(s, StopMailboxes) == (Stopped, [])
    ensures Next(s, StartMailboxes) == (s.(run := true), [])
    ensures Next(Next(Stopped, StartMailboxes).0, Mail(q)) == (St(true, Some(q), Idle, None, false), [])
    ensures Next(s, Mail(q)).0 != s <==> s.run && s.xoe == Idle && s.inbox == None
    ensures Next(s, Mail(q)).0 == s || Next(s, Mail(q)).0 == s.(inbox := Some(q))
  {
  }

  /** A list of objects goes on turn by turn, while the last part of it is read and there is a buffer. */
  lemma ListGoesOn(s: St, q: Request, env: Env)
    requires s.run && s.xoe == CoeList && s.inbox == Some(q)
    ensures Protocols(s, env)
         == if env.outpost || !env.claimed then (s, [])
            else (if env.more then s else s.(inbox := None, xoe := Idle), [Out(Information, Some(q))])
  {
    var (t, out) := Process(s, env);
    assert out + [] == out && Drop(t, env) == (t, []);
  }
}

/** The laws of the held reply, over every run. */
module HeldLaws {
  import opened Base
  import opened CoeSpec

  predicate EndsHold(e: Event) {
    e.Completion? || e.Cancellation? || e.StopMailboxes?
  }

  /** A request no handler recognises: neither an SDO request nor one of the information services. */
  predicate Stray(q: Request) {
    Dispatch(q, false, false) == Unrecognised
  }

  predicate SdoReply(r: Reply) { r.Response? || r.SdoAbort? }

  /** What may be sent while a reply is held: no SDO response, no abort but to a stray request, and to
      an SDO request long enough to be one only that the service is at work. */
  predicate Quiet(o: Out) {
    && o.to.Some?
    && (SdoReply(o.reply) ==> o.reply.SdoAbort? && Stray(o.to.value) && o.to.value.service != 0)
    && (o.to.value.coe && o.to.value.service == 2 && o.to.value.length >= 8 ==> o.reply == MbxError(InWork))
  }

  /** The protocol at work belongs to the request in the mailbox. */
  predicate Consistent(s: St) {
    (s.xoe != Idle ==> s.inbox.Some? && s.inbox.value.coe && s.inbox.value.length >= 8)
    && (s.xoe == CoeList ==> s.inbox.value.service == 8)
    && (s.held.Some? && s.xoe == Coe ==> s.inbox.value.service == 8 && !Stray(s.inbox.value))
    && (!s.run ==> s.inbox.None?)
  }

  lemma NextConsistent(s: St, e: Event)
    requires Consistent(s)
    ensures Consistent(Next(s, e).0)
  {
  }

  /** Every state that the process can get into. */
  lemma {:induction false} RunConsistent(es: seq<Event>)
    ensures Consistent(Run(Stopped, es).0)
  {
    if es != [] {
      RunConsistent(es[..|es| - 1]);
      NextConsistent(Run(Stopped, es[..|es| - 1]).0, es[|es| - 1]);
    }
  }

  /** One step with a reply held: unless it ends the hold, it keeps it, and what it sends is quiet. */
  lemma QuietStep(s: St, e: Event)
    requires Consistent(s) && s.held.Some? && !EndsHold(e)
    ensures Next(s, e).0.held == s.held
    ensures forall o | o in Next(s, e).1 :: Quiet(o)
  {
  }

  lemma {:induction false} QuietRun(s: St, es: seq<Event>)
    requires Consistent(s) && s.held.Some? && forall i | 0 <= i < |es| :: !EndsHold(es[i])
    ensures var (t, out) := Run(s, es);
            Consistent(t) && t.held == s.held && forall o | o in out :: Quiet(o)
  {
    if es != [] {
      var n := |es| - 1;
      QuietRun(s, es[..n]);
      var t := Run(s, es[..n]).0;
      NextConsistent(t, es[n]);
      QuietStep(t, es[n]);
    }
  }

  // ---------------------------------------------------------------- SDO requests while a reply is held

  predicate SdoRequest(q: Request) { q.coe && q.service == 2 && q.length >= 8 }

  /** The SDO request that a step takes up, if any. */
  function Meets(s: St, e: Event): Option<Request> {
    if e.Turn? && s.run && s.xoe == Idle && s.inbox.Some? && SdoRequest(s.inbox.value) then s.inbox else None
  }

  /** The step takes up an SDO request without a buffer for its answer. */
  predicate Starved(s: St, e: Event) { Meets(s, e).Some? && !e.env.claimed }

  function ToSeq<T>(x: Option<T>): seq<T> { if x.Some? then [x.value] else [] }

  /** The SDO requests that a run takes up, in order: all of them, or those that find a buffer. */
  function Met(s: St, es: seq<Event>, all: bool): seq<Request> {
    if es == [] then []
    else
      var n := |es| - 1;
      var t := Run(s, es[..n]).0;
      Met(s, es[..n], all) + if all || !Starved(t, es[n]) then ToSeq(Meets(t, es[n])) else []
  }

  /** The SDO requests that are answered, in order. */
  function Answered(out: seq<Out>): seq<Request> {
    if out == [] then []
    else
      var o := out[|out| - 1];
      Answered(out[..|out| - 1]) + if o.to.Some? && SdoRequest(o.to.value) then [o.to.value] else []
  }

  lemma {:induction false} AnsweredConcat(x: seq<Out>, y: seq<Out>)
    ensures Answered(x + y) == Answered(x) + Answered(y)
  {
    if y == [] {
      assert x + y == x;
    } else {
      var n := |y| - 1;
      AnsweredConcat(x, y[..n]);
      assert (x + y)[..|x| + n] == x + y[..n];
      assert (x + y)[|x| + n] == y[n];
    }
  }

  /** A turn that takes up an SDO request while a reply is held: the request leaves the mailbox, and is
      answered that the service is at work if there is a buffer, else not at all. */
  lemma BusyTurn(s: St, env: Env)
    requires s.held.Some? && Meets(s, Turn(env)).Some?
    ensures Protocols(s, env)
         == (s.(inbox := None), if env.claimed then [Out(MbxError(InWork), s.inbox)] else [])
  {
    var (t, out) := Process(s, env);
    assert t == s.(inbox := None) && Drop(t, env) == (t, []);
    assert out + [] == out;
  }

  /** Nothing else is sent to an SDO request while a reply is held. */
  lemma OtherTurn(s: St, e: Event)
    requires Consistent(s) && s.held.Some? && !EndsHold(e) && Meets(s, e).None?
    ensures Answered(Next(s, e).1) == []
  {
    var out := Next(s, e).1;
    forall o | o in out ensures o.to.Some? && !SdoRequest(o.to.value) {
      NotToSdo(s, e, o);
    }
    NoneAnswered(out);
  }

  lemma NotToSdo(s: St, e: Event, o: Out)
    requires Consistent(s) && s.held.Some? && !EndsHold(e) && Meets(s, e).None? && o in Next(s, e).1
    ensures o.to.Some? && !SdoRequest(o.to.value)
  {
  }

  lemma {:induction false} NoneAnswered(out: seq<Out>)
    requires forall o | o in out :: o.to.Some? && !SdoRequest(o.to.value)
    ensures Answered(out) == []
  {
    if out != [] {
      NoneAnswered(out[..|out| - 1]);
    }
  }

  lemma BusyStep(s: St, e: Event)
    requires Consistent(s) && s.held.Some? && !EndsHold(e)
    ensures Answered(Next(s, e).1) == if Starved(s, e) then [] else ToSeq(Meets(s, e))
  {
    if Meets(s, e).Some? {
      BusyTurn(s, e.env);
      var o := Out(MbxError(InWork), s.inbox);
      assert [o][..0] == [] && Answered([o]) == Answered([o][..0]) + [s.inbox.value];
    } else {
      OtherTurn(s, e);
    }
  }

  /** Through a hold, the SDO requests answered are exactly those taken up with a buffer, in order. */
  lemma {:induction false} BusyAnswers(s: St, es: seq<Event>)
    requires Consistent(s) && s.held.Some? && forall i | 0 <= i < |es| :: !EndsHold(es[i])
    ensures Answered(Run(s, es).1) == Met(s, es, false)
  {
    if es != [] {
      var n := |es| - 1;
      BusyAnswers(s, es[..n]);
      QuietRun(s, es[..n]);
      var (t, out) := Run(s, es[..n]);
      BusyStep(t, es[n]);
      AnsweredConcat(out, Next(t, es[n]).1);
    }
  }

  lemma {:induction false} MetCounts(s: St, es: seq<Event>)
    ensures |Met(s, es, false)| <= |Met(s, es, true)|
    ensures |Met(s, es, false)| == |Met(s, es, true)|
       <==> forall i | 0 <= i < |es| :: !StarvedAt(s, es, i)
    ensures |Met(s, es, false)| == |Met(s, es, true)| ==> Met(s, es, false) == Met(s, es, true)
  {
    if es != [] {
      var n := |es| - 1;
      MetCounts(s, es[..n]);
      forall i | 0 <= i < n ensures StarvedAt(s, es[..n], i) == StarvedAt(s, es, i) {
        assert es[..n][..i] == es[..i];
      }
      assert StarvedAt(s, es, n) == Starved(Run(s, es[..n]).0, es[n]);
    }
  }

  predicate StarvedAt(s: St, es: seq<Event>, i: nat)
    requires i < |es|
  {
    Starved(Run(s, es[..i]).0, es[i])
  }

  /**
   Every SDO request taken up in a hold is answered that the service is at work if and only if each
   turn that takes one up finds a buffer. One that finds none is dropped: it leaves the mailbox
   without an answer.
   */
  lemma BusyIff(s: St, es: seq<Event>)
    requires Consistent(s) && s.held.Some? && forall i | 0 <= i < |es| :: !EndsHold(es[i])
    ensures Answered(Run(s, es).1) == Met(s, es, true) <==> forall i | 0 <= i < |es| :: !StarvedAt(s, es, i)
    ensures forall o | o in Run(s, es).1 && o.to.Some? && SdoRequest(o.to.value) :: o.reply == MbxError(InWork)
  {
    BusyAnswers(s, es);
    MetCounts(s, es);
    QuietRun(s, es);
  }

  // ---------------------------------------------------------------- the life of a hold

  /** Whether a step takes a reply into hold. */
  predicate Holds(s: St, e: Event) {
    s.held.None? && Next(s, e).0.held.Some?
  }

  lemma NoStrayStep(s: St, e: Event)
    requires Consistent(s) && s.held.None? && !Holds(s, e)
    ensures Consistent(Next(s, e).0) && Next(s, e).0.held.None?
    ensures forall o | o in Next(s, e).1 :: o.to.Some?
  {
    NextConsistent(s, e);
    if e.Turn? {
      TurnAnswers(s, e.env);
    }
  }

  /** A turn sends nothing but answers to the request in the mailbox. */
  lemma TurnAnswers(s: St, env: Env)
    requires Consistent(s)
    ensures forall o | o in Protocols(s, env).1 :: o.to.Some?
  {
    var (t, out) := Process(s, env);
    assert forall o | o in out :: o.to.Some?;
    assert forall o | o in Drop(t, env).1 :: o.to.Some?;
  }

  /** With no reply held, a step sends nothing but answers to requests: a completion sends nothing. */
  lemma {:induction false} NoStrayCompletion(s: St, es: seq<Event>)
    requires Consistent(s) && s.held.None?
    requires forall i | 0 <= i < |es| :: !Holds(Run(s, es[..i]).0, es[i])
    ensures var (t, out) := Run(s, es);
            Consistent(t) && t.held.None? && forall o | o in out :: o.to.Some?
  {
    if es != [] {
      var n := |es| - 1;
      forall i | 0 <= i < n ensures !Holds(Run(s, es[..n][..i]).0, es[..n][i]) {
        assert es[..n][..i] == es[..i];
      }
      NoStrayCompletion(s, es[..n]);
      NoStrayStep(Run(s, es[..n]).0, es[n]);
    }
  }

  /** A hold starts with a turn on the download, which is not answered. */
  lemma HoldStarts(s: St, e: Event)
    requires Consistent(s) && Holds(s, e)
    ensures e.Turn? && s.inbox.Some? && Next(s, e).1 == []
    ensures Next(s, e).0.held == Some(Held(s.inbox.value.index, s.inbox.value.sub))
  {
  }

  function Final(h: Held, code: u32): Reply {
    if code != 0 then SdoAbort(h.index, h.sub, code) else Response(h.index, h.sub)
  }

  /** A hold ends with at most one reply, for what was held, and with none if it is a stop. */
  lemma HoldEnds(s: St, e: Event)
    requires s.held.Some? && EndsHold(e)
    ensures Next(s, e).0.held.None?
    ensures Next(s, e).1 == if e.Completion? && e.claimed then [Out(Final(s.held.value, e.code), None)] else []
  {
  }

  /** A run through a hold: the step that starts it, the steps of the hold, the step that ends it, and
      the steps up to the next hold. */
  datatype Life = Life(start: (St, seq<Out>), hold: (St, seq<Out>), end: (St, seq<Out>), rest: (St, seq<Out>))

  ghost predicate Lives(s: St, e: Event, es: seq<Event>, last: Event, after: seq<Event>, l: Life) {
    && l.start == Next(s, e) && l.hold == Run(l.start.0, es) && l.end == Next(l.hold.0, last)
    && l.rest == Run(l.end.0, after)
    && Holds(s, e) && EndsHold(last) && (forall i | 0 <= i < |es| :: !EndsHold(es[i]))
    && (forall i | 0 <= i < |after| :: !Holds(Run(l.end.0, after[..i]).0, after[i]))
  }

  /**
   The life of a held reply, over every run. The download is not answered when it is taken into hold;
   while it is held everything sent is quiet, and of the SDO requests taken up exactly those that find a
   buffer are answered, that the service is at work; what ends the hold sends at most one reply, for the
   held index and subindex, and none if the mailboxes stop or the hold is cancelled; and after that
   no completion sends anything until another download is held.
   */
  lemma HeldLaw(s: St, e: Event, es: seq<Event>, last: Event, after: seq<Event>, l: Life)
    requires Consistent(s) && Lives(s, e, es, last, after, l)
    ensures s.inbox.Some? && l.start.1 == []
    ensures forall o | o in l.hold.1 :: Quiet(o)
    ensures Answered(l.hold.1) == Met(l.start.0, es, false)
    ensures l.end.1 == if last.Completion? && last.claimed
                       then [Out(Final(Held(s.inbox.value.index, s.inbox.value.sub), last.code), None)] else []
    ensures forall o | o in l.rest.1 :: o.to.Some?
  {
    HoldStarts(s, e);
    NextConsistent(s, e);
    QuietRun(l.start.0, es);
    BusyAnswers(l.start.0, es);
    NextConsistent(l.hold.0, last);
    HoldEnds(l.hold.0, last);
    NoStrayCompletion(l.end.0, after);
  }

  /** An SDO response or abort is sent while a reply is held exactly when a turn that finds a buffer
      meets a CoE request of a service that is neither SDO nor information, nor 0. */
  lemma SdoDuringHoldIff(s: St, e: Event)
    requires Consistent(s) && s.held.Some? && !EndsHold(e)
    ensures (exists o :: o in Next(s, e).1 && SdoReply(o.reply))
       <==> e.Turn? && e.env.claimed && s.run && s.xoe == Idle && s.inbox.Some?
            && s.inbox.value.coe && s.inbox.value.length >= 8 && Stray(s.inbox.value) && s.inbox.value.service != 0
  {
    var out := Next(s, e).1;
    if e.Turn? && e.env.claimed && s.run && s.xoe == Idle && s.inbox.Some?
       && s.inbox.value.coe && s.inbox.value.length >= 8 && Stray(s.inbox.value) && s.inbox.value.service != 0 {
      assert out[0] in out && SdoReply(out[0].reply);
    }
  }

  // ---------------------------------------------------------------- requests that block the mailbox

  /** An SDO request that no handler takes: an upload of the wrong length, a segment request with no
      upload open, or a command that is none of the four kinds. */
  predicate Blocks(q: Request, uploading: bool) {
    q.coe && q.length >= 8 && Dispatch(q, false, uploading) == Nothing
  }

  lemma BlockedStep(s: St, e: Event)
    requires Consistent(s) && s.run && s.held.None? && s.xoe == Coe && Blocks(s.inbox.value, s.uploading)
    requires !e.StopMailboxes?
    ensures Next(s, e) == (s, [])
  {
    var none: seq<Out> := [];
    assert none + none == none;
  }

  /** Such a request, once taken up, stays in the mailbox without an answer, and no other is read,
      until the mailboxes are stopped. */
  lemma {:induction false} BlockedUntilStop(s: St, es: seq<Event>)
    requires Consistent(s) && s.run && s.held.None? && s.xoe == Coe && Blocks(s.inbox.value, s.uploading)
    requires forall i | 0 <= i < |es| :: !es[i].StopMailboxes?
    ensures Run(s, es) == (s, [])
  {
    if es != [] {
      BlockedUntilStop(s, es[..|es| - 1]);
      BlockedStep(s, es[|es| - 1]);
      var none: seq<Out> := [];
      assert none + none == none;
    }
  }

  /** A turn is done with an SDO request that it takes up exactly when a handler takes it. */
  lemma ReleasedIff(s: St, env: Env)
    requires Consistent(s) && s.run && s.xoe == Idle && s.inbox.Some?
    requires s.inbox.value.coe && s.inbox.value.length >= 8 && s.inbox.value.service == 2
    ensures Protocols(s, env).0.inbox.None? <==> s.held.Some? || !Blocks(s.inbox.value, s.uploading)
  {
  }
}

/** The process over mutable state. */
module HeldReply {
  import opened Base
  import opened CoeSpec

  class Process {
    var run: bool
    var inbox: Option<Request>     // MBX[0] and whether MBXcontrol[0] is claimed
    var xoe: Xoe
    var active: bool               // sdo_held
    var index: u16
    var subindex: u8
    var uploading: bool            // ESCvar.segmented is MBXSEU

    ghost function Abs(): St
      reads this
    {
      St(run, inbox, xoe, if active then Some(Held(index, subindex)) else None, uploading)
    }

    constructor ()
      ensures Abs() == Stopped
    {
      run, inbox, xoe, active, index, subindex, uploading := false, None, Idle, false, 0, 0, false;
    }

    method Release()
      modifies this
      ensures Abs() == CoeSpec.Release(old(Abs()))
    {
      inbox, xoe := None, Idle;
    }

    /** ESC_SDO_complete */
    method Complete(code: u32, claimed: bool) returns (out: seq<Out>)
      modifies this
      ensures (Abs(), out) == CoeSpec.Complete(old(Abs()), code, claimed)
    {
      if !active {
        return [];
      }
      active := false;
      if !claimed {
        return [];
      }
      if code != 0 {
        return [Out(SdoAbort(index, subindex, code), None)];
      }
      return [Out(Response(index, subindex), None)];
    }

    /** ESC_SDO_cancel */
    method Cancel()
      modifies this
      ensures Abs() == CoeSpec.Cancel(old(Abs()))
    {
      active := false;
    }

    /** ESC_stopmbx, as far as the process goes */
    method StopMbx()
      modifies this
      ensures Abs() == CoeSpec.StopMbx(old(Abs()))
    {
      run, inbox, xoe, uploading := false, None, Idle, false;
      Cancel();
    }

    /** A single download whose hook asked for time. */
    method Hold(q: Request, env: Env) returns (out: seq<Out>)
      modifies this
      ensures Abs() == (if env.fits then CoeSpec.Release(old(Abs())).(held := Some(Held(q.index, q.sub)))
                        else CoeSpec.Release(old(Abs())))
      ensures out == if env.fits then [] else Answer(env, SdoAbort(q.index, q.sub, AbortGeneral), q)
    {
      out := [];
      if env.fits {
        active, index, subindex := true, q.index, q.sub;
      } else {
        out := Answer(env, SdoAbort(q.index, q.sub, AbortGeneral), q);
      }
      Release();
    }

    /** The part of ESC_coeprocess for an SDO request. */
    method SdoRequest(q: Request, env: Env) returns (out: seq<Out>)
      requires q.service == 2 && !active
      modifies this
      ensures (Abs(), out) == Handle(old(Abs()), q, env)
    {
      var kind, ca := q.command / 0x20 * 0x20, q.command / 0x10 % 2 == 1;
      if kind == 0x40 && q.length == 10 {
      } else if kind == 0x60 && q.command % 0x10 == 0 && q.length == 10 && uploading {
      } else if kind == 0x20 {
        if !ca && env.pending {
          out := Hold(q, env);
          return;
        }
      } else if kind == 0x00 {
      } else {
        return [];
      }
      uploading := env.uploading;
      Release();
      out := Answer(env, env.answer, q);
    }

    /** ESC_coeprocess from the dispatch on. */
    method Serve(q: Request, env: Env) returns (out: seq<Out>)
      requires inbox == Some(q) && xoe == Coe
      modifies this
      ensures (Abs(), out) == Handle(old(Abs()), q, env)
    {
      if q.service == 2 && active {
        Release();
        out := Answer(env, MbxError(InWork), q);
      } else if q.service == 2 {
        out := SdoRequest(q, env);
      } else if q.service == 8 && q.opcode == 1 {
        if env.claimed {
          if env.more {
            xoe := CoeList;
          } else {
            Release();
          }
        }
        out := Answer(env, Information, q);
      } else if q.service == 8 && (q.opcode == 3 || q.opcode == 5) {
        if env.claimed {
          Release();
        }
        out := Answer(env, Information, q);
      } else {
        out := Answer(env, if q.service == 0 then MbxError(InvalidHeader)
                           else SdoAbort(q.index, q.sub, AbortUnsupported), q);
        Release();
      }
    }

    /** ESC_coeprocess */
    method Coeprocess(env: Env) returns (out: seq<Out>)
      requires xoe != Idle ==> inbox.Some?
      modifies this
      ensures (Abs(), out) == CoeSpec.Process(old(Abs()), env)
    {
      out := [];
      if !run || inbox.None? {
        return;
      }
      var q := inbox.value;
      if xoe == Idle && q.coe {
        if q.length < 8 {
          out := Answer(env, MbxError(InvalidSize), q);
        } else {
          xoe := Coe;
        }
      }
      if xoe == CoeList && !env.outpost {
        if env.claimed && !env.more {
          Release();
        }
        out := Answer(env, Information, q);
      }
      if xoe == Coe {
        out := Serve(q, env);
      }
    }
  }
}
