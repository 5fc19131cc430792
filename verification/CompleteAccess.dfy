/**
 Complete Access (section 5.6 of ETG.1000.6, chapter 12.2 of ETG.1020): all entries of an object in
 one transfer. The layout of the entries, and what moving them between the dictionary and a buffer
 means.
 */
module CaSpec {
  import opened Base
  import opened Dictionary
  import opened PdoMap
  import opened SdoSpec

  const OtypeVar: u16 := 0x0007
  const AbortNotSupported: u32 := 0x06010004  // ABORT_CA_NOT_SUPPORTED

  predicate ByteEntry(e: Entry) { e.bitlength % 8 == 0 }

  /** A string object, by the type of its first entry. */
  predicate Dynamic(o: Object)
    requires o.entries != []
  {
    0x0009 <= o.entries[0].datatype_ <= 0x000B
  }

  // ---------------------------------------------------------------- layout

  /** An access: the object, its place in the dictionary, the entry the access starts at, and the AL
      state. */
  datatype Access = Access(obj: Object, place: nat, first: nat, alState: nat)

  predicate In(a: Access, k: nat) {
    a.first <= k <= a.obj.maxsub < |a.obj.entries|
  }

  predicate InOrEnd(a: Access, k: nat) {
    a.first <= k <= a.obj.maxsub + 1 <= |a.obj.entries|
  }

  function EntryAt(a: Access, k: nat): Entry
    requires In(a, k)
  {
    a.obj.entries[k]
  }

  /** The bits entry k takes: the first one is padded to 16 unless the object is a variable. */
  function Width(a: Access, k: nat): nat
    requires In(a, k)
  {
    if k == 0 && a.obj.objtype != OtypeVar then 16 else EntryAt(a, k).bitlength
  }

  /** The size in bits before entry k. */
  function Pos(a: Access, k: nat): nat
    requires InOrEnd(a, k)
    decreases k, 0
  {
    if k == a.first then 0 else PlacedAt(a, k - 1) + Width(a, k - 1)
  }

  /** Where entry k goes: byte entries start at a byte. */
  function PlacedAt(a: Access, k: nat): nat
    requires In(a, k)
    decreases k, 1
  {
    if ByteEntry(EntryAt(a, k)) then (Pos(a, k) + 7) / 8 * 8 else Pos(a, k)
  }

  function Total(a: Access): nat
    requires InOrEnd(a, a.obj.maxsub + 1)
  {
    Pos(a, a.obj.maxsub + 1)
  }

  /** An access to an object that can be moved: an entry padded to 16 bits has no more, and what each
      entry holds has its length. */
  predicate Movable(a: Access) {
    && InOrEnd(a, a.obj.maxsub + 1)
    && (a.obj.objtype != OtypeVar ==> a.obj.entries[0].bitlength <= 16)
  }

  /** What the entries of the dictionary hold. */
  type Store = map<Ref, seq<Octet>>

  predicate Holds(a: Access, content: Store) {
    forall k | 0 <= k < |a.obj.entries| ::
      Ref(a.place, k) in content && |content[Ref(a.place, k)]| == Bytes(a.obj.entries[k].bitlength)
  }

  function Held(a: Access, k: nat, content: Store): (r: seq<Octet>)
    requires In(a, k) && Holds(a, content)
    ensures |r| == Bytes(EntryAt(a, k).bitlength)
  {
    content[Ref(a.place, k)]
  }

  /** The entry before which a transfer of at most max bytes stops; 0 means no limit. */
  function Stop(a: Access, k: nat, max: nat): (n: nat)
    requires InOrEnd(a, k)
    ensures k <= n && InOrEnd(a, n)
    decreases a.obj.maxsub + 1 - k
  {
    if k == a.obj.maxsub + 1 then k
    else if max > 0 && Bytes(Pos(a, k + 1)) >= max then k + 1
    else Stop(a, k + 1, max)
  }

  predicate Readable(a: Access, k: nat)
    requires In(a, k)
  {
    ReadAccess(EntryAt(a, k).flags, a.alState)
  }

  predicate Writable(a: Access, k: nat)
    requires In(a, k)
  {
    WriteAccess(EntryAt(a, k).flags, a.alState)
  }

  // ---------------------------------------------------------------- moving one entry

  /** length bits of v or-ed into b at offset. */
  function OrIn(b: Octet, v: Octet, offset: nat, length: nat): Octet {
    seq(8, j requires 0 <= j < 8 => b[j] || (offset <= j < offset + length && v[j - offset]))
  }

  function Clear(b: Octet, offset: nat, length: nat): Octet {
    seq(8, j requires 0 <= j < 8 => b[j] && !(offset <= j < offset + length))
  }

  /** A bit entry goes into one byte, which the first one there clears if it may be read. */
  function PutBits(b: Octet, v: Octet, readable: bool, offset: nat, length: nat): Octet {
    if readable then OrIn(if offset == 0 then ZeroOctet() else b, v, offset, length)
    else Clear(b, offset, length)
  }

  function PutBytes(buf: seq<Octet>, data: seq<Octet>, at: nat): (r: seq<Octet>)
    ensures |r| == |buf|
  {
    seq(|buf|, j requires 0 <= j < |buf| => if at <= j < at + |data| then data[j - at] else buf[j])
  }

  /** What the master gets for a byte entry: its bytes, or zeros if it may not be read. */
  function Sent(a: Access, k: nat, content: Store): seq<Octet>
    requires In(a, k) && Holds(a, content)
  {
    if Readable(a, k) then Held(a, k, content) else Zeros(|Held(a, k, content)|)
  }

  /** The buffer after an upload of entry k. */
  function Put(a: Access, k: nat, content: Store, buf: seq<Octet>): (r: seq<Octet>)
    requires In(a, k) && Holds(a, content)
    ensures |r| == |buf|
  {
    var at := PlacedAt(a, k);
    if ByteEntry(EntryAt(a, k)) then PutBytes(buf, Sent(a, k, content), at / 8)
    else if at / 8 >= |buf| then buf
    else buf[at / 8 := PutBits(buf[at / 8], Held(a, k, content)[0], Readable(a, k), at % 8, EntryAt(a, k).bitlength)]
  }

  /** The buffer after an upload of the entries before k. */
  function Packed(a: Access, k: nat, content: Store, buf: seq<Octet>): (r: seq<Octet>)
    requires InOrEnd(a, k) && Holds(a, content)
    ensures |r| == |buf|
    decreases k
  {
    if k == a.first then buf else Put(a, k - 1, content, Packed(a, k - 1, content, buf))
  }

  /** The loop clears byte 1 before an upload. */
  function Cleared(buf: seq<Octet>): (r: seq<Octet>)
    ensures |r| == |buf|
  {
    if |buf| > 1 then buf[1 := ZeroOctet()] else buf
  }

  /** The buffer after an upload. */
  function Upload(a: Access, content: Store, buf: seq<Octet>): (r: seq<Octet>)
    requires InOrEnd(a, a.obj.maxsub + 1) && Holds(a, content)
    ensures |r| == |buf|
  {
    Packed(a, a.obj.maxsub + 1, content, Cleared(buf))
  }

  function Slice(buf: seq<Octet>, at: nat, n: nat): seq<Octet> {
    if at + n <= |buf| then buf[at..at + n] else Zeros(n)
  }

  /** The dictionary after a download of entry k: a byte entry that may be written takes its bytes,
      any other keeps what it holds. */
  function Take(a: Access, k: nat, content: Store, buf: seq<Octet>): Store
    requires In(a, k)
  {
    if ByteEntry(EntryAt(a, k)) && Writable(a, k) then
      content[Ref(a.place, k) := Slice(buf, PlacedAt(a, k) / 8, EntryAt(a, k).bitlength / 8)]
    else content
  }

  /** The dictionary after a download of the entries before k. */
  function Stored(a: Access, k: nat, content: Store, buf: seq<Octet>): Store
    requires InOrEnd(a, k)
    decreases k
  {
    if k == a.first then content else Take(a, k - 1, Stored(a, k - 1, content, buf), buf)
  }

  /** The dictionary after a download of at most max bytes. */
  function Download(a: Access, content: Store, buf: seq<Octet>, max: nat): Store
    requires InOrEnd(a, a.first)
  {
    Stored(a, Stop(a, a.first, max), content, buf)
  }

  function Bit(buf: seq<Octet>, b: nat): bool
    requires b / 8 < |buf|
  {
    buf[b / 8][b % 8]
  }
}

/** The laws of the layout and of the two directions. */
module CaLaws {
  import opened Base
  import opened Dictionary
  import opened PdoMap
  import opened SdoSpec
  import opened CaSpec

  lemma PosNext(a: Access, k: nat)
    requires Movable(a) && In(a, k)
    ensures Pos(a, k) <= PlacedAt(a, k)
    ensures PlacedAt(a, k) + EntryAt(a, k).bitlength <= Pos(a, k + 1)
    ensures ByteEntry(EntryAt(a, k)) ==> PlacedAt(a, k) % 8 == 0
    ensures !ByteEntry(EntryAt(a, k)) ==> PlacedAt(a, k) == Pos(a, k)
  {
  }

  lemma {:induction false} PosMonotone(a: Access, k: nat, m: nat)
    requires Movable(a) && InOrEnd(a, m) && a.first <= k <= m
    ensures Pos(a, k) <= Pos(a, m)
    decreases m - k
  {
    if k < m {
      PosNext(a, k);
      PosMonotone(a, k + 1, m);
    }
  }

  lemma Inside(a: Access, k: nat)
    requires Movable(a) && In(a, k)
    ensures PlacedAt(a, k) + EntryAt(a, k).bitlength <= Pos(a, k + 1) <= Total(a)
  {
    PosNext(a, k);
    PosMonotone(a, k + 1, a.obj.maxsub + 1);
  }

  /** Each entry ends before the next one starts, the last one before the end of the transfer; byte
      entries start at a byte. */
  lemma Disjoint(a: Access, k: nat, m: nat)
    requires Movable(a) && In(a, k) && In(a, m) && k < m
    ensures PlacedAt(a, k) + EntryAt(a, k).bitlength <= PlacedAt(a, m)
    ensures PlacedAt(a, m) + EntryAt(a, m).bitlength <= Total(a)
    ensures ByteEntry(EntryAt(a, m)) ==> PlacedAt(a, m) % 8 == 0
  {
    PosNext(a, k);
    PosMonotone(a, k + 1, m);
    PosNext(a, m);
    Inside(a, m);
  }

  // ---------------------------------------------------------------- what an upload leaves alone

  /** Bits before an entry's place keep their value. */
  lemma PutKeepsBelow(a: Access, k: nat, content: Store, buf: seq<Octet>, b: nat)
    requires Movable(a) && In(a, k) && Holds(a, content) && b < Pos(a, k) && b / 8 < |buf|
    ensures Bit(Put(a, k, content, buf), b) == Bit(buf, b)
  {
    PosNext(a, k);
    var at := PlacedAt(a, k);
    if !ByteEntry(EntryAt(a, k)) && b / 8 == at / 8 {
      assert b % 8 < at % 8;
    }
  }

  /** Bytes past an entry's bits keep their value. */
  lemma PutKeepsAbove(a: Access, k: nat, content: Store, buf: seq<Octet>, j: nat)
    requires Movable(a) && In(a, k) && Holds(a, content) && j < |buf| && Pos(a, k + 1) <= 8 * j
    ensures Put(a, k, content, buf)[j] == buf[j]
  {
    PosNext(a, k);
    if ByteEntry(EntryAt(a, k)) {
      assert |Sent(a, k, content)| == EntryAt(a, k).bitlength / 8;
    }
  }

  lemma {:induction false} PackedKeepsBelow(a: Access, k: nat, m: nat, content: Store, buf: seq<Octet>, b: nat)
    requires Movable(a) && Holds(a, content) && a.first <= k <= m && InOrEnd(a, m) && b < Pos(a, k) && b / 8 < |buf|
    ensures Bit(Packed(a, m, content, buf), b) == Bit(Packed(a, k, content, buf), b)
    decreases m - k
  {
    if k < m {
      var p := m - 1;
      assert In(a, p);
      PosMonotone(a, k, p);
      PackedKeepsBelow(a, k, p, content, buf, b);
      PackedStep(a, p, m, content, buf, b);
    }
  }

  lemma PackedStep(a: Access, p: nat, m: nat, content: Store, buf: seq<Octet>, b: nat)
    requires Movable(a) && Holds(a, content) && In(a, p) && m == p + 1 && b < Pos(a, p) && b / 8 < |buf|
    ensures InOrEnd(a, m) && Bit(Packed(a, m, content, buf), b) == Bit(Packed(a, p, content, buf), b)
  {
    PutKeepsBelow(a, p, content, Packed(a, p, content, buf), b);
    PackedNext(a, p, m, content, buf);
  }

  lemma {:induction false} PackedKeepsAbove(a: Access, k: nat, content: Store, buf: seq<Octet>, j: nat)
    requires Movable(a) && Holds(a, content) && InOrEnd(a, k) && Pos(a, k) <= 8 * j && j < |buf|
    ensures Packed(a, k, content, buf)[j] == buf[j]
    decreases k
  {
    if k > a.first {
      PosNext(a, k - 1);
      PackedKeepsAbove(a, k - 1, content, buf, j);
      PutKeepsAbove(a, k - 1, content, Packed(a, k - 1, content, buf), j);
    }
  }

  lemma OctetsEqual(x: seq<Octet>, y: seq<Octet>, j: nat)
    requires j < |x| == |y| && forall b: nat | b / 8 == j :: Bit(x, b) == Bit(y, b)
    ensures x[j] == y[j]
  {
    forall t: nat | t < 8 ensures x[j][t] == y[j][t] {
      assert (8 * j + t) / 8 == j && Bit(x, 8 * j + t) == Bit(y, 8 * j + t);
    }
  }

  lemma SameByte(a: Access, k: nat, m: nat, content: Store, buf: seq<Octet>, j: nat)
    requires Movable(a) && Holds(a, content) && a.first <= k <= m && InOrEnd(a, m) && 8 * j + 8 <= Pos(a, k)
             && j < |buf|
    ensures Packed(a, m, content, buf)[j] == Packed(a, k, content, buf)[j]
  {
    var all, one := Packed(a, m, content, buf), Packed(a, k, content, buf);
    forall b: nat | b / 8 == j ensures Bit(all, b) == Bit(one, b) {
      PackedKeepsBelow(a, k, m, content, buf, b);
    }
    OctetsEqual(all, one, j);
  }

  lemma SameSlice(a: Access, k: nat, m: nat, content: Store, buf: seq<Octet>, at: nat, n: nat)
    requires Movable(a) && Holds(a, content) && a.first <= k <= m && InOrEnd(a, m)
    requires 8 * (at + n) <= Pos(a, k) && at + n <= |buf|
    ensures Slice(Packed(a, m, content, buf), at, n) == Slice(Packed(a, k, content, buf), at, n)
  {
    forall j | at <= j < at + n ensures Packed(a, m, content, buf)[j] == Packed(a, k, content, buf)[j] {
      SameByte(a, k, m, content, buf, j);
    }
  }

  // ---------------------------------------------------------------- byte entries

  lemma PutSlice(a: Access, k: nat, content: Store, buf: seq<Octet>)
    requires Movable(a) && In(a, k) && Holds(a, content) && ByteEntry(EntryAt(a, k)) && Bytes(Pos(a, k + 1)) <= |buf|
    ensures Slice(Put(a, k, content, buf), PlacedAt(a, k) / 8, EntryAt(a, k).bitlength / 8) == Sent(a, k, content)
  {
    PosNext(a, k);
    var at, n := PlacedAt(a, k) / 8, EntryAt(a, k).bitlength / 8;
    var data := Sent(a, k, content);
    assert |data| == n && at + n <= |buf|;
    assert PutBytes(buf, data, at)[at..at + n] == data;
  }

  /** The upload carries every byte entry at its place. */
  lemma ByteEntrySent(a: Access, k: nat, content: Store, buf: seq<Octet>)
    requires Movable(a) && Holds(a, content) && In(a, k) && ByteEntry(EntryAt(a, k)) && Bytes(Total(a)) <= |buf|
    ensures Slice(Upload(a, content, buf), PlacedAt(a, k) / 8, EntryAt(a, k).bitlength / 8) == Sent(a, k, content)
  {
    var was := Cleared(buf);
    Inside(a, k);
    PosNext(a, k);
    PutSlice(a, k, content, Packed(a, k, content, was));
    SameSlice(a, k + 1, a.obj.maxsub + 1, content, was, PlacedAt(a, k) / 8, EntryAt(a, k).bitlength / 8);
  }

  // ---------------------------------------------------------------- bit entries

  /** The first bit entry of the byte that entry k starts in. */
  function ByteStart(a: Access, k: nat): (r: nat)
    requires In(a, k)
    ensures In(a, r)
  {
    if k == a.first || Pos(a, k) % 8 == 0 then k else ByteStart(a, k - 1)
  }

  /** Entry k does not cross a byte, unless it is a byte entry. */
  predicate InOneByte(a: Access, k: nat)
    requires In(a, k)
  {
    ByteEntry(EntryAt(a, k)) || Pos(a, k) % 8 + EntryAt(a, k).bitlength <= 8
  }

  ghost predicate Compact(a: Access) {
    forall k: nat | In(a, k) :: InOneByte(a, k)
  }

  lemma Padded(a: Access)
    requires InOrEnd(a, a.first)
    ensures In(a, 0) && a.obj.objtype != OtypeVar ==> Pos(a, 1) == 16
  {
  }

  lemma OpenAfter(a: Access, p: nat, k: nat)
    requires Movable(a) && In(a, p) && k == p + 1 && InOneByte(a, p) && Pos(a, k) % 8 != 0
    ensures !ByteEntry(EntryAt(a, p)) && Pos(a, k) == Pos(a, p) + EntryAt(a, p).bitlength
    ensures Pos(a, p) / 8 == Pos(a, k) / 8
  {
    Padded(a);
    assert Pos(a, k) == PlacedAt(a, p) + Width(a, p);
    WholeSum(PlacedAt(a, p), Width(a, p));
    SameByteSum(Pos(a, p), EntryAt(a, p).bitlength);
  }

  lemma WholeSum(x: nat, y: nat)
    ensures x % 8 == 0 && y % 8 == 0 ==> (x + y) % 8 == 0
  {
  }

  lemma SameByteSum(at: nat, n: nat)
    ensures at % 8 + n <= 8 && (at + n) % 8 != 0 ==> at / 8 == (at + n) / 8
  {
  }

  /** Inside a byte, the entry before is a bit entry of the same byte. */
  lemma OpenByte(a: Access, k: nat)
    requires Movable(a) && Compact(a) && In(a, k) && Pos(a, k) % 8 != 0
    ensures a.first < k && !ByteEntry(EntryAt(a, k - 1))
    ensures Pos(a, k) == Pos(a, k - 1) + EntryAt(a, k - 1).bitlength
    ensures Pos(a, k - 1) / 8 == Pos(a, k) / 8
  {
    assert InOneByte(a, k - 1);
    OpenAfter(a, k - 1, k);
  }

  /** The bits behind a bit entry in its byte: cleared if it is the first there and may be read. */
  lemma PutKeepsRest(a: Access, k: nat, content: Store, buf: seq<Octet>, b: nat)
    requires Movable(a) && In(a, k) && Holds(a, content) && !ByteEntry(EntryAt(a, k)) && b / 8 < |buf|
    requires b / 8 == Pos(a, k) / 8 && Pos(a, k) + EntryAt(a, k).bitlength <= b
    ensures Bit(Put(a, k, content, buf), b) == (Bit(buf, b) && !(Pos(a, k) % 8 == 0 && Readable(a, k)))
  {
  }

  /** The bits of the current byte that no entry has written yet: zero if the byte's first entry
      cleared it, else what the buffer held before. */
  lemma {:induction false} RestOfByte(a: Access, k: nat, content: Store, buf: seq<Octet>, b: nat)
    requires Movable(a) && Holds(a, content) && Compact(a) && In(a, k)
    requires Pos(a, k) % 8 != 0 && Pos(a, k) <= b && b / 8 == Pos(a, k) / 8 && b / 8 < |buf|
    ensures Bit(Packed(a, k, content, buf), b) == (Bit(buf, b) && !Readable(a, ByteStart(a, k)))
    decreases k
  {
    OpenByte(a, k);
    var before := Packed(a, k - 1, content, buf);
    PutKeepsRest(a, k - 1, content, before, b);
    if Pos(a, k - 1) % 8 == 0 {
      PackedKeepsAbove(a, k - 1, content, buf, b / 8);
    } else {
      RestOfByte(a, k - 1, content, buf, b);
    }
  }

  lemma SameOctet(p: nat, t: nat)
    requires p % 8 + t < 8
    ensures (p + t) / 8 == p / 8 && (p + t) % 8 == p % 8 + t
  {
  }

  lemma PutBit(a: Access, k: nat, content: Store, buf: seq<Octet>, t: nat, b: nat)
    requires Movable(a) && In(a, k) && Holds(a, content) && !ByteEntry(EntryAt(a, k)) && InOneByte(a, k)
    requires t < EntryAt(a, k).bitlength && b == Pos(a, k) + t && b / 8 < |buf|
    ensures Bit(Put(a, k, content, buf), b)
         == (Readable(a, k) && (Held(a, k, content)[0][t] || (Bit(buf, b) && Pos(a, k) % 8 != 0)))
  {
    SameOctet(Pos(a, k), t);
  }

  lemma StartsByte(a: Access, k: nat)
    requires In(a, k)
    ensures Pos(a, k) % 8 == 0 ==> ByteStart(a, k) == k
  {
  }

  /** Bit b in the place of bit entry k, before the entry is put there. */
  lemma BitBefore(a: Access, k: nat, content: Store, buf: seq<Octet>, b: nat)
    requires Movable(a) && Holds(a, content) && Compact(a) && In(a, k) && Pos(a, k) <= b
    requires b / 8 == Pos(a, k) / 8 && b / 8 < |buf|
    ensures (Bit(Packed(a, k, content, buf), b) && Pos(a, k) % 8 != 0)
         == (Bit(buf, b) && !Readable(a, ByteStart(a, k)) && Pos(a, k) % 8 != 0)
    ensures Pos(a, k) % 8 == 0 ==> Bit(Packed(a, k, content, buf), b) == Bit(buf, b)
  {
    if Pos(a, k) % 8 == 0 {
      PackedKeepsAbove(a, k, content, buf, b / 8);
    } else {
      RestOfByte(a, k, content, buf, b);
    }
  }

  lemma PackedBit(a: Access, k: nat, q: nat, content: Store, buf: seq<Octet>, t: nat, b: nat)
    requires Movable(a) && Holds(a, content) && Compact(a) && In(a, k) && !ByteEntry(EntryAt(a, k))
    requires t < EntryAt(a, k).bitlength && b == Pos(a, k) + t && b / 8 < |buf| && q == k + 1
    ensures Bit(Packed(a, q, content, buf), b)
         == (Readable(a, k)
             && (Held(a, k, content)[0][t] || (Bit(buf, b) && !Readable(a, ByteStart(a, k)))))
  {
    var before := Packed(a, k, content, buf);
    assert InOneByte(a, k);
    SameOctet(Pos(a, k), t);
    BitThere(a, k, content, buf, b, before);
    PutBit(a, k, content, before, t, b);
    PackedNext(a, k, q, content, buf);
  }

  lemma PackedNext(a: Access, k: nat, q: nat, content: Store, buf: seq<Octet>)
    requires In(a, k) && Holds(a, content) && q == k + 1
    ensures InOrEnd(a, q) && Packed(a, q, content, buf) == Put(a, k, content, Packed(a, k, content, buf))
  {
  }

  /** What lies in the place of bit entry k that the entry does not overwrite. */
  lemma BitThere(a: Access, k: nat, content: Store, buf: seq<Octet>, b: nat, before: seq<Octet>)
    requires Movable(a) && Holds(a, content) && Compact(a) && In(a, k) && Pos(a, k) <= b
    requires b / 8 == Pos(a, k) / 8 && b / 8 < |buf| && before == Packed(a, k, content, buf)
    ensures Readable(a, k) ==>
              (Bit(before, b) && Pos(a, k) % 8 != 0) == (Bit(buf, b) && !Readable(a, ByteStart(a, k)))
  {
    BitBefore(a, k, content, buf, b);
    StartsByte(a, k);
  }

  /** Position b of the image is bit t of bit entry k. */
  predicate Carries(a: Access, k: nat, t: nat, b: nat) {
    In(a, k) && !ByteEntry(EntryAt(a, k)) && t < EntryAt(a, k).bitlength && b == Pos(a, k) + t
  }

  /** Bit b of an upload into buf. */
  function BitSent(a: Access, content: Store, buf: seq<Octet>, b: nat): Option<bool>
    requires InOrEnd(a, a.obj.maxsub + 1) && Holds(a, content)
  {
    if b / 8 < |buf| then Some(Bit(Upload(a, content, buf), b)) else None
  }

  /** What the buffer holds at bit b when the loop starts on its entries. */
  function Stale(buf: seq<Octet>, b: nat): bool {
    b / 8 < |buf| && b / 8 != 1 && Bit(buf, b)
  }

  lemma InBuffer(a: Access, k: nat, t: nat, b: nat, n: nat)
    requires Movable(a) && Compact(a) && Carries(a, k, t, b) && Bytes(Total(a)) <= n
    ensures b / 8 < n && b < Pos(a, k + 1) && b / 8 == Pos(a, k) / 8 && t < 8
  {
    Inside(a, k);
    PosNext(a, k);
    assert InOneByte(a, k);
    SameOctet(Pos(a, k), t);
  }

  lemma ClearedBit(buf: seq<Octet>, b: nat)
    requires b / 8 < |buf|
    ensures Bit(Cleared(buf), b) == Stale(buf, b)
  {
  }

  lemma BitSentOf(a: Access, content: Store, buf: seq<Octet>, b: nat, sent: seq<Octet>)
    requires InOrEnd(a, a.obj.maxsub + 1) && Holds(a, content) && b / 8 < |buf|
    requires sent == Upload(a, content, buf)
    ensures BitSent(a, content, buf, b) == Some(Bit(sent, b))
  {
  }

  /** What goes out at a bit before the place of entry q is decided by the entries before it. */
  lemma SentBefore(a: Access, q: nat, m: nat, content: Store, buf: seq<Octet>, b: nat, was: seq<Octet>)
    requires Movable(a) && Holds(a, content) && InOrEnd(a, q) && m == a.obj.maxsub + 1 && was == Cleared(buf)
    requires b < Pos(a, q) && b / 8 < |buf|
    ensures BitSent(a, content, buf, b) == Some(Bit(Packed(a, q, content, was), b))
  {
    PackedKeepsBelow(a, q, m, content, was, b);
    BitSentOf(a, content, buf, b, Packed(a, m, content, was));
  }

  /**
   What the upload carries for a bit entry, when none crosses a byte: zeros if it may not be read;
   else its bits, or-ed with what the buffer held before unless the first entry of the byte may be
   read too.
   */
  lemma BitEntrySent(a: Access, k: nat, content: Store, buf: seq<Octet>, t: nat, b: nat)
    requires Movable(a) && Holds(a, content) && Compact(a) && Carries(a, k, t, b) && Bytes(Total(a)) <= |buf|
    ensures BitSent(a, content, buf, b)
         == Some(Readable(a, k)
                 && (Held(a, k, content)[0][t] || (Stale(buf, b) && !Readable(a, ByteStart(a, k)))))
  {
    InBuffer(a, k, t, b, |buf|);
    SentBefore(a, k + 1, a.obj.maxsub + 1, content, buf, b, Cleared(buf));
    PackedBit(a, k, k + 1, content, Cleared(buf), t, b);
    ClearedBit(buf, b);
  }

  /** The buffer of n bytes that would show the most. */
  function AllSet(n: nat): seq<Octet> { seq(n, j => [true, true, true, true, true, true, true, true]) }

  lemma Worst(a: Access, k: nat, content: Store, n: nat, t: nat, b: nat)
    requires Movable(a) && Holds(a, content) && Compact(a) && Carries(a, k, t, b) && Bytes(Total(a)) <= n
    requires Readable(a, k) && b / 8 != 1 && t < 8
    ensures |AllSet(n)| == n
    ensures BitSent(a, content, AllSet(n), b)
         == Some(Held(a, k, content)[0][t] || !Readable(a, ByteStart(a, k)))
  {
    InBuffer(a, k, t, b, n);
    BitEntrySent(a, k, content, AllSet(n), t, b);
    assert AllSet(n)[b / 8][b % 8];
  }

  /** The upload carries v at bit b, whatever the n bytes of the buffer held before. */
  ghost predicate Exact(a: Access, content: Store, n: nat, b: nat, v: bool)
    requires InOrEnd(a, a.obj.maxsub + 1) && Holds(a, content)
  {
    forall buf: seq<Octet> | |buf| == n :: BitSent(a, content, buf, b) == Some(v)
  }

  /** A bit of an entry that may be read is carried whatever the buffer held before if and only if the
      first entry of its byte may be read too, or it is set, or it lies in byte 1, which is cleared. */
  lemma ExactIff(a: Access, k: nat, content: Store, n: nat, t: nat, b: nat)
    requires Movable(a) && Holds(a, content) && Compact(a) && Carries(a, k, t, b) && Bytes(Total(a)) <= n
    requires Readable(a, k) && t < 8
    ensures Exact(a, content, n, b, Held(a, k, content)[0][t])
       <==> Readable(a, ByteStart(a, k)) || Held(a, k, content)[0][t] || b / 8 == 1
  {
    forall buf: seq<Octet> | |buf| == n
      ensures BitSent(a, content, buf, b)
           == Some(Held(a, k, content)[0][t] || (Stale(buf, b) && !Readable(a, ByteStart(a, k))))
    {
      BitEntrySent(a, k, content, buf, t, b);
    }
    if b / 8 != 1 {
      Worst(a, k, content, n, t, b);
    }
  }

  /** Another value in bit t of what entry k holds. */
  function Flipped(a: Access, k: nat, content: Store, t: nat): (r: Store)
    requires In(a, k) && Holds(a, content) && t < 8 * Bytes(EntryAt(a, k).bitlength)
    ensures Holds(a, r)
  {
    var held := Held(a, k, content);
    content[Ref(a.place, k) := held[t / 8 := held[t / 8][t % 8 := !held[t / 8][t % 8]]]]
  }

  /** Bit t of a bit entry lies in the byte the entry starts in, and may be read. */
  predicate Shown(a: Access, k: nat, t: nat)
    requires In(a, k)
  {
    Readable(a, k) && t < EntryAt(a, k).bitlength && Pos(a, k) % 8 + t < 8
  }

  lemma PutBitsIgnores(b: Octet, v: Octet, w: Octet, readable: bool, offset: nat, length: nat, t: nat)
    requires !readable || t >= length || offset + t >= 8
    requires forall j | 0 <= j < 8 && j != t :: v[j] == w[j]
    ensures PutBits(b, w, readable, offset, length) == PutBits(b, v, readable, offset, length)
  {
  }

  lemma PutIgnores(a: Access, k: nat, m: nat, content: Store, t: nat, buf: seq<Octet>)
    requires Movable(a) && Holds(a, content) && In(a, k) && In(a, m) && !ByteEntry(EntryAt(a, k))
    requires t < 8 * Bytes(EntryAt(a, k).bitlength) && !Shown(a, k, t)
    ensures Put(a, m, Flipped(a, k, content, t), buf) == Put(a, m, content, buf)
  {
    if m == k && PlacedAt(a, k) / 8 < |buf| {
      PutBitsIgnores(buf[PlacedAt(a, k) / 8], Held(a, k, content)[0], Held(a, k, Flipped(a, k, content, t))[0],
                     Readable(a, k), Pos(a, k) % 8, EntryAt(a, k).bitlength, t);
    }
  }

  /** The bits of an entry beyond its first byte are lost: an upload is the same whatever they are. */
  lemma CrossingLost(a: Access, k: nat, m: nat, content: Store, t: nat, buf: seq<Octet>)
    requires Movable(a) && Holds(a, content) && In(a, k) && InOrEnd(a, m) && !ByteEntry(EntryAt(a, k))
    requires t < 8 * Bytes(EntryAt(a, k).bitlength) && !Shown(a, k, t)
    ensures Packed(a, m, Flipped(a, k, content, t), buf) == Packed(a, m, content, buf)
  {
    forall p, before | In(a, p) ensures SamePut(a, p, content, Flipped(a, k, content, t), before) {
      PutIgnores(a, k, p, content, t, before);
    }
    PackedSame(a, m, content, Flipped(a, k, content, t), buf);
  }

  /** Entry p is put the same from two stores. */
  predicate SamePut(a: Access, p: nat, content: Store, other: Store, before: seq<Octet>)
    requires In(a, p) && Holds(a, content) && Holds(a, other)
  {
    Put(a, p, other, before) == Put(a, p, content, before)
  }

  lemma {:induction false} PackedSame(a: Access, m: nat, content: Store, other: Store, buf: seq<Octet>)
    requires InOrEnd(a, m) && Holds(a, content) && Holds(a, other)
    requires forall p, before | In(a, p) :: SamePut(a, p, content, other, before)
    ensures Packed(a, m, other, buf) == Packed(a, m, content, buf)
    decreases m
  {
    if m > a.first {
      var p := m - 1;
      PackedSame(a, p, content, other, buf);
      PackedLast(a, p, m, content, buf);
      PackedLast(a, p, m, other, buf);
      assert SamePut(a, p, content, other, Packed(a, p, content, buf));
    }
  }

  lemma PackedLast(a: Access, p: nat, m: nat, content: Store, buf: seq<Octet>)
    requires In(a, p) && m == p + 1 && Holds(a, content)
    ensures InOrEnd(a, m) && Packed(a, m, content, buf) == Put(a, p, content, Packed(a, p, content, buf))
  {
  }

  /** An entry sets no bit from the next entry on. */
  lemma PutSetsNoneAbove(a: Access, k: nat, content: Store, buf: seq<Octet>, b: nat)
    requires Movable(a) && In(a, k) && Holds(a, content) && Pos(a, k + 1) <= b && b / 8 < |buf| && !Bit(buf, b)
    ensures !Bit(Put(a, k, content, buf), b)
  {
    if ByteEntry(EntryAt(a, k)) {
      BytesSetNoneAbove(a, k, content, buf, b);
    } else {
      BitsSetNoneAbove(a, k, content, buf, b);
    }
  }

  lemma BytesSetNoneAbove(a: Access, k: nat, content: Store, buf: seq<Octet>, b: nat)
    requires Movable(a) && In(a, k) && Holds(a, content) && Pos(a, k + 1) <= b && b / 8 < |buf| && !Bit(buf, b)
    requires ByteEntry(EntryAt(a, k))
    ensures !Bit(Put(a, k, content, buf), b)
  {
    PosNext(a, k);
    var at, data := PlacedAt(a, k) / 8, Sent(a, k, content);
    assert |data| == EntryAt(a, k).bitlength / 8;
    assert at + |data| <= b / 8;
    assert PutBytes(buf, data, at)[b / 8] == buf[b / 8];
  }

  lemma BitsSetNoneAbove(a: Access, k: nat, content: Store, buf: seq<Octet>, b: nat)
    requires Movable(a) && In(a, k) && Holds(a, content) && Pos(a, k + 1) <= b && b / 8 < |buf| && !Bit(buf, b)
    requires !ByteEntry(EntryAt(a, k))
    ensures !Bit(Put(a, k, content, buf), b)
  {
    PosNext(a, k);
    if b / 8 == Pos(a, k) / 8 {
      PutKeepsRest(a, k, content, buf, b);
    }
  }

  lemma {:induction false} PackedSetsNoneAbove(a: Access, k: nat, content: Store, n: nat, b: nat)
    requires Movable(a) && Holds(a, content) && InOrEnd(a, k) && Pos(a, k) <= b && b / 8 < n
    ensures !Bit(Packed(a, k, content, Zeros(n)), b)
    decreases k
  {
    if k > a.first {
      PosNext(a, k - 1);
      PackedSetsNoneAbove(a, k - 1, content, n, b);
      PutSetsNoneAbove(a, k - 1, content, Packed(a, k - 1, content, Zeros(n)), b);
    }
  }

  /** A bit that is shown goes out, or-ed with what was there. */
  lemma PutShows(a: Access, k: nat, content: Store, buf: seq<Octet>, t: nat, b: nat)
    requires Movable(a) && In(a, k) && Holds(a, content) && !ByteEntry(EntryAt(a, k)) && Shown(a, k, t)
    requires b == Pos(a, k) + t && b / 8 < |buf| && !Bit(buf, b)
    ensures Bit(Put(a, k, content, buf), b) == Held(a, k, content)[0][t]
  {
    SameOctet(Pos(a, k), t);
  }

  lemma ZerosStay(n: nat)
    ensures Cleared(Zeros(n)) == Zeros(n)
  {
  }

  lemma ShownInside(a: Access, k: nat, n: nat, t: nat, b: nat)
    requires Movable(a) && In(a, k) && !ByteEntry(EntryAt(a, k)) && Shown(a, k, t)
    requires b == Pos(a, k) + t && Bytes(Total(a)) <= n
    ensures b < Pos(a, k + 1) && b / 8 < n
  {
    Inside(a, k);
    PosNext(a, k);
  }

  lemma PackedShows(a: Access, k: nat, q: nat, content: Store, n: nat, zeros: seq<Octet>, t: nat, b: nat)
    requires Movable(a) && Holds(a, content) && In(a, k) && !ByteEntry(EntryAt(a, k)) && Shown(a, k, t)
    requires b == Pos(a, k) + t && b / 8 < n && q == k + 1 && zeros == Zeros(n)
    ensures Bit(Packed(a, q, content, zeros), b) == Held(a, k, content)[0][t]
  {
    var before := Packed(a, k, content, zeros);
    PackedSetsNoneAbove(a, k, content, n, b);
    PutShows(a, k, content, before, t, b);
    PackedNext(a, k, q, content, zeros);
  }

  /** An upload into zeros carries every bit that is shown. */
  lemma UploadShows(a: Access, k: nat, q: nat, content: Store, n: nat, zeros: seq<Octet>, t: nat, b: nat)
    requires Movable(a) && Holds(a, content) && In(a, k) && !ByteEntry(EntryAt(a, k)) && Shown(a, k, t)
    requires q == k + 1 && b == Pos(a, k) + t && b < Pos(a, q) && b / 8 < n && zeros == Zeros(n)
    ensures BitSent(a, content, zeros, b) == Some(Held(a, k, content)[0][t])
  {
    ZerosStay(n);
    SentBefore(a, q, a.obj.maxsub + 1, content, zeros, b, zeros);
    PackedShows(a, k, q, content, n, zeros, t, b);
  }

  /** The upload tells apart two values of bit t of entry k, for some content of the n bytes of the
      buffer. */
  ghost predicate Tells(a: Access, k: nat, content: Store, n: nat, t: nat)
    requires InOrEnd(a, a.obj.maxsub + 1) && In(a, k) && Holds(a, content) && t < 8 * Bytes(EntryAt(a, k).bitlength)
  {
    exists buf: seq<Octet> :: |buf| == n && Upload(a, Flipped(a, k, content, t), buf) != Upload(a, content, buf)
  }

  lemma FlippedBit(a: Access, k: nat, content: Store, t: nat)
    requires In(a, k) && Holds(a, content) && t < 8 && t < 8 * Bytes(EntryAt(a, k).bitlength)
    ensures Held(a, k, Flipped(a, k, content, t))[0][t] != Held(a, k, content)[0][t]
  {
  }

  /** Two uploads that differ at a bit differ. */
  lemma BitTells(a: Access, one: Store, two: Store, buf: seq<Octet>, b: nat)
    requires InOrEnd(a, a.obj.maxsub + 1) && Holds(a, one) && Holds(a, two) && b / 8 < |buf|
    requires BitSent(a, one, buf, b) != BitSent(a, two, buf, b)
    ensures Upload(a, one, buf) != Upload(a, two, buf)
  {
    var x, y := Upload(a, one, buf), Upload(a, two, buf);
    BitSentOf(a, one, buf, b, x);
    BitSentOf(a, two, buf, b, y);
  }

  lemma ShownTells(a: Access, k: nat, content: Store, n: nat, t: nat)
    requires Movable(a) && Holds(a, content) && In(a, k) && !ByteEntry(EntryAt(a, k)) && Bytes(Total(a)) <= n
    requires t < 8 * Bytes(EntryAt(a, k).bitlength) && Shown(a, k, t)
    ensures Tells(a, k, content, n, t)
  {
    var flipped, b, buf := Flipped(a, k, content, t), Pos(a, k) + t, Zeros(n);
    ShownInside(a, k, n, t, b);
    UploadShows(a, k, k + 1, content, n, buf, t, b);
    UploadShows(a, k, k + 1, flipped, n, buf, t, b);
    FlippedBit(a, k, content, t);
    BitTells(a, flipped, content, buf, b);
    TellsBy(a, k, content, n, t, buf);
  }

  lemma TellsBy(a: Access, k: nat, content: Store, n: nat, t: nat, buf: seq<Octet>)
    requires InOrEnd(a, a.obj.maxsub + 1) && In(a, k) && Holds(a, content) && t < 8 * Bytes(EntryAt(a, k).bitlength)
    requires |buf| == n && Upload(a, Flipped(a, k, content, t), buf) != Upload(a, content, buf)
    ensures Tells(a, k, content, n, t)
  {
  }

  lemma LostTellsNot(a: Access, k: nat, content: Store, n: nat, t: nat)
    requires Movable(a) && Holds(a, content) && In(a, k) && !ByteEntry(EntryAt(a, k))
    requires t < 8 * Bytes(EntryAt(a, k).bitlength) && !Shown(a, k, t)
    ensures !Tells(a, k, content, n, t)
  {
    if Tells(a, k, content, n, t) {
      var buf: seq<Octet> :| |buf| == n && Upload(a, Flipped(a, k, content, t), buf) != Upload(a, content, buf);
      CrossingLost(a, k, a.obj.maxsub + 1, content, t, Cleared(buf));
    }
  }

  /** The upload depends on bit t of what a bit entry holds exactly if the entry may be read and the
      bit is one of its own that lies in the byte the entry starts in. */
  lemma CrossingIff(a: Access, k: nat, content: Store, n: nat, t: nat)
    requires Movable(a) && Holds(a, content) && In(a, k) && !ByteEntry(EntryAt(a, k)) && Bytes(Total(a)) <= n
    requires t < 8 * Bytes(EntryAt(a, k).bitlength)
    ensures Tells(a, k, content, n, t) <==> Shown(a, k, t)
  {
    if Shown(a, k, t) {
      ShownTells(a, k, content, n, t);
    } else {
      LostTellsNot(a, k, content, n, t);
    }
  }

  // ---------------------------------------------------------------- download

  /** A download changes only byte entries in its range that may be written, and each of those takes
      its own slice of the buffer. */
  lemma {:induction false} StoredEntries(a: Access, k: nat, content: Store, buf: seq<Octet>, r: Ref)
    requires InOrEnd(a, k)
    ensures var after := Stored(a, k, content, buf);
            if r.obj == a.place && a.first <= r.entry < k && ByteEntry(EntryAt(a, r.entry)) && Writable(a, r.entry)
            then r in after
                 && after[r] == Slice(buf, PlacedAt(a, r.entry) / 8, EntryAt(a, r.entry).bitlength / 8)
            else (r in after <==> r in content) && (r in content ==> after[r] == content[r])
    decreases k
  {
    if k > a.first {
      StoredEntries(a, k - 1, content, buf, r);
    }
  }

  /** The loop reaches entry k. */
  predicate Reached(a: Access, k: nat, max: nat)
    requires In(a, k)
  {
    max == 0 || k == a.first || Bytes(Pos(a, k)) < max
  }

  lemma {:induction false} StopIff(a: Access, k: nat, m: nat, max: nat)
    requires Movable(a) && InOrEnd(a, k) && In(a, m) && k <= m
    requires k > a.first && max > 0 ==> Bytes(Pos(a, k)) < max
    ensures m < Stop(a, k, max) <==> max == 0 || m == a.first || Bytes(Pos(a, m)) < max
    decreases a.obj.maxsub + 1 - k
  {
    if k < m && max > 0 && Bytes(Pos(a, k + 1)) >= max {
      PosMonotone(a, k + 1, m);
    } else if k < m {
      StopIff(a, k + 1, m, max);
    }
  }

  /**
   What a download of max bytes does to each entry of the dictionary: a byte entry of the object that
   may be written, and before which fewer than max bytes lie, takes its slice of the buffer; every
   other keeps what it holds. The first entry is always reached, and 0 bytes reach all of them.
   */
  lemma DownloadEntries(a: Access, content: Store, buf: seq<Octet>, max: nat, r: Ref)
    requires Movable(a) && r in content
    ensures var after := Download(a, content, buf, max);
            r in after &&
            if r.obj == a.place && In(a, r.entry) && ByteEntry(EntryAt(a, r.entry)) && Writable(a, r.entry)
               && Reached(a, r.entry, max)
            then after[r] == Slice(buf, PlacedAt(a, r.entry) / 8, EntryAt(a, r.entry).bitlength / 8)
            else after[r] == content[r]
  {
    StoredEntries(a, Stop(a, a.first, max), content, buf, r);
    if In(a, r.entry) {
      StopIff(a, a.first, r.entry, max);
    }
  }

  /** Of n bytes in the mailbox or the buffer only the first max, which the request announced, decide
      what the dictionary holds under r after the download. */
  ghost predicate ReceivedOnly(a: Access, content: Store, max: nat, n: nat, r: Ref)
    requires Movable(a) && r in content && max <= n
  {
    forall x: seq<Octet>, y: seq<Octet> | |x| == |y| == n && x[..max] == y[..max] ::
      After(a, content, x, max, r) == After(a, content, y, max, r)
  }

  /** What the dictionary holds under r after a download. */
  function After(a: Access, content: Store, buf: seq<Octet>, max: nat, r: Ref): seq<Octet>
    requires Movable(a) && r in content
  {
    DownloadEntries(a, content, buf, max, r);
    Download(a, content, buf, max)[r]
  }

  /** A download shorter than the object can reach an entry it does not cover. Such an entry takes bytes
      from behind the request: an entry that is reached takes received bytes only, if and only if it
      ends within the bytes announced, or is empty. */
  lemma ReceivedOnlyIff(a: Access, content: Store, max: nat, n: nat, k: nat)
    requires Movable(a) && In(a, k) && ByteEntry(EntryAt(a, k)) && Writable(a, k) && Reached(a, k, max)
    requires Ref(a.place, k) in content && max <= n && Bytes(Total(a)) <= n
    ensures ReceivedOnly(a, content, max, n, Ref(a.place, k))
       <==> PlacedAt(a, k) / 8 + EntryAt(a, k).bitlength / 8 <= max || EntryAt(a, k).bitlength == 0
  {
    var at, m, r := PlacedAt(a, k) / 8, EntryAt(a, k).bitlength / 8, Ref(a.place, k);
    if at + m <= max || m == 0 {
      forall x: seq<Octet>, y: seq<Octet> | |x| == |y| == n && x[..max] == y[..max]
        ensures After(a, content, x, max, r) == After(a, content, y, max, r)
      {
        TakesSlice(a, content, x, max, k);
        TakesSlice(a, content, y, max, k);
        SlicesAgree(x, y, max, at, m);
      }
    } else {
      TakesUnreceived(a, content, max, n, k);
    }
  }

  lemma TakesSlice(a: Access, content: Store, buf: seq<Octet>, max: nat, k: nat)
    requires Movable(a) && In(a, k) && ByteEntry(EntryAt(a, k)) && Writable(a, k) && Reached(a, k, max)
    requires Ref(a.place, k) in content
    ensures After(a, content, buf, max, Ref(a.place, k)) == Slice(buf, PlacedAt(a, k) / 8, EntryAt(a, k).bitlength / 8)
  {
    DownloadEntries(a, content, buf, max, Ref(a.place, k));
  }

  lemma TakesUnreceived(a: Access, content: Store, max: nat, n: nat, k: nat)
    requires Movable(a) && In(a, k) && ByteEntry(EntryAt(a, k)) && Writable(a, k) && Reached(a, k, max)
    requires Ref(a.place, k) in content && max <= n && Bytes(Total(a)) <= n
    requires PlacedAt(a, k) / 8 + EntryAt(a, k).bitlength / 8 > max && EntryAt(a, k).bitlength > 0
    ensures !ReceivedOnly(a, content, max, n, Ref(a.place, k))
  {
    var at, m := PlacedAt(a, k) / 8, EntryAt(a, k).bitlength / 8;
    Inside(a, k);
    PosNext(a, k);
    var x := Zeros(n);
    var y := x[at + m - 1 := AllSet(1)[0]];
    TakesSlice(a, content, x, max, k);
    TakesSlice(a, content, y, max, k);
    assert Slice(x, at, m)[m - 1][0] != Slice(y, at, m)[m - 1][0];
    assert x[..max] == y[..max];
  }

  lemma SlicesAgree(x: seq<Octet>, y: seq<Octet>, max: nat, at: nat, n: nat)
    requires |x| == |y| && max <= |x| && x[..max] == y[..max] && (at + n <= max || n == 0)
    ensures Slice(x, at, n) == Slice(y, at, n)
  {
    if n > 0 {
      assert x[at..at + n] == x[..max][at..at + n];
      assert y[at..at + n] == y[..max][at..at + n];
    }
  }

  /** The same object, in the AL state of another access. */
  predicate SameObject(a: Access, b: Access) { a.obj == b.obj && a.place == b.place && a.first == b.first }

  lemma {:induction false} SameLayout(a: Access, b: Access, k: nat)
    requires SameObject(a, b) && InOrEnd(a, k)
    ensures Pos(b, k) == Pos(a, k) && (In(a, k) ==> PlacedAt(b, k) == PlacedAt(a, k))
  {
    if k > a.first {
      var p := k - 1;
      SameLayout(a, b, p);
      SameStep(a, b, p, k);
    }
    assert In(a, k) ==> EntryAt(b, k) == EntryAt(a, k);
  }

  lemma SameStep(a: Access, b: Access, p: nat, k: nat)
    requires SameObject(a, b) && In(a, p) && k == p + 1 && PlacedAt(b, p) == PlacedAt(a, p)
    ensures InOrEnd(a, k) && Pos(b, k) == Pos(a, k)
  {
    assert Width(b, p) == Width(a, p);
  }

  lemma SameTotal(a: Access, b: Access)
    requires SameObject(a, b) && InOrEnd(a, a.obj.maxsub + 1)
    ensures Total(b) == Total(a)
  {
    SameLayout(a, b, a.obj.maxsub + 1);
  }

  /**
   The round trip: downloading a previous upload of an object, in whatever AL state, whatever the
   buffer held before the upload and whatever the object holds by the download. Every byte entry in
   range that may be written takes what the upload read, which is zeros if it could not be read
   then; every other entry keeps what it holds.
   */
  lemma RoundTrip(up: Access, down: Access, was: Store, stale: seq<Octet>, now: Store, r: Ref)
    requires Movable(up) && SameObject(up, down) && Holds(up, was) && Holds(down, now)
    requires Bytes(Total(up)) <= |stale| && r in now
    ensures var after := Stored(down, down.obj.maxsub + 1, now, Upload(up, was, stale));
            r in after
            && after[r] == (if r.obj == down.place && In(down, r.entry) && ByteEntry(EntryAt(down, r.entry))
                               && Writable(down, r.entry)
                            then Sent(up, r.entry, was) else now[r])
  {
    StoredEntries(down, down.obj.maxsub + 1, now, Upload(up, was, stale), r);
    if r.obj == down.place && In(down, r.entry) && ByteEntry(EntryAt(down, r.entry)) {
      ByteEntrySent(up, r.entry, was, stale);
      SameLayout(up, down, r.entry);
    }
  }

  /** A byte entry that may be written gets back what it held at the upload exactly when the upload
      could read it, or it held zeros. */
  lemma RestoresIff(up: Access, down: Access, was: Store, stale: seq<Octet>, now: Store, k: nat)
    requires Movable(up) && SameObject(up, down) && Holds(up, was) && Holds(down, now)
    requires Bytes(Total(up)) <= |stale| && In(up, k) && ByteEntry(EntryAt(up, k)) && Writable(down, k)
    ensures var after := Stored(down, down.obj.maxsub + 1, now, Upload(up, was, stale));
            Ref(up.place, k) in after &&
            (after[Ref(up.place, k)] == Held(up, k, was)
             <==> Readable(up, k) || Held(up, k, was) == Zeros(|Held(up, k, was)|))
  {
    RoundTrip(up, down, was, stale, now, Ref(up.place, k));
  }
}
