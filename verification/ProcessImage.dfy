/**
 Moving mapped objects into and out of the process image: COE_pdoPack and COE_pdoUnpack, with the
 typed accesses of COE_getValue and COE_setValue.
 */
module ProcessImage {
  import opened Base
  import opened BitSlice
  import opened Dictionary
  import opened PdoMap

  /** The storage of the mapped entries, as bits. */
  type Store = map<Ref, seq<bool>>

  /** The C type a data type is read and written as, in bits; the other types have none. */
  function TypeBits(dtype: u16): Option<nat> {
    if 0x30 <= dtype <= 0x37 || dtype in {0x01, 0x05, 0x02, 0x2D} then Some(8)        // BITn, BOOLEAN, 8 bits
    else if dtype in {0x06, 0x03, 0x2E} then Some(16)
    else if dtype in {0x08, 0x07, 0x04, 0x2F} then Some(32)
    else if dtype in {0x11, 0x1B, 0x15} then Some(64)
    else None
  }

  /** What is needed of a mapped entry: up to 64 bits it has one of the C types; longer ones are
      moved as bytes. */
  predicate Movable(e: Entry) {
    e.bitlength > 64 || TypeBits(e.datatype_).Some?
  }

  /** The storage of an entry, in bits. */
  function StorageBits(e: Entry): nat
    requires Movable(e)
  {
    if e.bitlength > 64 then (e.bitlength + 7) / 8 * 8 else TypeBits(e.datatype_).value
  }

  /** Where an entry's bits go, and how many: bytes start at the byte that holds the offset. */
  function Start(e: Entry, offset: nat): nat {
    if e.bitlength > 64 then offset / 8 * 8 else offset
  }

  function Length(e: Entry): nat {
    if e.bitlength > 64 then (e.bitlength + 7) / 8 * 8 else e.bitlength
  }

  function EntryOf(dict: seq<Object>, r: Ref): Option<Entry> {
    if r.obj < |dict| && r.entry < |dict[r.obj].entries| then Some(dict[r.obj].entries[r.entry]) else None
  }

  /** A mapping table that can be moved between a store and an image of some words. */
  ghost predicate Fits(dict: seq<Object>, ms: seq<Mapping>, store: Store, words: nat) {
    forall i | 0 <= i < |ms| && ms[i].target.Some? :: SlotFits(dict, ms[i].target.value, ms[i].offset, store, words)
  }

  ghost predicate SlotFits(dict: seq<Object>, r: Ref, offset: nat, store: Store, words: nat) {
    && EntryOf(dict, r).Some? && r in store
    && var e := EntryOf(dict, r).value;
       && Movable(e) && |store[r]| == StorageBits(e)
       && offset < 64 * words && Start(e, offset) + Length(e) <= 64 * words
  }

  /** A value zero-extended, or cut, to a width. */
  function Resize(bits: seq<bool>, width: nat): (r: seq<bool>)
    ensures |r| == width
  {
    seq(width, i requires 0 <= i < width => i < |bits| && bits[i])
  }

  /** The bits an entry puts into the image. */
  function Packed(e: Entry, bits: seq<bool>): seq<bool> { Resize(bits, Length(e)) }

  function PackOne(dict: seq<Object>, m: Mapping, store: Store, image: seq<bool>): (r: seq<bool>)
    requires m.target.Some? ==> EntryOf(dict, m.target.value).Some? && m.target.value in store
    requires m.target.Some? ==> var e := EntryOf(dict, m.target.value).value; Start(e, m.offset) + Length(e) <= |image|
    ensures |r| == |image|
  {
    if m.target.None? then image
    else
      var e := EntryOf(dict, m.target.value).value;
      Write(image, Start(e, m.offset), Packed(e, store[m.target.value]))
  }

  ghost function Pack(dict: seq<Object>, ms: seq<Mapping>, store: Store, image: seq<bool>, words: nat): (r: seq<bool>)
    requires Fits(dict, ms, store, words) && |image| == 64 * words
    ensures |r| == |image|
  {
    if ms == [] then image
    else
      var n := |ms| - 1;
      assert ms[n].target.Some? ==> SlotFits(dict, ms[n].target.value, ms[n].offset, store, words);
      PackOne(dict, ms[n], store, Pack(dict, ms[..n], store, image, words))
  }

  /** The storage an entry gets from the image. */
  function Unpacked(e: Entry, offset: nat, image: seq<bool>): seq<bool>
    requires Movable(e) && Start(e, offset) + Length(e) <= |image|
  {
    Resize(image[Start(e, offset)..Start(e, offset) + Length(e)], StorageBits(e))
  }

  ghost function Unpack(dict: seq<Object>, ms: seq<Mapping>, store: Store, image: seq<bool>, words: nat): (r: Store)
    requires Fits(dict, ms, store, words) && |image| == 64 * words
    ensures r.Keys == store.Keys && Fits(dict, ms, r, words)
    ensures forall k | k in r :: |r[k]| == |store[k]|
  {
    if ms == [] then store
    else
      var n := |ms| - 1;
      var before := Unpack(dict, ms[..n], store, image, words);
      if ms[n].target.None? then before
      else
        var r := ms[n].target.value;
        assert SlotFits(dict, r, ms[n].offset, store, words);
        before[r := Unpacked(EntryOf(dict, r).value, ms[n].offset, image)]
  }

  // ---------------------------------------------------------------- the code

  /** COE_getValue: the storage is the low bits of the value, and the others are 0. */
  method GetValue(e: Entry, bits: seq<bool>) returns (value: Word)
    requires TypeBits(e.datatype_).Some? && |bits| == TypeBits(e.datatype_).value
    ensures value[..|bits|] == bits && forall i | |bits| <= i < 64 :: !value[i]
  {
    value := Resize(bits, 64);
  }

  /** COE_setValue: the storage takes the low bits of the value, as many as its C type has. */
  method SetValue(e: Entry, value: Word) returns (bits: seq<bool>)
    requires TypeBits(e.datatype_).Some?
    ensures |bits| == TypeBits(e.datatype_).value && bits <= value
  {
    bits := Resize(value, TypeBits(e.datatype_).value);
  }

  /** Setting one bit of a word sets that bit of the image. */
  lemma FlatUpdate(ws: seq<Word>, p: nat, b: bool)
    requires p < 64 * |ws|
    ensures Flat(ws[p / 64 := ws[p / 64][p % 64 := b]]) == Flat(ws)[p := b]
  {
    var after := ws[p / 64 := ws[p / 64][p % 64 := b]];
    forall q: nat | q < 64 * |ws| ensures Flat(after)[q] == Flat(ws)[p := b][q] {
      assert q / 64 == p / 64 && q % 64 == p % 64 ==> q == p;
    }
  }

  lemma WriteNext(bits: seq<bool>, at: nat, value: seq<bool>, i: nat)
    requires at + |value| <= |bits| && i < |value|
    ensures Write(bits, at, value[..i])[at + i := value[i]] == Write(bits, at, value[..i + 1])
  {
  }

  /** memcpy into the image, bit by bit. */
  method CopyBits(bitmap: array<Word>, at: nat, bits: seq<bool>)
    requires at + |bits| <= 64 * bitmap.Length
    modifies bitmap
    ensures Flat(bitmap[..]) == Write(old(Flat(bitmap[..])), at, bits)
  {
    ghost var before := Flat(bitmap[..]);
    for i := 0 to |bits|
      invariant Flat(bitmap[..]) == Write(before, at, bits[..i])
    {
      var p := at + i;
      FlatUpdate(bitmap[..], p, bits[i]);
      WriteNext(before, at, bits, i);
      bitmap[p / 64] := bitmap[p / 64][p % 64 := bits[i]];
    }
    assert bits[..|bits|] == bits;
  }

  /** The objects' storage, written in place by COE_pdoUnpack. */
  class Objects {
    const dict: seq<Object>
    var store: Store

    constructor (dict: seq<Object>, store: Store)
      ensures this.dict == dict && this.store == store
    {
      this.dict, this.store := dict, store;
    }

    /** COE_pdoPack. */
    method PdoPack(bitmap: array<Word>, ms: seq<Mapping>)
      requires Fits(dict, ms, store, bitmap.Length)
      modifies bitmap
      ensures Flat(bitmap[..]) == Pack(dict, ms, store, old(Flat(bitmap[..])), bitmap.Length)
    {
      ghost var image := Flat(bitmap[..]);
      assert ms[..0] == [];
      for ix := 0 to |ms|
        invariant Fits(dict, ms[..ix], store, bitmap.Length)
        invariant Flat(bitmap[..]) == Pack(dict, ms[..ix], store, image, bitmap.Length)
      {
        assert ms[..ix + 1][..ix] == ms[..ix];
        if ms[ix].target.Some? {
          assert SlotFits(dict, ms[ix].target.value, ms[ix].offset, store, bitmap.Length);
          PackEntry(bitmap, ms[ix]);
        }
      }
      assert ms[..|ms|] == ms;
    }

    /** One mapped entry into the image. */
    method PackEntry(bitmap: array<Word>, m: Mapping)
      requires m.target.Some? && SlotFits(dict, m.target.value, m.offset, store, bitmap.Length)
      modifies bitmap
      ensures Flat(bitmap[..]) == PackOne(dict, m, store, old(Flat(bitmap[..])))
    {
      var e := EntryOf(dict, m.target.value).value;
      var bits := store[m.target.value];
      if e.bitlength > 64 {
        assert Packed(e, bits) == bits;
        CopyBits(bitmap, m.offset / 8 * 8, bits);
      } else {
        var value := GetValue(e, bits);
        assert forall i | 0 <= i < |bits| :: value[..|bits|][i] == bits[i];
        assert Packed(e, bits) == value[..e.bitlength];
        Set(bitmap, m.offset, e.bitlength, value);
      }
    }

    /** COE_pdoUnpack. */
    method PdoUnpack(bitmap: array<Word>, ms: seq<Mapping>)
      requires Fits(dict, ms, store, bitmap.Length)
      modifies this
      ensures store == Unpack(dict, ms, old(store), Flat(bitmap[..]), bitmap.Length)
    {
      ghost var image := Flat(bitmap[..]);
      assert ms[..0] == [];
      for ix := 0 to |ms|
        invariant Fits(dict, ms[..ix], old(store), bitmap.Length)
        invariant store == Unpack(dict, ms[..ix], old(store), image, bitmap.Length)
      {
        assert ms[..ix + 1][..ix] == ms[..ix];
        if ms[ix].target.Some? {
          assert SlotFits(dict, ms[ix].target.value, ms[ix].offset, old(store), bitmap.Length);
          UnpackEntry(bitmap, ms[ix]);
        }
      }
      assert ms[..|ms|] == ms;
    }

    /** One mapped entry from the image. */
    method UnpackEntry(bitmap: array<Word>, m: Mapping)
      requires m.target.Some? && SlotFits(dict, m.target.value, m.offset, store, bitmap.Length)
      modifies this
      ensures store == old(store)[m.target.value :=
                         Unpacked(EntryOf(dict, m.target.value).value, m.offset, Flat(bitmap[..]))]
    {
      var e := EntryOf(dict, m.target.value).value;
      if e.bitlength > 64 {
        var bits := CopyOut(bitmap, m.offset / 8 * 8, (e.bitlength + 7) / 8 * 8);
        assert bits == Resize(bits, StorageBits(e));
        store := store[m.target.value := bits];
      } else {
        var value := Get(bitmap, m.offset, e.bitlength);
        var bits := SetValue(e, value);
        assert bits == Resize(value[..e.bitlength], StorageBits(e));
        store := store[m.target.value := bits];
      }
    }
  }

  /** memcpy out of the image, bit by bit. */
  method CopyOut(bitmap: array<Word>, at: nat, count: nat) returns (bits: seq<bool>)
    requires at + count <= 64 * bitmap.Length
    ensures bits == Flat(bitmap[..])[at..at + count]
  {
    bits := [];
    for i := 0 to count
      invariant bits == Flat(bitmap[..])[at..at + i]
    {
      bits := bits + [bitmap[(at + i) / 64][(at + i) % 64]];
    }
  }

  // ---------------------------------------------------------------- laws

  /** A bit of the image that some mapped entry takes. */
  ghost predicate Taken(dict: seq<Object>, ms: seq<Mapping>, p: nat) {
    exists i :: 0 <= i < |ms| && TakenBy(dict, ms[i], p)
  }

  predicate TakenBy(dict: seq<Object>, m: Mapping, p: nat) {
    && m.target.Some? && EntryOf(dict, m.target.value).Some?
    && var e := EntryOf(dict, m.target.value).value;
       Start(e, m.offset) <= p < Start(e, m.offset) + Length(e)
  }

  /** No two mapped entries take the same bit. */
  ghost predicate Apart(dict: seq<Object>, ms: seq<Mapping>) {
    forall i, j, p: nat | 0 <= i < j < |ms| && TakenBy(dict, ms[i], p) :: !TakenBy(dict, ms[j], p)
  }

  /** Packing leaves every bit outside the mapped intervals, padding included, as it was. */
  lemma {:induction false} PackLeavesRest(dict: seq<Object>, ms: seq<Mapping>, store: Store, image: seq<bool>,
                                          words: nat,
                                          p: nat)
    requires Fits(dict, ms, store, words) && |image| == 64 * words && p < |image| && !Taken(dict, ms, p)
    ensures Pack(dict, ms, store, image, words)[p] == image[p]
  {
    if ms != [] {
      var n := |ms| - 1;
      assert !TakenBy(dict, ms[n], p);
      forall i | 0 <= i < n ensures !TakenBy(dict, ms[..n][i], p) {
        assert ms[..n][i] == ms[i];
      }
      PackLeavesRest(dict, ms[..n], store, image, words, p);
      assert ms[n].target.Some? ==> SlotFits(dict, ms[n].target.value, ms[n].offset, store, words);
    }
  }

  lemma SameSlice(x: seq<bool>, y: seq<bool>, from: nat, to: nat)
    requires from <= to <= |x| == |y| && forall p | from <= p < to :: x[p] == y[p]
    ensures x[from..to] == y[from..to]
  {
  }

  /** After packing, each mapped interval holds its entry's bits: later entries do not disturb it. */
  lemma {:induction false} PackHolds(dict: seq<Object>, ms: seq<Mapping>, store: Store, image: seq<bool>, words: nat,
                                     i: nat)
    requires Fits(dict, ms, store, words) && |image| == 64 * words && Apart(dict, ms)
    requires i < |ms| && ms[i].target.Some?
    ensures SlotFits(dict, ms[i].target.value, ms[i].offset, store, words)
    ensures var e := EntryOf(dict, ms[i].target.value).value;
            Pack(dict, ms, store, image, words)[Start(e, ms[i].offset)..Start(e, ms[i].offset) + Length(e)]
            == Packed(e, store[ms[i].target.value])
  {
    var n := |ms| - 1;
    assert SlotFits(dict, ms[i].target.value, ms[i].offset, store, words);
    var e := EntryOf(dict, ms[i].target.value).value;
    var from, to := Start(e, ms[i].offset), Start(e, ms[i].offset) + Length(e);
    assert ms[n].target.Some? ==> SlotFits(dict, ms[n].target.value, ms[n].offset, store, words);
    var before := Pack(dict, ms[..n], store, image, words);
    var after := Pack(dict, ms, store, image, words);
    if i < n {
      assert Apart(dict, ms[..n]) by {
        assert forall k | 0 <= k < n :: ms[..n][k] == ms[k];
      }
      assert ms[..n][i] == ms[i];
      PackHolds(dict, ms[..n], store, image, words, i);
      forall p | from <= p < to ensures after[p] == before[p] {
        assert TakenBy(dict, ms[i], p) && !TakenBy(dict, ms[n], p);
      }
      SameSlice(after, before, from, to);
    }
  }

  ghost predicate IsMapped(ms: seq<Mapping>, r: Ref) {
    exists i :: 0 <= i < |ms| && ms[i].target == Some(r)
  }

  /** bits is what mapping i stores into entry r. */
  ghost predicate StoresAt(dict: seq<Object>, ms: seq<Mapping>, store: Store, image: seq<bool>, words: nat, r: Ref,
                           bits: seq<bool>, i: nat)
    requires |image| == 64 * words
  {
    && i < |ms| && ms[i].target == Some(r) && SlotFits(dict, r, ms[i].offset, store, words)
    && bits == Unpacked(EntryOf(dict, r).value, ms[i].offset, image)
  }

  /** Unpacking stores, for every mapped entry, what one of its intervals holds; and leaves the
      storage of the others alone. */
  lemma {:induction false} UnpackStores(dict: seq<Object>, ms: seq<Mapping>, store: Store, image: seq<bool>, words: nat,
                                        r: Ref)
    returns (i: nat)
    requires Fits(dict, ms, store, words) && |image| == 64 * words && r in store
    ensures var out := Unpack(dict, ms, store, image, words);
            if IsMapped(ms, r) then StoresAt(dict, ms, store, image, words, r, out[r], i) else out[r] == store[r]
  {
    i := 0;
    if ms != [] {
      var n := |ms| - 1;
      i := UnpackStores(dict, ms[..n], store, image, words, r);
      assert forall k | 0 <= k < n :: ms[..n][k] == ms[k];
      if ms[n].target == Some(r) {
        assert SlotFits(dict, r, ms[n].offset, store, words);
        i := n;
      } else {
        assert IsMapped(ms, r) <==> IsMapped(ms[..n], r);
      }
    }
  }

  /** A stored value that its mapped length can carry. */
  predicate Carried(e: Entry, bits: seq<bool>) {
    forall i | Length(e) <= i < |bits| :: !bits[i]
  }

  /**
   The process image round trip. With mapped intervals apart, unpacking what was packed, into
   storage holding anything at all, restores a mapped entry exactly when its value fits the bits it
   is mapped with; all other storage, and all image bits outside the intervals, stay as they were.
   */
  lemma RoundTrip(dict: seq<Object>, ms: seq<Mapping>, store: Store, other: Store, image: seq<bool>, words: nat, r: Ref)
    requires Fits(dict, ms, store, words) && Fits(dict, ms, other, words) && |image| == 64 * words
    requires Apart(dict, ms) && r in store && r in other
    ensures var out := Unpack(dict, ms, other, Pack(dict, ms, store, image, words), words);
            if IsMapped(ms, r)
            then EntryOf(dict, r).Some? && (out[r] == store[r] <==> Carried(EntryOf(dict, r).value, store[r]))
            else out[r] == other[r]
  {
    var packed := Pack(dict, ms, store, image, words);
    var i := UnpackStores(dict, ms, other, packed, words, r);
    if IsMapped(ms, r) {
      BackAt(dict, ms, store, other, image, packed, words, r, Unpack(dict, ms, other, packed, words)[r], i);
    }
  }

  lemma BackAt(dict: seq<Object>, ms: seq<Mapping>, store: Store, other: Store, image: seq<bool>, packed: seq<bool>,
               words: nat, r: Ref, back: seq<bool>, i: nat)
    requires Fits(dict, ms, store, words) && |image| == 64 * words && Apart(dict, ms) && r in store
    requires packed == Pack(dict, ms, store, image, words) && StoresAt(dict, ms, other, packed, words, r, back, i)
    ensures EntryOf(dict, r).Some? && (back == store[r] <==> Carried(EntryOf(dict, r).value, store[r]))
  {
    PackHolds(dict, ms, store, image, words, i);
    BackIff(EntryOf(dict, r).value, store[r], back);
  }

  /** Bits packed and unpacked are the same exactly when the mapped length carries them. */
  lemma BackIff(e: Entry, bits: seq<bool>, back: seq<bool>)
    requires Movable(e) && |bits| == StorageBits(e) && back == Resize(Packed(e, bits), StorageBits(e))
    ensures back == bits <==> Carried(e, bits)
  {
    ResizeTwice(bits, Length(e));
  }

  lemma ResizeTwice(bits: seq<bool>, width: nat)
    ensures Resize(Resize(bits, width), |bits|) == bits <==> forall i | width <= i < |bits| :: !bits[i]
  {
    var back := Resize(Resize(bits, width), |bits|);
    assert forall i | 0 <= i < |bits| :: back[i] == (i < width && bits[i]);
  }

  // ---------------------------------------------------------------- with the mapping of sizeOfPDO

  /** The mapped length is the entry's own. */
  ghost predicate LengthsAgree(dict: seq<Object>, ms: seq<Mapping>, words: seq<u32>)
    requires |ms| == |words|
  {
    forall i | 0 <= i < |ms| && ms[i].target.Some? :: LengthAgrees(dict, ms[i], words[i])
  }

  predicate LengthAgrees(dict: seq<Object>, m: Mapping, w: u32)
    requires m.target.Some?
  {
    EntryOf(dict, m.target.value).Some? && EntryOf(dict, m.target.value).value.bitlength == WordBits(w)
  }

  /** A mapped entry of some bits. */
  predicate Solid(dict: seq<Object>, m: Mapping) {
    m.target.Some? && EntryOf(dict, m.target.value).Some? && EntryOf(dict, m.target.value).value.bitlength > 0
  }

  /** Where the bits that are moved for a mapped entry start and end. */
  function From(dict: seq<Object>, m: Mapping): nat
    requires Solid(dict, m)
  {
    Start(EntryOf(dict, m.target.value).value, m.offset)
  }

  function To(dict: seq<Object>, m: Mapping): nat
    requires Solid(dict, m)
  {
    From(dict, m) + Length(EntryOf(dict, m.target.value).value)
  }

  /** Each mapped entry ends before the next one starts, with those of more than 64 bits moved down to a
      byte boundary and rounded up to bytes. */
  ghost predicate Spaced(dict: seq<Object>, ms: seq<Mapping>) {
    forall i, j | 0 <= i < j < |ms| && Solid(dict, ms[i]) && Solid(dict, ms[j]) :: To(dict, ms[i]) <= From(dict, ms[j])
  }

  /** The entries that are moved as bytes lie on byte boundaries, and are whole bytes long. */
  ghost predicate OnBytes(dict: seq<Object>, ms: seq<Mapping>) {
    forall i | 0 <= i < |ms| && Solid(dict, ms[i]) && EntryOf(dict, ms[i].target.value).value.bitlength > 64 ::
      ms[i].offset % 8 == 0 && EntryOf(dict, ms[i].target.value).value.bitlength % 8 == 0
  }

  /** The mapping words lie one after the other. */
  ghost predicate InOrder(dict: seq<Object>, ms: seq<Mapping>, words: seq<u32>, ends: seq<nat>) {
    && |ms| == |words| && |ends| == |words| + 1 && LengthsAgree(dict, ms, words)
    && (forall i | 0 <= i < |words| :: Occupies(ms[i], words[i], ends[i], ends[i + 1]))
    && (forall i, j | 0 <= i < j < |ends| :: ends[i] <= ends[j])
  }

  lemma TakenIff(dict: seq<Object>, m: Mapping, p: nat)
    ensures TakenBy(dict, m, p) <==> Solid(dict, m) && From(dict, m) <= p < To(dict, m)
  {
  }

  /** The bits of an entry start no later than its place, end behind it, and end within its last byte. */
  lemma Bounds(dict: seq<Object>, m: Mapping, w: u32, from: nat, to: nat)
    requires Solid(dict, m) && LengthAgrees(dict, m, w) && Occupies(m, w, from, to)
    ensures From(dict, m) <= from < To(dict, m) <= (to + 7) / 8 * 8
    ensures var n := EntryOf(dict, m.target.value).value.bitlength;
            n <= 64 || (from % 8 == 0 && n % 8 == 0) ==> From(dict, m) == from && To(dict, m) == to
  {
    RoundedUp(from, EntryOf(dict, m.target.value).value.bitlength);
  }

  lemma RoundedUp(from: nat, n: nat)
    ensures from + n <= (from + n + 7) / 8 * 8
    ensures from / 8 * 8 + (n + 7) / 8 * 8 <= (from + n + 7) / 8 * 8
    ensures n > 64 ==> from < from / 8 * 8 + (n + 7) / 8 * 8
    ensures from % 8 == 0 && n % 8 == 0 ==> from / 8 * 8 == from && (n + 7) / 8 * 8 == n
  {
  }

  /** When a mapping that sizeOfPDO builds keeps its entries apart: exactly if they are spaced. */
  lemma ApartIff(dict: seq<Object>, ms: seq<Mapping>, words: seq<u32>, ends: seq<nat>)
    requires InOrder(dict, ms, words, ends)
    ensures Apart(dict, ms) <==> Spaced(dict, ms)
  {
    if Spaced(dict, ms) {
      forall i, j, p: nat | 0 <= i < j < |ms| && TakenBy(dict, ms[i], p) ensures !TakenBy(dict, ms[j], p) {
        TakenIff(dict, ms[i], p);
        TakenIff(dict, ms[j], p);
      }
    }
    if Apart(dict, ms) {
      forall i, j | 0 <= i < j < |ms| && Solid(dict, ms[i]) && Solid(dict, ms[j])
        ensures To(dict, ms[i]) <= From(dict, ms[j])
      {
        PairSpaced(dict, ms, words, ends, i, j);
      }
    }
  }

  lemma PairSpaced(dict: seq<Object>, ms: seq<Mapping>, words: seq<u32>, ends: seq<nat>, i: nat, j: nat)
    requires InOrder(dict, ms, words, ends) && Apart(dict, ms)
    requires i < j < |ms| && Solid(dict, ms[i]) && Solid(dict, ms[j])
    ensures To(dict, ms[i]) <= From(dict, ms[j])
  {
    assert LengthAgrees(dict, ms[i], words[i]) && LengthAgrees(dict, ms[j], words[j]);
    assert Occupies(ms[i], words[i], ends[i], ends[i + 1]) && Occupies(ms[j], words[j], ends[j], ends[j + 1]);
    Bounds(dict, ms[i], words[i], ends[i], ends[i + 1]);
    Bounds(dict, ms[j], words[j], ends[j], ends[j + 1]);
    assert ends[i] <= ends[j];
    var p := Max(From(dict, ms[i]), From(dict, ms[j]));
    TakenIff(dict, ms[i], p);
    TakenIff(dict, ms[j], p);
  }

  lemma OnBytesAt(dict: seq<Object>, ms: seq<Mapping>, words: seq<u32>, ends: seq<nat>, i: nat)
    requires InOrder(dict, ms, words, ends) && OnBytes(dict, ms) && i < |ms| && Solid(dict, ms[i])
    ensures From(dict, ms[i]) == ends[i] && To(dict, ms[i]) == ends[i + 1]
  {
    assert LengthAgrees(dict, ms[i], words[i]) && Occupies(ms[i], words[i], ends[i], ends[i + 1]);
    Bounds(dict, ms[i], words[i], ends[i], ends[i + 1]);
  }

  lemma Ascends(ends: seq<nat>, i: nat, j: nat)
    requires (forall a, b | 0 <= a < b < |ends| :: ends[a] <= ends[b]) && i <= j < |ends|
    ensures ends[i] <= ends[j]
  {
  }

  /** What is on byte boundaries is spaced. */
  lemma OnBytesSpaced(dict: seq<Object>, ms: seq<Mapping>, words: seq<u32>, ends: seq<nat>)
    requires InOrder(dict, ms, words, ends) && OnBytes(dict, ms)
    ensures Spaced(dict, ms)
  {
    forall i, j | 0 <= i < j < |ms| && Solid(dict, ms[i]) && Solid(dict, ms[j])
      ensures To(dict, ms[i]) <= From(dict, ms[j])
    {
      OnBytesAt(dict, ms, words, ends, i);
      OnBytesAt(dict, ms, words, ends, j);
      Ascends(ends, i + 1, j);
    }
  }

  lemma TakenOnBytes(dict: seq<Object>, ms: seq<Mapping>, words: seq<u32>, ends: seq<nat>, p: nat)
    requires InOrder(dict, ms, words, ends) && OnBytes(dict, ms) && Taken(dict, ms, p)
    ensures p < ends[|words|]
  {
    var i :| 0 <= i < |ms| && TakenBy(dict, ms[i], p);
    TakenIff(dict, ms[i], p);
    OnBytesAt(dict, ms, words, ends, i);
    Ascends(ends, i + 1, |words|);
  }

  /** No entry takes a bit past the last byte. */
  lemma TakenInBytes(dict: seq<Object>, ms: seq<Mapping>, words: seq<u32>, ends: seq<nat>, p: nat)
    requires InOrder(dict, ms, words, ends) && Taken(dict, ms, p)
    ensures p < (ends[|words|] + 7) / 8 * 8
  {
    var i :| 0 <= i < |ms| && TakenBy(dict, ms[i], p);
    TakenIff(dict, ms[i], p);
    assert LengthAgrees(dict, ms[i], words[i]) && Occupies(ms[i], words[i], ends[i], ends[i + 1]);
    Bounds(dict, ms[i], words[i], ends[i], ends[i + 1]);
    Ascends(ends, i + 1, |words|);
    BytesMonotone(ends[i + 1], ends[|words|]);
  }

  lemma BytesMonotone(x: nat, y: nat)
    requires x <= y
    ensures (x + 7) / 8 * 8 <= (y + 7) / 8 * 8
  {
  }

  lemma MappingInOrder(dict: seq<Object>, sm: u16, maxMappings: nat, ms: seq<Mapping>, words: seq<u32>)
    requires ValidDict(dict) && maxMappings > 0 && words == Words(dict, sm) && SizeOf(dict, sm, maxMappings).Image?
    requires ms == SizeOf(dict, sm, maxMappings).mappings && |ms| == |words| && LengthsAgree(dict, ms, words)
    ensures InOrder(dict, ms, words, Ends(words)) && Ends(words)[|words|] == Offset(words)
  {
    Tiles(dict, sm, maxMappings);
  }

  /** The end of the bits that a mapping touches: the end of its total, or of its bytes if entries of more
      than 64 bits are not on byte boundaries. */
  ghost function Reach(dict: seq<Object>, ms: seq<Mapping>, words: seq<u32>): nat {
    if OnBytes(dict, ms) then Offset(words) else (Offset(words) + 7) / 8 * 8
  }

  /** A mapping sizeOfPDO accepts keeps its entries apart if and only if they are spaced, and within the
      bytes it says. */
  lemma MappingApart(dict: seq<Object>, sm: u16, maxMappings: nat, ms: seq<Mapping>, words: seq<u32>)
    requires ValidDict(dict) && maxMappings > 0 && words == Words(dict, sm) && SizeOf(dict, sm, maxMappings).Image?
    requires ms == SizeOf(dict, sm, maxMappings).mappings && |ms| == |words| && LengthsAgree(dict, ms, words)
    ensures Apart(dict, ms) <==> Spaced(dict, ms)
    ensures forall p: nat | Taken(dict, ms, p) :: p < Reach(dict, ms, words)
    ensures OnBytes(dict, ms) ==> Spaced(dict, ms)
  {
    var ends := Ends(words);
    MappingInOrder(dict, sm, maxMappings, ms, words);
    ApartIff(dict, ms, words, ends);
    if OnBytes(dict, ms) {
      OnBytesSpaced(dict, ms, words, ends);
    }
    forall p: nat | Taken(dict, ms, p) ensures p < Reach(dict, ms, words) {
      TakenReach(dict, ms, words, ends, p);
    }
  }

  lemma TakenReach(dict: seq<Object>, ms: seq<Mapping>, words: seq<u32>, ends: seq<nat>, p: nat)
    requires InOrder(dict, ms, words, ends) && Taken(dict, ms, p) && ends[|words|] == Offset(words)
    ensures p < Reach(dict, ms, words)
  {
    if OnBytes(dict, ms) {
      TakenOnBytes(dict, ms, words, ends, p);
    } else {
      TakenInBytes(dict, ms, words, ends, p);
    }
  }

  /** Through the image, entry r comes back exactly when its mapped bits carry its value; if it is not
      mapped its storage stays as it was; and no bit from reach on is touched. */
  ghost predicate Returns(dict: seq<Object>, ms: seq<Mapping>, store: Store, other: Store, image: seq<bool>, words: nat,
                          r: Ref, reach: nat)
    requires Fits(dict, ms, store, words) && Fits(dict, ms, other, words) && |image| == 64 * words
    requires r in store && r in other
  {
    var packed := Pack(dict, ms, store, image, words);
    var out := Unpack(dict, ms, other, packed, words);
    && (forall p | reach <= p < |image| :: packed[p] == image[p])
    && if IsMapped(ms, r)
       then EntryOf(dict, r).Some? && (out[r] == store[r] <==> Carried(EntryOf(dict, r).value, store[r]))
       else out[r] == other[r]
  }

  /** Both together: through the image of a mapping that sizeOfPDO accepts, whose entries are spaced, an
      entry that the mapping names comes back exactly when its mapped bits carry its value, all other
      storage stays as it was, and no bit past the mapped bytes is touched, nor past the mapped total if
      all entries of more than 64 bits are on byte boundaries. */
  lemma MappedRoundTrip(dict: seq<Object>, sm: u16, maxMappings: nat, ms: seq<Mapping>, store: Store, other: Store,
                        image: seq<bool>, words: nat, r: Ref)
    requires ValidDict(dict) && maxMappings > 0 && SizeOf(dict, sm, maxMappings).Image?
    requires ms == SizeOf(dict, sm, maxMappings).mappings && |ms| == |Words(dict, sm)|
    requires LengthsAgree(dict, ms, Words(dict, sm)) && Spaced(dict, ms)
    requires Fits(dict, ms, store, words) && Fits(dict, ms, other, words) && |image| == 64 * words
    requires r in store && r in other
    ensures Returns(dict, ms, store, other, image, words, r, Reach(dict, ms, Words(dict, sm)))
  {
    var reach := Reach(dict, ms, Words(dict, sm));
    MappingApart(dict, sm, maxMappings, ms, Words(dict, sm));
    RoundTrip(dict, ms, store, other, image, words, r);
    forall p | reach <= p < |image| ensures Pack(dict, ms, store, image, words)[p] == image[p] {
      PackLeavesRest(dict, ms, store, image, words, p);
    }
  }

  /** How an entry is moved: with up to 64 bits as its bits, at the bit they are mapped to, from and into its C type;
      longer ones as whole bytes, as many as hold them, from the byte they are mapped into. */
  lemma MovedAs(e: Entry, offset: nat)
    requires Movable(e)
    ensures e.bitlength <= 64 ==>
              Start(e, offset) == offset && Length(e) == e.bitlength && Some(StorageBits(e)) == TypeBits(e.datatype_)
    ensures e.bitlength > 64 ==>
              && StorageBits(e) == Length(e) && Length(e) % 8 == 0 && e.bitlength <= Length(e) < e.bitlength + 8
              && Start(e, offset) % 8 == 0 && Start(e, offset) <= offset < Start(e, offset) + 8
  {
  }
}
