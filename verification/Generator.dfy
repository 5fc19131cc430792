/**
 The layout generator (tools/gen_od.py): from a description of objects and PDOs, already parsed, to
 the object dictionary, the mapping words and the SyncManager layout that the stack is compiled with.
 */
module GenSpec {
  import opened Base
  import opened Dictionary

  const OtypeVar: u16 := 0x0007
  const OtypeArray: u16 := 0x0008
  const OtypeRecord: u16 := 0x0009
  const ReadOnly: u16 := 0x0007  // ATYPE_RO
  const TopOfRam := 0x2000

  datatype Sub = Sub(sub: nat, dtype: u16, bits: nat, value: u32, access: u16, stored: bool)

  /** An object, and the specification of one, which may stand for an object per axis. */
  datatype Obj = Obj(index: nat, code: u16, subs: seq<Sub>)
  datatype Spec = Spec(index: nat, perAxis: bool, code: u16, subs: seq<Sub>)

  datatype Axes = Axes(count: nat, stride: nat)

  /** An entry of a PDO: padding, or an object's sub-entry. */
  datatype Item = Pad(bits: nat) | Map(index: nat, sub: nat)
  datatype PdoSpec = PdoSpec(index: nat, items: seq<Item>)

  /** A resolved entry, and a PDO of them. */
  datatype Slot = Slot(index: nat, sub: nat, bits: nat)
  datatype Pdo = Pdo(index: nat, slots: seq<Slot>, bytes: nat)

  // ---------------------------------------------------------------- sorting

  function InsertBy<T>(x: T, xs: seq<T>, key: T -> int): seq<T> {
    if xs == [] || key(x) < key(xs[0]) then [x] + xs else [xs[0]] + InsertBy(x, xs[1..], key)
  }

  /** The stable sort by a key. */
  function SortBy<T>(xs: seq<T>, key: T -> int): seq<T> {
    if xs == [] then [] else InsertBy(xs[|xs| - 1], SortBy(xs[..|xs| - 1], key), key)
  }

  predicate Ascends<T>(xs: seq<T>, key: T -> int) {
    forall i, j | 0 <= i < j < |xs| :: key(xs[i]) <= key(xs[j])
  }

  lemma AscendsCons<T>(x: T, xs: seq<T>, key: T -> int)
    requires Ascends(xs, key) && (xs != [] ==> key(x) <= key(xs[0]))
    ensures Ascends([x] + xs, key)
  {
    forall j | 0 < j < |[x] + xs| ensures key(x) <= key(([x] + xs)[j]) {
      assert key(xs[0]) <= key(xs[j - 1]);
    }
  }

  lemma {:induction false} InsertSorts<T>(x: T, xs: seq<T>, key: T -> int)
    requires Ascends(xs, key)
    ensures var r := InsertBy(x, xs, key);
            && Ascends(r, key) && multiset(r) == multiset(xs) + multiset{x}
            && r != [] && (key(r[0]) == key(x) || (xs != [] && key(r[0]) == key(xs[0])))
  {
    if xs == [] || key(x) < key(xs[0]) {
      AscendsCons(x, xs, key);
    } else {
      InsertSorts(x, xs[1..], key);
      AscendsCons(xs[0], InsertBy(x, xs[1..], key), key);
      assert xs == [xs[0]] + xs[1..];
    }
  }

  /** The sort is a permutation in ascending order. */
  lemma {:induction false} Sorts<T>(xs: seq<T>, key: T -> int)
    ensures Ascends(SortBy(xs, key), key) && multiset(SortBy(xs, key)) == multiset(xs)
  {
    if xs != [] {
      var n := |xs| - 1;
      Sorts(xs[..n], key);
      InsertSorts(xs[n], SortBy(xs[..n], key), key);
      assert xs == xs[..n] + [xs[n]];
    }
  }

  predicate DistinctBy<T>(xs: seq<T>, key: T -> int) {
    forall i, j | 0 <= i < j < |xs| :: key(xs[i]) != key(xs[j])
  }

  // ---------------------------------------------------------------- objects

  function ObjIndex(o: Obj): int { o.index }

  function PerAxis(s: Spec, axes: Axes): seq<Obj> {
    if s.perAxis then seq(axes.count, n requires 0 <= n < axes.count => Obj(s.index + n * axes.stride, s.code, s.subs))
    else [Obj(s.index, s.code, s.subs)]
  }

  function Expand(specs: seq<Spec>, axes: Axes): seq<Obj> {
    if specs == [] then [] else Expand(specs[..|specs| - 1], axes) + PerAxis(specs[|specs| - 1], axes)
  }

  /** build_objects: the objects in order of their indexes, unless two share one. */
  function Objects(specs: seq<Spec>, axes: Axes): Option<seq<Obj>> {
    var objs := SortBy(Expand(specs, axes), ObjIndex);
    if DistinctBy(objs, ObjIndex) then Some(objs) else None
  }

  // ---------------------------------------------------------------- PDOs

  /** The object with an index; the last one, as in a dictionary built from the list. */
  function Lookup(objs: seq<Obj>, index: nat): Option<Obj> {
    if objs == [] then None
    else if objs[|objs| - 1].index == index then Some(objs[|objs| - 1])
    else Lookup(objs[..|objs| - 1], index)
  }

  function FirstSub(subs: seq<Sub>, sub: nat): Option<Sub> {
    if subs == [] then None else if subs[0].sub == sub then Some(subs[0]) else FirstSub(subs[1..], sub)
  }

  function ResolveItem(objs: seq<Obj>, stride: nat, axis: nat, item: Item): Option<Slot> {
    match item
    case Pad(bits) => Some(Slot(0, 0, bits))
    case Map(index, sub) =>
      match Lookup(objs, index + axis * stride)
      case None => None
      case Some(o) =>
        match FirstSub(o.subs, sub)
        case None => None
        case Some(s) => Some(Slot(index + axis * stride, sub, s.bits))
  }

  function Slots(objs: seq<Obj>, stride: nat, axis: nat, items: seq<Item>): Option<seq<Slot>> {
    if items == [] then Some([])
    else
      match Slots(objs, stride, axis, items[..|items| - 1])
      case None => None
      case Some(before) =>
        match ResolveItem(objs, stride, axis, items[|items| - 1])
        case None => None
        case Some(slot) => Some(before + [slot])
  }

  function Bits(slots: seq<Slot>): nat {
    if slots == [] then 0 else Bits(slots[..|slots| - 1]) + slots[|slots| - 1].bits
  }

  /** resolve_pdo: the slots of a PDO and its bytes, unless an entry does not exist or the bits do not
      fill whole bytes. */
  function Resolved(objs: seq<Obj>, stride: nat, axis: nat, index: nat, items: seq<Item>): Option<Pdo> {
    match Slots(objs, stride, axis, items)
    case None => None
    case Some(slots) => if Bits(slots) % 8 == 0 then Some(Pdo(index, slots, Bits(slots) / 8)) else None
  }

  /** What build_pdos resolves, in order: the template once for each axis, then the extra blocks. */
  function Job(template: PdoSpec, extras: seq<PdoSpec>, axes: Axes, n: nat): (PdoSpec, nat, nat)
    requires n < axes.count + |extras|
  {
    if n < axes.count then (template, n, template.index + n)
    else (extras[n - axes.count], 0, extras[n - axes.count].index)
  }

  function PdosUpTo(objs: seq<Obj>, axes: Axes, template: PdoSpec, extras: seq<PdoSpec>, n: nat): Option<seq<Pdo>>
    requires n <= axes.count + |extras|
  {
    if n == 0 then Some([])
    else
      match PdosUpTo(objs, axes, template, extras, n - 1)
      case None => None
      case Some(before) =>
        var (spec, axis, index) := Job(template, extras, axes, n - 1);
        match Resolved(objs, axes.stride, axis, index, spec.items)
        case None => None
        case Some(p) => Some(before + [p])
  }

  function PdoIndex(p: Pdo): int { p.index }

  /** build_pdos: all PDOs of one direction, unless one does not resolve or two share an index. */
  function Pdos(objs: seq<Obj>, axes: Axes, template: PdoSpec, extras: seq<PdoSpec>): Option<seq<Pdo>> {
    match PdosUpTo(objs, axes, template, extras, axes.count + |extras|)
    case None => None
    case Some(pdos) => if DistinctBy(pdos, PdoIndex) then Some(pdos) else None
  }

  function TotalBytes(pdos: seq<Pdo>): nat {
    if pdos == [] then 0 else TotalBytes(pdos[..|pdos| - 1]) + pdos[|pdos| - 1].bytes
  }

  /** compute_sm: three copies of the outputs end before the inputs, and three of those in the RAM. */
  predicate SmFits(outputs: nat, inputs: nat, rxBytes: nat, txBytes: nat) {
    outputs + 3 * rxBytes <= inputs && inputs + 3 * txBytes <= TopOfRam
  }

  // ---------------------------------------------------------------- what is emitted

  function Or(a: nat, b: nat): nat
    decreases a + b
  {
    if a == 0 then b else if b == 0 then a
    else 2 * Or(a / 2, b / 2) + (if a % 2 == 1 || b % 2 == 1 then 1 else 0)
  }

  /** mapping_word */
  function MappingWord(s: Slot): nat { Or(Or(s.index * 0x1_0000, s.sub * 0x100), s.bits) }

  /** A number as the C compiler stores it in a field of some width. */
  function Cut16(n: nat): u16 { n % 0x1_0000 }

  function Cut32(n: nat): u32 { n % 0x1_0000_0000 }

  function CountEntry(n: nat): Entry { Entry(0, 0x0005, 8, ReadOnly, Cut32(n), false) }

  function WordEntry(k: nat, s: Slot): Entry { Entry(Cut16(k), 0x0007, 32, ReadOnly, Cut32(MappingWord(s)), false) }

  /** The mapping object of a PDO. */
  function PdoObject(p: Pdo): Object {
    Object(Cut16(p.index), OtypeRecord, |p.slots| % 0x100,
           [CountEntry(|p.slots|)] + seq(|p.slots|, k requires 0 <= k < |p.slots| => WordEntry(k + 1, p.slots[k])))
  }

  function AssignEntry(k: nat, p: Pdo): Entry { Entry(Cut16(k), 0x0006, 16, ReadOnly, Cut16(p.index), false) }

  /** The assignment object of a SyncManager; the list says that its highest subindex is 1. */
  function AssignObject(index: u16, pdos: seq<Pdo>): Object {
    Object(index, OtypeArray, 1,
           [CountEntry(|pdos|)] + seq(|pdos|, k requires 0 <= k < |pdos| => AssignEntry(k + 1, pdos[k])))
  }

  function KindEntry(k: u16): Entry { Entry(k, 0x0005, 8, ReadOnly, k, false) }

  /** The SyncManager communication types. */
  function KindObject(): Object {
    Object(0x1C00, OtypeArray, 4, [CountEntry(4), KindEntry(1), KindEntry(2), KindEntry(3), KindEntry(4)])
  }

  function MaxSub(subs: seq<Sub>): nat {
    if subs == [] then 0 else Max(MaxSub(subs[..|subs| - 1]), subs[|subs| - 1].sub)
  }

  function SubEntry(s: Sub): Entry { Entry(Cut16(s.sub), s.dtype, Cut32(s.bits), s.access, s.value, s.stored) }

  /** The entries of sub-entries other than 0. */
  function SubEntries(subs: seq<Sub>): seq<Entry> {
    if subs == [] then []
    else
      SubEntries(subs[..|subs| - 1])
      + if subs[|subs| - 1].sub == 0 then [] else [SubEntry(subs[|subs| - 1])]
  }

  /** An ordinary object; a record's sub 0 is the highest subindex, whatever was declared for it. */
  function ObjObject(o: Obj): Object {
    Object(Cut16(o.index), o.code, MaxSub(o.subs) % 0x100,
           if o.code == OtypeVar then seq(|o.subs|, k requires 0 <= k < |o.subs| => SubEntry(o.subs[k]))
           else [CountEntry(MaxSub(o.subs))] + SubEntries(o.subs))
  }

  function RowIndex(o: Object): int { o.index }

  function ObjRows(objs: seq<Obj>): seq<Object> {
    seq(|objs|, k requires 0 <= k < |objs| => ObjObject(objs[k]))
  }

  function PdoRows(pdos: seq<Pdo>): seq<Object> {
    seq(|pdos|, k requires 0 <= k < |pdos| => PdoObject(pdos[k]))
  }

  /** The rows of SDOobjects, before they are sorted. */
  function Rows(objs: seq<Obj>, rx: seq<Pdo>, tx: seq<Pdo>): seq<Object> {
    ObjRows(objs) + PdoRows(rx) + PdoRows(tx)
    + [KindObject(), AssignObject(0x1C12, rx), AssignObject(0x1C13, tx)]
  }

  function SentinelRow(): Object { Object(SentinelIndex, 0xFF, 0xFF, []) }

  /** SDOobjects */
  function ObjectList(objs: seq<Obj>, rx: seq<Pdo>, tx: seq<Pdo>): seq<Object> {
    SortBy(Rows(objs, rx, tx), RowIndex) + [SentinelRow()]
  }

  /** MAX_MAPPINGS_SM2 and MAX_MAPPINGS_SM3 */
  function MaxMappings(pdos: seq<Pdo>): nat { Max(8, SlotCount(pdos)) }

  function SlotCount(pdos: seq<Pdo>): nat {
    if pdos == [] then 0 else SlotCount(pdos[..|pdos| - 1]) + |pdos[|pdos| - 1].slots|
  }
}

/** The laws of the generator: what it emits is what the stack needs. */
module GenLaws {
  import opened Base
  import opened Dictionary
  import opened PdoMap
  import opened GenSpec

  // ---------------------------------------------------------------- mapping words

  function Pow2(k: nat): (r: nat)
    ensures r > 0
  {
    if k == 0 then 1 else 2 * Pow2(k - 1)
  }

  lemma Doubled(m: nat, k: nat)
    requires k > 0
    ensures m * Pow2(k) == 2 * (m * Pow2(k - 1)) && m * Pow2(k - 1) >= 0
  {
  }

  lemma OrStep(a: nat, b: nat)
    ensures Or(2 * a, b) == 2 * Or(a, b / 2) + b % 2
  {
  }

  /** Or-ing below a shifted number adds. */
  lemma {:induction false} OrShifted(m: nat, b: nat, k: nat)
    requires b < Pow2(k)
    ensures Or(m * Pow2(k), b) == m * Pow2(k) + b
  {
    if k > 0 {
      Doubled(m, k);
      OrShifted(m, b / 2, k - 1);
      OrStep(m * Pow2(k - 1), b);
    }
  }

  lemma MappingWordIs(s: Slot)
    requires s.sub < 0x100 && s.bits < 0x100
    ensures MappingWord(s) == s.index * 0x1_0000 + s.sub * 0x100 + s.bits
  {
    assert Pow2(8) == 0x100 && Pow2(16) == 0x1_0000;
    OrShifted(s.index, s.sub * 0x100, 16);
    OrShifted(s.index * 0x100 + s.sub, s.bits, 8);
  }

  /** The mapping word of a slot says what the slot is exactly when its subindex and its length fit
      their 8 bits. */
  lemma MappingWordIff(s: Slot)
    requires s.index < 0x1_0000
    ensures var w := Cut32(MappingWord(s));
            (WordIndex(w), WordSub(w), WordBits(w)) == (s.index, s.sub, s.bits) <==> s.sub < 0x100 && s.bits < 0x100
  {
    if s.sub < 0x100 && s.bits < 0x100 {
      WordOfSlot(s);
    }
  }

  lemma NoCut(n: nat)
    requires n < 0x1_0000_0000
    ensures Cut32(n) == n
  {
  }

  lemma WordOfSlot(s: Slot)
    requires s.index < 0x1_0000 && s.sub < 0x100 && s.bits < 0x100
    ensures var w := Cut32(MappingWord(s));
            WordIndex(w) == s.index && WordSub(w) == s.sub && WordBits(w) == s.bits
  {
    MappingWordIs(s);
    NoCut(MappingWord(s));
    Fields(s.index, s.sub, s.bits, Cut32(MappingWord(s)));
  }

  lemma Fields(index: nat, sub: nat, bits: nat, w: u32)
    requires index < 0x1_0000 && sub < 0x100 && bits < 0x100
    requires w == index * 0x1_0000 + sub * 0x100 + bits
    ensures WordIndex(w) == index && WordSub(w) == sub && WordBits(w) == bits
  {
    assert w / 0x100 == index * 0x100 + sub;
  }

  // ---------------------------------------------------------------- the order of the list

  lemma {:induction false} TwoPlaces<T>(xs: seq<T>, x: T) returns (i: nat, j: nat)
    requires multiset(xs)[x] >= 2
    ensures i < j < |xs| && xs[i] == x && xs[j] == x
  {
    var n := |xs| - 1;
    assert xs == xs[..n] + [xs[n]];
    if xs[n] == x {
      j := n;
      assert x in multiset(xs[..n]);
      i :| 0 <= i < n && xs[i] == x;
    } else {
      i, j := TwoPlaces(xs[..n], x);
    }
  }

  lemma CountsTwice<T>(xs: seq<T>, i: nat, j: nat)
    requires i < j < |xs| && xs[i] == xs[j]
    ensures multiset(xs)[xs[i]] >= 2
  {
    assert xs == xs[..i] + [xs[i]] + xs[i + 1..j] + [xs[j]] + xs[j + 1..];
  }

  lemma DistinctPermuted<T>(xs: seq<T>, ys: seq<T>, key: T -> int)
    requires multiset(xs) == multiset(ys) && DistinctBy(xs, key)
    ensures DistinctBy(ys, key)
  {
    forall i, j | 0 <= i < j < |ys| ensures key(ys[i]) != key(ys[j]) {
      AtMostOnce(xs, ys[i], key);
      if ys[i] == ys[j] {
        CountsTwice(ys, i, j);
      }
      assert ys[i] in multiset(xs) && ys[j] in multiset(xs);
    }
  }

  lemma AtMostOnce<T>(xs: seq<T>, x: T, key: T -> int)
    requires DistinctBy(xs, key)
    ensures multiset(xs)[x] <= 1
  {
    if multiset(xs)[x] >= 2 {
      var _, _ := TwoPlaces(xs, x);
    }
  }

  predicate StrictlyAscends(dict: seq<Object>) {
    forall i, j | 0 <= i < j < |dict| :: dict[i].index < dict[j].index
  }

  /** Rows in order, with the sentinel behind them, ascend strictly if they are distinct and none is like it. */
  lemma SortedAscends(rows: seq<Object>, sorted: seq<Object>, list: seq<Object>)
    requires Ascends(sorted, RowIndex) && multiset(sorted) == multiset(rows) && list == sorted + [SentinelRow()]
    requires DistinctBy(rows, RowIndex) && forall o | o in rows :: o.index != SentinelIndex
    ensures StrictlyAscends(list)
  {
    DistinctPermuted(rows, sorted, RowIndex);
    forall i | 0 <= i < |sorted| ensures sorted[i].index < SentinelIndex {
      assert sorted[i] in multiset(rows);
    }
  }

  lemma AscendingRows(rows: seq<Object>, sorted: seq<Object>, list: seq<Object>)
    requires multiset(sorted) == multiset(rows) && list == sorted + [SentinelRow()] && StrictlyAscends(list)
    ensures DistinctBy(rows, RowIndex) && forall o | o in rows :: o.index != SentinelIndex
  {
    assert DistinctBy(sorted, RowIndex) by {
      assert forall i | 0 <= i < |sorted| :: list[i] == sorted[i];
    }
    DistinctPermuted(sorted, rows, RowIndex);
    forall o | o in rows ensures o.index != SentinelIndex {
      assert o in multiset(sorted);
      var i :| 0 <= i < |sorted| && sorted[i] == o;
      assert list[i].index < list[|list| - 1].index;
    }
  }

  /** The object list ascends strictly up to its sentinel exactly when no two rows share an index and
      none has the sentinel's. */
  lemma AscendsIff(objs: seq<Obj>, rx: seq<Pdo>, tx: seq<Pdo>)
    ensures StrictlyAscends(ObjectList(objs, rx, tx))
       <==> DistinctBy(Rows(objs, rx, tx), RowIndex)
            && forall o | o in Rows(objs, rx, tx) :: o.index != SentinelIndex
  {
    var rows, list := Rows(objs, rx, tx), ObjectList(objs, rx, tx);
    var sorted := SortBy(rows, RowIndex);
    Sorts(rows, RowIndex);
    if DistinctBy(rows, RowIndex) && forall o | o in rows :: o.index != SentinelIndex {
      SortedAscends(rows, sorted, list);
    }
    if StrictlyAscends(list) {
      AscendingRows(rows, sorted, list);
    }
  }

  lemma FindsAt(dict: seq<Object>, i: nat)
    requires StrictlyAscends(dict) && i < |dict|
    ensures Find(dict, dict[i].index) == Some(i)
  {
  }

  /** The search finds each row. */
  lemma FindsRow(objs: seq<Obj>, rx: seq<Pdo>, tx: seq<Pdo>, o: Object)
    requires StrictlyAscends(ObjectList(objs, rx, tx)) && o in Rows(objs, rx, tx)
    ensures var dict := ObjectList(objs, rx, tx);
            var n := Find(dict, o.index);
            n.Some? && n.value < |dict| - 1 && dict[n.value] == o
  {
    var sorted := SortBy(Rows(objs, rx, tx), RowIndex);
    Sorts(Rows(objs, rx, tx), RowIndex);
    assert o in multiset(sorted);
    var i :| 0 <= i < |sorted| && sorted[i] == o;
    assert ObjectList(objs, rx, tx)[i] == sorted[i];
    FindsAt(ObjectList(objs, rx, tx), i);
  }

  // ---------------------------------------------------------------- what the generator does not check

  /** An object as the stack's tables need it: a variable has its sub 0; a record's sub-entries are
      1, 2, 3 and so on, and are few enough. */
  predicate CleanObj(o: Obj) {
    && 0 < o.index < SentinelIndex
    && (forall i | 0 <= i < |o.subs| :: o.subs[i].bits < 0x1_0000_0000)
    && if o.code == OtypeVar then |o.subs| == 1 && o.subs[0].sub == 0
       else |o.subs| < 255 && forall i | 0 <= i < |o.subs| :: o.subs[i].sub == i + 1
  }

  /** A PDO whose entries can be counted below 255, with padding that fits 8 bits. */
  predicate CleanPdo(p: Pdo) {
    && 0 < p.index < SentinelIndex && |p.slots| < 255
    && forall i | 0 <= i < |p.slots| :: p.slots[i].bits < 0x100
  }

  /** What an accepted description needs beyond the generator's own checks. */
  predicate Clean(objs: seq<Obj>, rx: seq<Pdo>, tx: seq<Pdo>) {
    && (forall o | o in objs :: CleanObj(o))
    && (forall p | p in rx :: CleanPdo(p)) && (forall p | p in tx :: CleanPdo(p))
    && 0 < |rx| < 255 && 0 < |tx| < 255
    && DistinctBy(Rows(objs, rx, tx), RowIndex)
  }

  // ---------------------------------------------------------------- what the generator checks

  /** A slot that an item resolves to. */
  predicate Sourced(objs: seq<Obj>, s: Slot) {
    || (s.index == 0 && s.sub == 0)
    || exists o, x :: o in objs && x in o.subs && o.index == s.index && x.sub == s.sub && x.bits == s.bits
  }

  lemma {:induction false} LookupIs(objs: seq<Obj>, index: nat)
    ensures Lookup(objs, index).Some? ==> Lookup(objs, index).value in objs && Lookup(objs, index).value.index == index
  {
    if objs != [] {
      LookupIs(objs[..|objs| - 1], index);
    }
  }

  lemma {:induction false} FirstSubIs(subs: seq<Sub>, sub: nat)
    ensures FirstSub(subs, sub).Some? ==> FirstSub(subs, sub).value in subs && FirstSub(subs, sub).value.sub == sub
  {
    if subs != [] {
      FirstSubIs(subs[1..], sub);
    }
  }

  lemma ItemSourced(objs: seq<Obj>, stride: nat, axis: nat, item: Item)
    requires ResolveItem(objs, stride, axis, item).Some?
    ensures Sourced(objs, ResolveItem(objs, stride, axis, item).value)
  {
    if item.Map? {
      var index := item.index + axis * stride;
      LookupIs(objs, index);
      FirstSubIs(Lookup(objs, index).value.subs, item.sub);
    }
  }

  lemma {:induction false} SlotsSourced(objs: seq<Obj>, stride: nat, axis: nat, items: seq<Item>)
    requires Slots(objs, stride, axis, items).Some?
    ensures forall s | s in Slots(objs, stride, axis, items).value :: Sourced(objs, s)
  {
    if items != [] {
      var n := |items| - 1;
      SlotsSourced(objs, stride, axis, items[..n]);
      ItemSourced(objs, stride, axis, items[n]);
    }
  }

  /** A PDO as resolve_pdo leaves it. */
  predicate Laid(objs: seq<Obj>, p: Pdo) {
    Bits(p.slots) == 8 * p.bytes && forall s | s in p.slots :: Sourced(objs, s)
  }

  /** build_pdos: every PDO it returns is laid out of objects in the dictionary. */
  lemma {:induction false} PdosLaid(objs: seq<Obj>, axes: Axes, template: PdoSpec, extras: seq<PdoSpec>, n: nat)
    requires n <= axes.count + |extras| && PdosUpTo(objs, axes, template, extras, n).Some?
    ensures forall p | p in PdosUpTo(objs, axes, template, extras, n).value :: Laid(objs, p)
    ensures |PdosUpTo(objs, axes, template, extras, n).value| == n
  {
    if n > 0 {
      PdosLaid(objs, axes, template, extras, n - 1);
      var (spec, axis, index) := Job(template, extras, axes, n - 1);
      SlotsSourced(objs, axes.stride, axis, spec.items);
    }
  }

  /** A slot as its item asks for it, some indexes further on for an axis. */
  predicate Named(s: Slot, item: Item, shift: nat) {
    match item
    case Pad(bits) => s == Slot(0, 0, bits)
    case Map(index, sub) => s.index == index + shift && s.sub == sub
  }

  lemma {:induction false} SlotsNamed(objs: seq<Obj>, stride: nat, axis: nat, items: seq<Item>)
    requires Slots(objs, stride, axis, items).Some?
    ensures var slots := Slots(objs, stride, axis, items).value;
            |slots| == |items| && forall j | 0 <= j < |items| :: Named(slots[j], items[j], axis * stride)
  {
    if items != [] {
      SlotsNamed(objs, stride, axis, items[..|items| - 1]);
    }
  }

  /** A PDO as its specification asks for it. */
  predicate Follows(p: Pdo, spec: PdoSpec, number: nat, shift: nat) {
    && p.index == spec.index + number && |p.slots| == |spec.items|
    && forall j | 0 <= j < |spec.items| :: Named(p.slots[j], spec.items[j], shift)
  }

  /** PDO n as it is asked for: from the template for axis n, or an extra block. */
  predicate Wanted(p: Pdo, axes: Axes, template: PdoSpec, extras: seq<PdoSpec>, n: nat) {
    if n < axes.count then Follows(p, template, n, n * axes.stride)
    else n - axes.count < |extras| && Follows(p, extras[n - axes.count], 0, 0)
  }

  lemma JobWanted(objs: seq<Obj>, axes: Axes, template: PdoSpec, extras: seq<PdoSpec>, n: nat)
    requires n < axes.count + |extras|
    ensures var (spec, axis, index) := Job(template, extras, axes, n);
            var p := Resolved(objs, axes.stride, axis, index, spec.items);
            p.Some? ==> Wanted(p.value, axes, template, extras, n)
  {
    var (spec, axis, index) := Job(template, extras, axes, n);
    if Slots(objs, axes.stride, axis, spec.items).Some? {
      SlotsNamed(objs, axes.stride, axis, spec.items);
    }
  }

  /** build_pdos returns the template once for each axis, numbered on and with the objects of that axis, and then
      the extra blocks as they are. */
  lemma {:induction false} PdosFollow(objs: seq<Obj>, axes: Axes, template: PdoSpec, extras: seq<PdoSpec>, n: nat)
    requires n <= axes.count + |extras| && PdosUpTo(objs, axes, template, extras, n).Some?
    ensures var pdos := PdosUpTo(objs, axes, template, extras, n).value;
            |pdos| == n && forall k | 0 <= k < n :: Wanted(pdos[k], axes, template, extras, k)
  {
    if n > 0 {
      PdosFollow(objs, axes, template, extras, n - 1);
      JobWanted(objs, axes, template, extras, n - 1);
    }
  }

  /** The image of a SyncManager is kept three times over: copy k of some bytes. */
  function CopyEnd(start: nat, bytes: nat, k: nat): nat { start + (k + 1) * bytes }

  /** The check of the layout holds if and only if every copy of the outputs ends before the inputs, and every copy
      of those in the process RAM, which ends at 0x2000. */
  lemma SmFitsIff(outputs: nat, inputs: nat, rxBytes: nat, txBytes: nat)
    ensures SmFits(outputs, inputs, rxBytes, txBytes) <==>
              forall k | 0 <= k < 3 :: CopyEnd(outputs, rxBytes, k) <= inputs && CopyEnd(inputs, txBytes, k) <= 0x2000
  {
    assert CopyEnd(outputs, rxBytes, 2) == outputs + 3 * rxBytes;
    assert CopyEnd(inputs, txBytes, 2) == inputs + 3 * txBytes;
  }

  // ---------------------------------------------------------------- the emitted tables

  lemma {:induction false} DenseSubs(subs: seq<Sub>)
    requires forall i | 0 <= i < |subs| :: subs[i].sub == i + 1
    ensures SubEntries(subs) == seq(|subs|, k requires 0 <= k < |subs| => SubEntry(subs[k]))
    ensures MaxSub(subs) == |subs|
  {
    if subs != [] {
      var n := |subs| - 1;
      DenseSubs(subs[..n]);
    }
  }

  /** Entries at their subindexes. */
  predicate Placed(t: Object, subs: seq<Sub>) {
    forall x | x in subs :: HasEntry(t, x)
  }

  predicate HasEntry(t: Object, x: Sub) {
    x.sub < |t.entries| && t.entries[x.sub].bitlength == x.bits && t.entries[x.sub].subindex == x.sub
  }

  lemma VariableTable(o: Obj)
    requires CleanObj(o) && o.code == OtypeVar
    ensures ValidObject(ObjObject(o)) && Dense(ObjObject(o)) && Placed(ObjObject(o), o.subs)
  {
    assert MaxSub(o.subs) == Max(MaxSub(o.subs[..0]), o.subs[0].sub) == 0;
    EntryIs(o.subs[0]);
  }

  lemma NoCut16(n: nat)
    requires n < 0x1_0000
    ensures Cut16(n) == n
  {
  }

  lemma EntryIs(s: Sub)
    requires s.sub < 0x1_0000 && s.bits < 0x1_0000_0000
    ensures SubEntry(s).subindex == s.sub && SubEntry(s).bitlength == s.bits
  {
    NoCut16(s.sub);
    NoCut(s.bits);
  }

  lemma RecordEntry(o: Obj, i: nat)
    requires CleanObj(o) && o.code != OtypeVar && i < |o.subs|
    ensures |ObjObject(o).entries| == |o.subs| + 1
    ensures ObjObject(o).entries[i + 1].subindex == i + 1 == o.subs[i].sub
    ensures ObjObject(o).entries[i + 1].bitlength == o.subs[i].bits
  {
    DenseSubs(o.subs);
    EntryIs(o.subs[i]);
    var rest := SubEntries(o.subs);
    assert rest[i] == SubEntry(o.subs[i]);
    assert ([CountEntry(MaxSub(o.subs))] + rest)[i + 1] == rest[i];
  }

  lemma DenseValid(t: Object)
    requires Dense(t)
    ensures ValidObject(t)
  {
  }

  lemma RecordLength(o: Obj)
    requires CleanObj(o) && o.code != OtypeVar
    ensures |ObjObject(o).entries| == |o.subs| + 1 && ObjObject(o).maxsub == |o.subs|
    ensures ObjObject(o).entries[0].subindex == 0
  {
    DenseSubs(o.subs);
  }

  lemma RecordDense(o: Obj)
    requires CleanObj(o) && o.code != OtypeVar
    ensures Dense(ObjObject(o))
  {
    RecordLength(o);
    var t := ObjObject(o);
    forall j | 0 <= j < |t.entries| ensures t.entries[j].subindex == j {
      if j > 0 {
        RecordEntry(o, j - 1);
      }
    }
  }

  lemma RecordTable(o: Obj)
    requires CleanObj(o) && o.code != OtypeVar
    ensures ValidObject(ObjObject(o)) && Dense(ObjObject(o)) && Placed(ObjObject(o), o.subs)
  {
    RecordLength(o);
    RecordDense(o);
    DenseValid(ObjObject(o));
    forall x | x in o.subs ensures HasEntry(ObjObject(o), x) {
      var i :| 0 <= i < |o.subs| && o.subs[i] == x;
      RecordEntry(o, i);
    }
  }

  /** The table of an object: valid and dense, with each sub-entry at its subindex. */
  lemma ObjTable(o: Obj)
    requires CleanObj(o)
    ensures var t := ObjObject(o);
            ValidObject(t) && Dense(t) && t.index == o.index && Placed(t, o.subs)
  {
    if o.code == OtypeVar {
      VariableTable(o);
    } else {
      RecordTable(o);
    }
  }

  // ---------------------------------------------------------------- when an object's table is valid

  /** The sub-entries of a record that are emitted: all but those declared for sub 0. */
  function Listed(subs: seq<Sub>): seq<Sub> {
    if subs == [] then []
    else Listed(subs[..|subs| - 1]) + if subs[|subs| - 1].sub == 0 then [] else [subs[|subs| - 1]]
  }

  /** The sub-entries are numbered without gaps: a variable's from 0 on, a record's from 1 on. */
  predicate DenselyNumbered(o: Obj) {
    if o.code == OtypeVar then o.subs != [] && forall i | 0 <= i < |o.subs| :: o.subs[i].sub == i
    else var l := Listed(o.subs); forall i | 0 <= i < |l| :: l[i].sub == i + 1
  }

  /** The sub numbers of the entries that are emitted for an object. */
  function Numbers(o: Obj): seq<nat> {
    if o.code == OtypeVar then SubNumbers(o.subs) else [0] + SubNumbers(Listed(o.subs))
  }

  function SubNumbers(subs: seq<Sub>): seq<nat> { seq(|subs|, k requires 0 <= k < |subs| => subs[k].sub) }

  /** top is the largest number, or 0 if there is none. */
  predicate IsTop(t: seq<nat>, top: nat) {
    && (forall i | 0 <= i < |t| :: t[i] <= top)
    && (t == [] ==> top == 0) && (t != [] ==> exists i :: 0 <= i < |t| && t[i] == top)
  }

  lemma {:induction false} Climbs(t: seq<nat>, i: nat)
    requires StrictlyIncreasing(t) && i < |t|
    ensures i <= t[i]
  {
    if i > 0 {
      Climbs(t, i - 1);
      assert t[i - 1] < t[i];
    }
  }

  lemma {:induction false} Descends(t: seq<nat>, i: nat, top: nat)
    requires StrictlyIncreasing(t) && i < |t| && (forall k | 0 <= k < |t| :: t[k] <= top)
    ensures t[i] + (|t| - 1 - i) <= top
    decreases |t| - i
  {
    if i + 1 < |t| {
      Descends(t, i + 1, top);
      assert t[i] < t[i + 1];
    }
  }

  /** Ascending numbers that are more than their largest are 0, 1, 2 and so on. */
  lemma AscendingIffDense(t: seq<nat>, top: nat)
    requires IsTop(t, top)
    ensures |t| > top && StrictlyIncreasing(t) <==> t != [] && forall i | 0 <= i < |t| :: t[i] == i
  {
    if |t| > top && StrictlyIncreasing(t) {
      forall i | 0 <= i < |t| ensures t[i] == i {
        Climbs(t, i);
        Descends(t, i, top);
      }
    }
  }

  lemma {:induction false} MaxSubIsTop(subs: seq<Sub>)
    ensures IsTop(SubNumbers(subs), MaxSub(subs))
  {
    if subs != [] {
      var n := |subs| - 1;
      MaxSubIsTop(subs[..n]);
      var t, before := SubNumbers(subs), SubNumbers(subs[..n]);
      assert forall i | 0 <= i < n :: t[i] == before[i];
      assert t[n] == subs[n].sub;
      if MaxSub(subs) != subs[n].sub && n > 0 {
        var i :| 0 <= i < n && before[i] == MaxSub(subs[..n]);
        assert t[i] == MaxSub(subs);
      }
    }
  }

  lemma {:induction false} MaxSubOfListed(subs: seq<Sub>)
    ensures MaxSub(Listed(subs)) == MaxSub(subs)
    ensures forall x | x in Listed(subs) :: x in subs
  {
    if subs != [] {
      var n := |subs| - 1;
      MaxSubOfListed(subs[..n]);
      if subs[n].sub != 0 {
        assert Listed(subs)[..|Listed(subs)| - 1] == Listed(subs[..n]);
      } else {
        assert Listed(subs) == Listed(subs[..n]);
      }
    }
  }

  lemma {:induction false} SubEntriesListed(subs: seq<Sub>)
    ensures |SubEntries(subs)| == |Listed(subs)|
    ensures forall i | 0 <= i < |Listed(subs)| :: SubEntries(subs)[i] == SubEntry(Listed(subs)[i])
  {
    if subs != [] {
      SubEntriesListed(subs[..|subs| - 1]);
    }
  }

  /** The subindexes in an object's table are its sub numbers, if those fit. */
  lemma TableNumbers(o: Obj, i: nat)
    requires (forall x | x in o.subs :: x.sub <= 255) && i < |Numbers(o)|
    ensures |ObjObject(o).entries| == |Numbers(o)| && ObjObject(o).entries[i].subindex == Numbers(o)[i]
  {
    if o.code == OtypeVar {
      NoCut16(o.subs[i].sub);
    } else {
      SubEntriesListed(o.subs);
      if i > 0 {
        var x := Listed(o.subs)[i - 1];
        MaxSubOfListed(o.subs);
        assert x in Listed(o.subs);
        NoCut16(x.sub);
      }
    }
  }

  lemma TableLength(o: Obj)
    requires forall x | x in o.subs :: x.sub <= 255
    ensures |ObjObject(o).entries| == |Numbers(o)|
  {
    SubEntriesListed(o.subs);
  }

  lemma TableTop(o: Obj)
    requires forall x | x in o.subs :: x.sub <= 255
    ensures IsTop(Numbers(o), MaxSub(o.subs)) && ObjObject(o).maxsub == MaxSub(o.subs)
  {
    TopFits(o.subs);
    if o.code == OtypeVar {
      MaxSubIsTop(o.subs);
    } else {
      RecordTop(o.subs);
    }
  }

  lemma RecordTop(subs: seq<Sub>)
    ensures IsTop([0] + SubNumbers(Listed(subs)), MaxSub(subs))
  {
    var l := Listed(subs);
    MaxSubOfListed(subs);
    MaxSubIsTop(l);
    TopWithZero(SubNumbers(l), MaxSub(l));
  }

  lemma TopWithZero(t: seq<nat>, top: nat)
    requires IsTop(t, top)
    ensures IsTop([0] + t, top)
  {
    if t != [] {
      var i :| 0 <= i < |t| && t[i] == top;
      assert ([0] + t)[i + 1] == top;
    } else {
      assert ([0] + t)[0] == top;
    }
  }

  lemma {:induction false} TopFits(subs: seq<Sub>)
    requires forall x | x in subs :: x.sub <= 255
    ensures MaxSub(subs) <= 255
  {
    if subs != [] {
      TopFits(subs[..|subs| - 1]);
    }
  }

  /** The generator takes the sub numbers as they come. The table it emits for an object is one that the
      stack's search relies on if and only if they run without gaps. */
  lemma ValidIff(o: Obj)
    requires forall x | x in o.subs :: x.sub <= 255
    ensures ValidObject(ObjObject(o)) <==> DenselyNumbered(o)
  {
    var t, e := Numbers(o), ObjObject(o).entries;
    TableLength(o);
    TableTop(o);
    forall i | 0 <= i < |t| ensures e[i].subindex == t[i] {
      TableNumbers(o, i);
    }
    AscendingIffDense(t, MaxSub(o.subs));
    NumbersDense(o);
  }

  lemma NumbersDense(o: Obj)
    ensures DenselyNumbered(o) <==> Numbers(o) != [] && forall i | 0 <= i < |Numbers(o)| :: Numbers(o)[i] == i
  {
    var l := if o.code == OtypeVar then o.subs else Listed(o.subs);
    var m := SubNumbers(l);
    assert forall i {:trigger l[i]} {:trigger m[i]} | 0 <= i < |l| :: m[i] == l[i].sub;
    if o.code != OtypeVar {
      assert Numbers(o) == [0] + m;
      OneMore(m);
    } else {
      assert Numbers(o) == m && (m != [] <==> o.subs != []);
    }
  }

  lemma OneMore(l: seq<nat>)
    ensures (forall i | 0 <= i < |l| :: l[i] == i + 1) <==> forall i | 0 <= i < |l| + 1 :: ([0] + l)[i] == i
  {
    var t := [0] + l;
    assert forall i | 0 <= i < |l| :: l[i] == t[i + 1];
    assert forall i | 1 <= i < |t| :: t[i] == l[i - 1];
  }

  lemma PdoTable(p: Pdo)
    requires CleanPdo(p)
    ensures ValidObject(PdoObject(p)) && PdoObject(p).index == p.index && Walkable(PdoObject(p))
    ensures Value8(PdoObject(p)) == |p.slots|
  {
    var o := PdoObject(p);
    NoCut(|p.slots|);
    assert o.entries[0] == CountEntry(|p.slots|);
    forall j | 0 <= j < |o.entries| ensures o.entries[j].subindex == j {
      NoCut16(j);
    }
  }

  lemma AssignTable(index: u16, pdos: seq<Pdo>)
    requires 0 < |pdos| < 255
    ensures ValidObject(AssignObject(index, pdos)) && Walkable(AssignObject(index, pdos))
    ensures Value8(AssignObject(index, pdos)) == |pdos|
  {
  }

  /** sub 0 of a mapping object counts its entries exactly when there are fewer than 256 of them. */
  lemma CountIff(p: Pdo)
    requires |p.slots| < 0x1_0000_0000
    ensures Value8(PdoObject(p)) == |p.slots| <==> |p.slots| < 0x100
  {
    NoCut(|p.slots|);
    assert PdoObject(p).entries[0] == CountEntry(|p.slots|);
  }

  /** A master reads the PDO assigned k-th only for k up to 1, however many are assigned. */
  lemma AssignmentReadIff(index: u16, pdos: seq<Pdo>, k: u8)
    requires 0 < |pdos| < 255 && k <= |pdos|
    ensures FindSub(AssignObject(index, pdos), k).Some? <==> k <= 1
  {
    var o := AssignObject(index, pdos);
    assert o.entries[0].subindex == 0 && o.entries[1].subindex == 1;
  }

  lemma ObjRowValid(objs: seq<Obj>, o: Object)
    requires (forall x | x in objs :: CleanObj(x)) && o in ObjRows(objs)
    ensures ValidObject(o) && o.index != SentinelIndex
  {
    var i :| 0 <= i < |objs| && ObjRows(objs)[i] == o;
    ObjTable(objs[i]);
  }

  lemma PdoRowValid(pdos: seq<Pdo>, o: Object)
    requires (forall p | p in pdos :: CleanPdo(p)) && o in PdoRows(pdos)
    ensures ValidObject(o) && o.index != SentinelIndex
  {
    var i :| 0 <= i < |pdos| && PdoRows(pdos)[i] == o;
    assert pdos[i] in pdos;
    PdoTable(pdos[i]);
  }

  lemma RowValid(objs: seq<Obj>, rx: seq<Pdo>, tx: seq<Pdo>, o: Object)
    requires Clean(objs, rx, tx) && o in Rows(objs, rx, tx)
    ensures ValidObject(o) && o.index != SentinelIndex
  {
    if o in ObjRows(objs) {
      ObjRowValid(objs, o);
    } else if o in PdoRows(rx) {
      PdoRowValid(rx, o);
    } else if o in PdoRows(tx) {
      PdoRowValid(tx, o);
    } else {
      assert o in [KindObject(), AssignObject(0x1C12, rx), AssignObject(0x1C13, tx)];
      AssignTable(0x1C12, rx);
      AssignTable(0x1C13, tx);
    }
  }

  /** The emitted dictionary is one that the stack's searches rely on. */
  lemma ListValid(objs: seq<Obj>, rx: seq<Pdo>, tx: seq<Pdo>)
    requires Clean(objs, rx, tx)
    ensures ValidDict(ObjectList(objs, rx, tx)) && StrictlyAscends(ObjectList(objs, rx, tx))
  {
    var rows, dict := Rows(objs, rx, tx), ObjectList(objs, rx, tx);
    forall o | o in rows ensures ValidObject(o) && o.index != SentinelIndex {
      RowValid(objs, rx, tx, o);
    }
    AscendsIff(objs, rx, tx);
    Sorts(rows, RowIndex);
    forall i | 0 <= i < |dict| - 1 ensures ValidObject(dict[i]) {
      assert dict[i] in multiset(rows);
    }
  }

  // ---------------------------------------------------------------- generator and sizeOfPDO agree

  /** The mapping words of some slots, and of some PDOs. */
  function WordsOf(slots: seq<Slot>): (r: seq<u32>)
    ensures |r| == |slots|
  {
    seq(|slots|, k requires 0 <= k < |slots| => Cut32(MappingWord(slots[k])))
  }

  function AllWords(pdos: seq<Pdo>): seq<u32> {
    if pdos == [] then [] else AllWords(pdos[..|pdos| - 1]) + WordsOf(pdos[|pdos| - 1].slots)
  }

  predicate Fine(s: Slot) { s.index < 0x1_0000 && s.sub < 0x100 && s.bits < 0x100 }

  /** A slot of a clean PDO over clean objects says what it is in its mapping word. */
  lemma SlotFine(objs: seq<Obj>, s: Slot)
    requires (forall o | o in objs :: CleanObj(o)) && Sourced(objs, s) && s.bits < 0x100
    ensures Fine(s) && s.index != SentinelIndex
  {
    if !(s.index == 0 && s.sub == 0) {
      var o, x :| o in objs && x in o.subs && o.index == s.index && x.sub == s.sub && x.bits == s.bits;
      assert CleanObj(o);
    }
  }

  lemma OffsetSnoc(words: seq<u32>, w: u32)
    ensures Offset(words + [w]) == Offset(words) + WordBits(w)
  {
    assert (words + [w])[..|words|] == words;
  }

  lemma {:induction false} OffsetConcat(a: seq<u32>, b: seq<u32>)
    ensures Offset(a + b) == Offset(a) + Offset(b)
  {
    if b == [] {
      assert a + b == a;
    } else {
      var n := |b| - 1;
      OffsetConcat(a, b[..n]);
      assert a + b == (a + b[..n]) + [b[n]];
      OffsetSnoc(a + b[..n], b[n]);
    }
  }

  lemma {:induction false} SlotBits(slots: seq<Slot>)
    requires forall s | s in slots :: Fine(s)
    ensures Offset(WordsOf(slots)) == Bits(slots)
  {
    if slots != [] {
      var n := |slots| - 1;
      SlotBits(slots[..n]);
      assert Fine(slots[n]);
      WordOfSlot(slots[n]);
      assert WordsOf(slots) == WordsOf(slots[..n]) + [Cut32(MappingWord(slots[n]))];
      OffsetSnoc(WordsOf(slots[..n]), Cut32(MappingWord(slots[n])));
    }
  }

  /** A PDO that the generator has checked and that is clean. */
  predicate Good(objs: seq<Obj>, p: Pdo) {
    CleanPdo(p) && Laid(objs, p)
  }

  lemma GoodSlots(objs: seq<Obj>, p: Pdo)
    requires (forall o | o in objs :: CleanObj(o)) && Good(objs, p)
    ensures forall s | s in p.slots :: Fine(s) && s.index != SentinelIndex
  {
    forall s | s in p.slots ensures Fine(s) && s.index != SentinelIndex {
      var i :| 0 <= i < |p.slots| && p.slots[i] == s;
      SlotFine(objs, s);
    }
  }

  lemma {:induction false} WordsTotal(objs: seq<Obj>, pdos: seq<Pdo>)
    requires (forall o | o in objs :: CleanObj(o)) && forall p | p in pdos :: Good(objs, p)
    ensures Offset(AllWords(pdos)) == 8 * TotalBytes(pdos) && |AllWords(pdos)| == SlotCount(pdos)
  {
    if pdos != [] {
      var n := |pdos| - 1;
      WordsTotal(objs, pdos[..n]);
      GoodSlots(objs, pdos[n]);
      SlotBits(pdos[n].slots);
      OffsetConcat(AllWords(pdos[..n]), WordsOf(pdos[n].slots));
    }
  }

  lemma PdoWordsAre(p: Pdo)
    requires |p.slots| < 255
    ensures PdoWords(PdoObject(p), |p.slots|) == WordsOf(p.slots)
  {
    var o := PdoObject(p);
    forall k | 0 <= k < |p.slots| ensures ValueAt(o, k + 1) == WordsOf(p.slots)[k] {
      assert o.entries[k + 1] == WordEntry(k + 1, p.slots[k]);
    }
  }

  /** The dictionary holds the mapping objects of these PDOs. */
  ghost predicate Mapped(dict: seq<Object>, pdos: seq<Pdo>) {
    forall p | p in pdos :: FoundAt(dict, PdoObject(p))
  }

  ghost predicate FoundAt(dict: seq<Object>, o: Object) {
    var n := Find(dict, o.index);
    n.Some? && n.value < |dict| - 1 && dict[n.value] == o
  }

  lemma AssignedIs(dict: seq<Object>, index: u16, pdos: seq<Pdo>, k: nat)
    requires Mapped(dict, pdos) && k < |pdos| && CleanPdo(pdos[k])
    ensures Assigned(dict, AssignObject(index, pdos), k + 1) == Some(PdoObject(pdos[k]))
    ensures ValueAt(AssignObject(index, pdos), k + 1) == pdos[k].index
  {
    var a := AssignObject(index, pdos);
    assert a.entries[k + 1] == AssignEntry(k + 1, pdos[k]);
    assert pdos[k] in pdos;
    assert FoundAt(dict, PdoObject(pdos[k]));
  }

  lemma {:induction false} AssignedWordsAre(dict: seq<Object>, index: u16, pdos: seq<Pdo>, k: nat)
    requires Mapped(dict, pdos) && k <= |pdos| && forall p | p in pdos :: CleanPdo(p)
    ensures AssignedWords(dict, AssignObject(index, pdos), k) == AllWords(pdos[..k])
  {
    if k > 0 {
      AssignedWordsAre(dict, index, pdos, k - 1);
      assert pdos[k - 1] in pdos;
      AssignedIs(dict, index, pdos, k - 1);
      PdoTable(pdos[k - 1]);
      PdoWordsAre(pdos[k - 1]);
      assert pdos[..k][..k - 1] == pdos[..k - 1];
    }
  }

  /** The mapping object names nothing under the sentinel's index. */
  lemma MapsReal(objs: seq<Obj>, p: Pdo)
    requires (forall o | o in objs :: CleanObj(o)) && Good(objs, p)
    ensures MapsObjects(PdoObject(p))
  {
    PdoTable(p);
    GoodSlots(objs, p);
    PdoWordsAre(p);
    forall c | 0 < c <= |p.slots| ensures WordIndex(ValueAt(PdoObject(p), c)) != SentinelIndex {
      assert p.slots[c - 1] in p.slots;
      WordOfSlot(p.slots[c - 1]);
      assert ValueAt(PdoObject(p), c) == PdoWords(PdoObject(p), |p.slots|)[c - 1];
    }
  }

  lemma AssignmentReal(dict: seq<Object>, objs: seq<Obj>, index: u16, pdos: seq<Pdo>)
    requires Mapped(dict, pdos) && 0 < |pdos| < 255
    requires (forall o | o in objs :: CleanObj(o)) && forall p | p in pdos :: Good(objs, p)
    ensures Assignment(dict, AssignObject(index, pdos))
  {
    var a := AssignObject(index, pdos);
    AssignTable(index, pdos);
    forall k: nat | 0 < k <= |pdos| ensures AssignsPdo(dict, a, k) {
      assert pdos[k - 1] in pdos;
      AssignedIs(dict, index, pdos, k - 1);
      MapsReal(objs, pdos[k - 1]);
    }
  }

  /** A mapping word that names an entry of its own length, or padding. */
  ghost predicate WordAgrees(dict: seq<Object>, w: u32)
    requires ValidDict(dict)
  {
    match Resolve(dict, w)
    case Missing => false
    case Padding => true
    case Found(r) =>
      && r.obj < |dict| - 1 && r.entry < |dict[r.obj].entries|
      && dict[r.obj].entries[r.entry].bitlength == WordBits(w)
  }

  lemma EntryAgrees(dict: seq<Object>, o: Obj, x: Sub, w: u32)
    requires ValidDict(dict) && CleanObj(o) && x in o.subs && FoundAt(dict, ObjObject(o))
    requires WordIndex(w) == o.index && WordSub(w) == x.sub && WordBits(w) == x.bits
    ensures WordAgrees(dict, w)
  {
    ObjTable(o);
    var t := ObjObject(o);
    var n := Find(dict, t.index).value;
    var k := FindSub(t, WordSub(w));
    assert HasEntry(t, x);
    assert k.Some? && t.entries[k.value].subindex == x.sub;
  }

  lemma SlotAgrees(dict: seq<Object>, objs: seq<Obj>, s: Slot)
    requires ValidDict(dict) && (forall o | o in objs :: CleanObj(o) && FoundAt(dict, ObjObject(o)))
    requires Sourced(objs, s) && s.bits < 0x100
    ensures WordAgrees(dict, Cut32(MappingWord(s)))
  {
    SlotFine(objs, s);
    WordOfSlot(s);
    if !(s.index == 0 && s.sub == 0) {
      var o, x :| o in objs && x in o.subs && o.index == s.index && x.sub == s.sub && x.bits == s.bits;
      EntryAgrees(dict, o, x, Cut32(MappingWord(s)));
    }
  }

  lemma {:induction false} WordsAgree(dict: seq<Object>, objs: seq<Obj>, pdos: seq<Pdo>)
    requires ValidDict(dict) && (forall o | o in objs :: CleanObj(o) && FoundAt(dict, ObjObject(o)))
    requires forall p | p in pdos :: Good(objs, p)
    ensures forall w | w in AllWords(pdos) :: WordAgrees(dict, w)
  {
    if pdos != [] {
      var n := |pdos| - 1;
      WordsAgree(dict, objs, pdos[..n]);
      var p := pdos[n];
      assert p in pdos && Good(objs, p);
      forall i | 0 <= i < |p.slots| ensures WordAgrees(dict, WordsOf(p.slots)[i]) {
        assert p.slots[i] in p.slots;
        SlotAgrees(dict, objs, p.slots[i]);
      }
    }
  }

  /** What sizeOfPDO makes of one direction: a table for as many mappings as the generator reserves, as
      many bytes as it counted, and every word names an entry of its own length, or padding. */
  ghost predicate SizesAgree(dict: seq<Object>, sm: u16, pdos: seq<Pdo>)
    requires ValidDict(dict)
  {
    var r := SizeOf(dict, sm, MaxMappings(pdos));
    && Mappable(dict, sm)
    && r.Image? && r.size == TotalBytes(pdos) && |r.mappings| == |Words(dict, sm)| == SlotCount(pdos)
    && Offset(Words(dict, sm)) == 8 * TotalBytes(pdos)
    && forall w | w in Words(dict, sm) :: WordAgrees(dict, w)
  }

  lemma DirectionAgrees(dict: seq<Object>, objs: seq<Obj>, sm: u16, pdos: seq<Pdo>)
    requires ValidDict(dict) && (forall o | o in objs :: CleanObj(o) && FoundAt(dict, ObjObject(o)))
    requires (forall p | p in pdos :: Good(objs, p)) && Mapped(dict, pdos) && 0 < |pdos| < 255
    requires (sm == RxAssign || sm == TxAssign) && FoundAt(dict, AssignObject(sm, pdos)) && TotalBytes(pdos) <= TopOfRam
    ensures SizesAgree(dict, sm, pdos)
  {
    AssignTable(sm, pdos);
    AssignmentReal(dict, objs, sm, pdos);
    AssignedWordsAre(dict, sm, pdos, |pdos|);
    assert pdos[..|pdos|] == pdos;
    assert Words(dict, sm) == AllWords(pdos);
    WordsTotal(objs, pdos);
    WordsAgree(dict, objs, pdos);
    SizeIs(dict, sm, AllWords(pdos), MaxMappings(pdos), TotalBytes(pdos));
  }

  lemma SizeIs(dict: seq<Object>, sm: u16, words: seq<u32>, max: nat, bytes: nat)
    requires ValidDict(dict) && (sm == RxAssign || sm == TxAssign) && Find(dict, sm).Some? && words == Words(dict, sm)
    requires (forall w | w in words :: WordAgrees(dict, w)) && |words| <= max && Offset(words) == 8 * bytes
    requires bytes <= TopOfRam
    ensures var r := SizeOf(dict, sm, max);
            r.Image? && r.size == bytes && (max > 0 ==> |r.mappings| == |words|)
  {
    forall i | 0 <= i < |words| ensures Resolve(dict, words[i]) != Missing {
      assert WordAgrees(dict, words[i]);
    }
    WholeBytes(bytes);
  }

  lemma WholeBytes(bytes: nat)
    requires bytes < 0x1_0000
    ensures InBytes(8 * bytes) == bytes
  {
  }

  /** The rows the searches come across. */
  lemma RowsFound(objs: seq<Obj>, rx: seq<Pdo>, tx: seq<Pdo>)
    requires Clean(objs, rx, tx)
    ensures var dict := ObjectList(objs, rx, tx);
            && ValidDict(dict) && (forall o | o in objs :: FoundAt(dict, ObjObject(o)))
            && Mapped(dict, rx) && Mapped(dict, tx)
            && FoundAt(dict, AssignObject(0x1C12, rx)) && FoundAt(dict, AssignObject(0x1C13, tx))
  {
    ListValid(objs, rx, tx);
    forall o | o in objs ensures FoundAt(ObjectList(objs, rx, tx), ObjObject(o)) {
      var i :| 0 <= i < |objs| && objs[i] == o;
      assert ObjRows(objs)[i] == ObjObject(o);
      FindsRow(objs, rx, tx, ObjObject(o));
    }
    forall p | p in rx ensures FoundAt(ObjectList(objs, rx, tx), PdoObject(p)) {
      var i :| 0 <= i < |rx| && rx[i] == p;
      assert PdoRows(rx)[i] == PdoObject(p);
      FindsRow(objs, rx, tx, PdoObject(p));
    }
    forall p | p in tx ensures FoundAt(ObjectList(objs, rx, tx), PdoObject(p)) {
      var i :| 0 <= i < |tx| && tx[i] == p;
      assert PdoRows(tx)[i] == PdoObject(p);
      FindsRow(objs, rx, tx, PdoObject(p));
    }
    FindsRow(objs, rx, tx, AssignObject(0x1C12, rx));
    FindsRow(objs, rx, tx, AssignObject(0x1C13, tx));
  }

  /** A description: what the generator reads of it. */
  datatype Config = Config(specs: seq<Spec>, axes: Axes, rx: PdoSpec, rxExtras: seq<PdoSpec>, tx: PdoSpec,
                           txExtras: seq<PdoSpec>, outputs: nat, inputs: nat)

  /** The generator accepts a description, and this is what it makes of it. */
  predicate Accepted(c: Config, objs: seq<Obj>, rx: seq<Pdo>, tx: seq<Pdo>) {
    && Objects(c.specs, c.axes) == Some(objs)
    && Pdos(objs, c.axes, c.rx, c.rxExtras) == Some(rx)
    && Pdos(objs, c.axes, c.tx, c.txExtras) == Some(tx)
    && SmFits(c.outputs, c.inputs, TotalBytes(rx), TotalBytes(tx))
  }

  /**
   Generator and stack agree. For every description that the generator accepts and that is clean, the
   emitted dictionary is ordered as the stack's searches need; sizeOfPDO over it finds in both
   directions as many bytes as the generator laid the SyncManagers out for, within the mappings it
   reserved, and every mapping word names an entry of its own length, or padding; and the check of
   ESC_checkSM23 that three copies of the outputs end before the inputs passes.
   */
  lemma Agreement(c: Config, objs: seq<Obj>, rx: seq<Pdo>, tx: seq<Pdo>)
    requires Accepted(c, objs, rx, tx) && Clean(objs, rx, tx)
    ensures var dict := ObjectList(objs, rx, tx);
            && ValidDict(dict) && StrictlyAscends(dict)
            && SizesAgree(dict, RxAssign, rx) && SizesAgree(dict, TxAssign, tx)
            && c.outputs + 3 * SizeOf(dict, RxAssign, MaxMappings(rx)).size <= c.inputs
  {
    ListValid(objs, rx, tx);
    RowsFound(objs, rx, tx);
    AllGood(c, objs, rx, tx);
    DirectionAgrees(ObjectList(objs, rx, tx), objs, RxAssign, rx);
    DirectionAgrees(ObjectList(objs, rx, tx), objs, TxAssign, tx);
  }

  lemma GoodPdos(objs: seq<Obj>, axes: Axes, template: PdoSpec, extras: seq<PdoSpec>, pdos: seq<Pdo>)
    requires Pdos(objs, axes, template, extras) == Some(pdos) && forall p | p in pdos :: CleanPdo(p)
    ensures forall p | p in pdos :: Good(objs, p)
  {
    PdosLaid(objs, axes, template, extras, axes.count + |extras|);
  }

  lemma AllGood(c: Config, objs: seq<Obj>, rx: seq<Pdo>, tx: seq<Pdo>)
    requires Accepted(c, objs, rx, tx) && Clean(objs, rx, tx)
    ensures (forall p | p in rx :: Good(objs, p)) && (forall p | p in tx :: Good(objs, p))
    ensures TotalBytes(rx) <= TopOfRam && TotalBytes(tx) <= TopOfRam
  {
    GoodPdos(objs, c.axes, c.rx, c.rxExtras, rx);
    GoodPdos(objs, c.axes, c.tx, c.txExtras, tx);
  }
}

/** The loops of the generator. */
module Generator {
  import opened Base
  import opened GenSpec

  /** The search for a key that was seen before. */
  method NoDuplicate<T>(xs: seq<T>, key: T -> int) returns (ok: bool)
    ensures ok == DistinctBy(xs, key)
  {
    var seen: set<int> := {};
    for k := 0 to |xs|
      invariant seen == set j | 0 <= j < k :: key(xs[j])
      invariant forall i, j | 0 <= i < j < k :: key(xs[i]) != key(xs[j])
    {
      if key(xs[k]) in seen {
        return false;
      }
      seen := seen + {key(xs[k])};
    }
    return true;
  }

  method BuildObjects(specs: seq<Spec>, axes: Axes) returns (r: Option<seq<Obj>>)
    ensures r == Objects(specs, axes)
  {
    var objs: seq<Obj> := [];
    for k := 0 to |specs|
      invariant objs == Expand(specs[..k], axes)
    {
      var spec := specs[k];
      assert specs[..k + 1][..k] == specs[..k];
      if spec.perAxis {
        ghost var before := objs;
        for n := 0 to axes.count
          invariant objs == before + PerAxis(spec, Axes(n, axes.stride))
        {
          objs := objs + [Obj(spec.index + n * axes.stride, spec.code, spec.subs)];
        }
      } else {
        objs := objs + [Obj(spec.index, spec.code, spec.subs)];
      }
    }
    assert specs[..|specs|] == specs;
    objs := SortBy(objs, ObjIndex);
    var ok := NoDuplicate(objs, ObjIndex);
    return if ok then Some(objs) else None;
  }

  method ResolvePdo(objs: seq<Obj>, stride: nat, axis: nat, index: nat, items: seq<Item>) returns (r: Option<Pdo>)
    ensures r == Resolved(objs, stride, axis, index, items)
  {
    var slots: seq<Slot> := [];
    var bits := 0;
    for k := 0 to |items|
      invariant Slots(objs, stride, axis, items[..k]) == Some(slots) && bits == Bits(slots)
    {
      assert items[..k + 1][..k] == items[..k];
      var item := items[k];
      var slot := Slot(0, 0, 0);
      if item.Pad? {
        slot := Slot(0, 0, item.bits);
      } else {
        var idx := item.index + axis * stride;
        var obj := Lookup(objs, idx);
        if obj.None? || FirstSub(obj.value.subs, item.sub).None? {
          StopsHere(objs, stride, axis, items, k + 1);
          return None;
        }
        slot := Slot(idx, item.sub, FirstSub(obj.value.subs, item.sub).value.bits);
      }
      assert (slots + [slot])[..|slots|] == slots;
      slots, bits := slots + [slot], bits + slot.bits;
    }
    assert items[..|items|] == items;
    if bits % 8 != 0 {
      return None;
    }
    return Some(Pdo(index, slots, bits / 8));
  }

  lemma {:induction false} StopsHere(objs: seq<Obj>, stride: nat, axis: nat, items: seq<Item>, k: nat)
    requires k <= |items| && Slots(objs, stride, axis, items[..k]).None?
    ensures Slots(objs, stride, axis, items).None?
    decreases |items| - k
  {
    if k == |items| {
      assert items[..k] == items;
    } else {
      assert items[..k + 1][..k] == items[..k];
      StopsHere(objs, stride, axis, items, k + 1);
    }
  }

  method BuildPdos(objs: seq<Obj>, axes: Axes, template: PdoSpec, extras: seq<PdoSpec>)
    returns (r: Option<seq<Pdo>>, bytes: nat)
    ensures r == Pdos(objs, axes, template, extras)
    ensures r.Some? ==> bytes == TotalBytes(r.value)
  {
    var pdos: seq<Pdo> := [];
    bytes := 0;
    for n := 0 to axes.count + |extras|
      invariant PdosUpTo(objs, axes, template, extras, n) == Some(pdos) && bytes == TotalBytes(pdos)
    {
      var job := Job(template, extras, axes, n);
      var p := ResolvePdo(objs, axes.stride, job.1, job.2, job.0.items);
      OneMorePdo(objs, axes, template, extras, n, pdos, job, p);
      if p.None? {
        StopsAt(objs, axes, template, extras, n + 1);
        return None, 0;
      }
      TotalSnoc(pdos, p.value);
      pdos, bytes := pdos + [p.value], bytes + p.value.bytes;
    }
    var ok := NoDuplicate(pdos, PdoIndex);
    return if ok then Some(pdos) else None, bytes;
  }

  lemma TotalSnoc(pdos: seq<Pdo>, p: Pdo)
    ensures TotalBytes(pdos + [p]) == TotalBytes(pdos) + p.bytes
  {
    assert (pdos + [p])[..|pdos|] == pdos;
  }

  lemma OneMorePdo(objs: seq<Obj>, axes: Axes, template: PdoSpec, extras: seq<PdoSpec>, n: nat, before: seq<Pdo>,
                   job: (PdoSpec, nat, nat), p: Option<Pdo>)
    requires n < axes.count + |extras| && PdosUpTo(objs, axes, template, extras, n) == Some(before)
    requires job == Job(template, extras, axes, n)
    requires p == Resolved(objs, axes.stride, job.1, job.2, job.0.items)
    ensures PdosUpTo(objs, axes, template, extras, n + 1) == if p.None? then None else Some(before + [p.value])
  {
  }

  lemma {:induction false} StopsAt(objs: seq<Obj>, axes: Axes, template: PdoSpec, extras: seq<PdoSpec>, n: nat)
    requires n <= axes.count + |extras| && PdosUpTo(objs, axes, template, extras, n).None?
    ensures Pdos(objs, axes, template, extras).None?
    decreases axes.count + |extras| - n
  {
    if n < axes.count + |extras| {
      StopsAt(objs, axes, template, extras, n + 1);
    }
  }
}

/** The process image of a generated dictionary. */
module GenImage {
  import opened Base
  import opened Dictionary
  import opened PdoMap
  import opened GenSpec
  import opened GenLaws
  import P = ProcessImage

  /** The types of the descriptions that have a size: the data type, the length of an entry and that of its C type,
      in bits (`tools/gen_od.py:34-50`). */
  datatype TypeName = Bool | I8 | U8 | I16 | U16 | I32 | U32 | I64 | U64 | Real32

  function DataType(t: TypeName): u16 {
    match t
    case Bool => 0x0001
    case I8 => 0x0002
    case I16 => 0x0003
    case I32 => 0x0004
    case U8 => 0x0005
    case U16 => 0x0006
    case U32 => 0x0007
    case Real32 => 0x0008
    case I64 => 0x0015
    case U64 => 0x001B
  }

  function BitLength(t: TypeName): nat {
    if t.Bool? then 1 else if t.I8? || t.U8? then 8 else if t.I16? || t.U16? then 16
    else if t.I64? || t.U64? then 64 else 32
  }

  /** The C type the stack moves an entry as is the one that the generator declares: as long as the entry, but for
      a bool, which has a byte. Of the data types that are not generated, it moves those of 1 to 8 bits as a byte,
      bit arrays of 8, 16 and 32 bits and the 64-bit real number; no other has a C type. */
  lemma TypesAgree(dtype: u16)
    ensures forall t: TypeName | DataType(t) == dtype ::
              P.TypeBits(dtype) == Some(if t.Bool? then 8 else BitLength(t))
    ensures (forall t: TypeName :: DataType(t) != dtype) ==>
              P.TypeBits(dtype) == if 0x30 <= dtype < 0x38 || dtype == 0x2D then Some(8)
                                   else if dtype == 0x2E then Some(16)
                                   else if dtype == 0x2F then Some(32)
                                   else if dtype == 0x11 then Some(64)
                                   else None
  {
    assert DataType(Bool) == 1 && DataType(I8) == 2 && DataType(I16) == 3 && DataType(I32) == 4 && DataType(U8) == 5;
    assert DataType(U16) == 6 && DataType(U32) == 7 && DataType(Real32) == 8 && DataType(I64) == 0x15;
    assert DataType(U64) == 0x1B;
  }

  /** An emitted constant: read-only, in the table itself, with the type and length of its kind. */
  predicate Constant(e: Entry, sub: u16, t: TypeName, value: u32) {
    e == Entry(sub, DataType(t), BitLength(t), 0x0007, value, false)
  }

  /** The entries of the objects that describe PDOs and SyncManagers are constants whose length is that of their
      type; and 0x1C00 says that SyncManagers 0 to 3 receive, send, take outputs and give inputs. */
  lemma EmittedConstants(p: Pdo, pdos: seq<Pdo>, index: u16)
    ensures Constant(PdoObject(p).entries[0], 0, U8, |p.slots| % 0x1_0000_0000)
    ensures forall k | 0 <= k < |p.slots| ::
              Constant(PdoObject(p).entries[k + 1], (k + 1) % 0x1_0000, U32, MappingWord(p.slots[k]) % 0x1_0000_0000)
    ensures Constant(AssignObject(index, pdos).entries[0], 0, U8, |pdos| % 0x1_0000_0000)
    ensures forall k | 0 <= k < |pdos| ::
              Constant(AssignObject(index, pdos).entries[k + 1], (k + 1) % 0x1_0000, U16, pdos[k].index % 0x1_0000)
    ensures var o := KindObject();
            && o.index == 0x1C00 && o.maxsub == 4 && |o.entries| == 5
            && forall k | 0 <= k < 5 :: Constant(o.entries[k], k, U8, if k == 0 then 4 else k)
  {
  }

  /** The mapping words that a direction of an agreeing dictionary emits have the lengths of the entries
      the table then names. */
  lemma LengthsFollow(dict: seq<Object>, sm: u16, pdos: seq<Pdo>, ms: seq<Mapping>)
    requires ValidDict(dict) && SizesAgree(dict, sm, pdos) && MaxMappings(pdos) > 0
    requires ms == SizeOf(dict, sm, MaxMappings(pdos)).mappings
    ensures |ms| == |Words(dict, sm)| && P.LengthsAgree(dict, ms, Words(dict, sm))
  {
    var words := Words(dict, sm);
    forall i | 0 <= i < |ms| && ms[i].target.Some? ensures P.LengthAgrees(dict, ms[i], words[i]) {
      assert WordAgrees(dict, words[i]);
      assert ms[i].target == Target(Resolve(dict, words[i]));
    }
  }

  /** A mapping is reserved for each slot, and one even if there is none. */
  lemma SomeMappings(pdos: seq<Pdo>)
    ensures MaxMappings(pdos) > 0
  {
  }

  /** One direction: a dictionary whose sizes agree. */
  lemma DirectionRoundTrip(dict: seq<Object>, sm: u16, pdos: seq<Pdo>, ms: seq<Mapping>, store: P.Store, other: P.Store,
                           image: seq<bool>, words: nat, r: Ref)
    requires ValidDict(dict) && SizesAgree(dict, sm, pdos) && ms == SizeOf(dict, sm, MaxMappings(pdos)).mappings
    requires P.Spaced(dict, ms) && P.Fits(dict, ms, store, words) && P.Fits(dict, ms, other, words)
    requires |image| == 64 * words && r in store && r in other
    ensures P.Returns(dict, ms, store, other, image, words, r, 8 * TotalBytes(pdos))
  {
    SomeMappings(pdos);
    LengthsFollow(dict, sm, pdos, ms);
    P.MappedRoundTrip(dict, sm, MaxMappings(pdos), ms, store, other, image, words, r);
    WholeReach(dict, ms, Words(dict, sm), TotalBytes(pdos));
  }

  lemma WholeReach(dict: seq<Object>, ms: seq<Mapping>, words: seq<u32>, bytes: nat)
    requires Offset(words) == 8 * bytes
    ensures P.Reach(dict, ms, words) == 8 * bytes
  {
  }

  /**
   From the description to the process image: for every clean description that the generator accepts, in
   either direction, an entry that the emitted mapping names comes back through the image exactly when
   its mapped bits carry its value, if the entries are spaced; all other storage stays as it was, and no
   bit past the bytes that the generator counted is touched.
   */
  lemma GeneratedRoundTrip(c: Config, objs: seq<Obj>, rx: seq<Pdo>, tx: seq<Pdo>, dict: seq<Object>, sm: u16,
                           pdos: seq<Pdo>, ms: seq<Mapping>, store: P.Store, other: P.Store, image: seq<bool>,
                           words: nat, r: Ref)
    requires Accepted(c, objs, rx, tx) && Clean(objs, rx, tx) && dict == ObjectList(objs, rx, tx) && ValidDict(dict)
    requires (sm == RxAssign && pdos == rx) || (sm == TxAssign && pdos == tx)
    requires SizeOf(dict, sm, MaxMappings(pdos)).Image? && ms == SizeOf(dict, sm, MaxMappings(pdos)).mappings
    requires P.Spaced(dict, ms) && P.Fits(dict, ms, store, words) && P.Fits(dict, ms, other, words)
    requires |image| == 64 * words && r in store && r in other
    ensures P.Returns(dict, ms, store, other, image, words, r, 8 * TotalBytes(pdos))
  {
    Agreement(c, objs, rx, tx);
    DirectionRoundTrip(dict, sm, pdos, ms, store, other, image, words, r);
  }
}
