/** sizeOfPDO: the mapping table of one SyncManager and the size of its process image. */
module PdoMap {
  import opened Base
  import opened Dictionary

  const RxAssign: u16 := 0x1C12
  const TxAssign: u16 := 0x1C13

  /** A mapped entry: which entry of which object, or nothing for padding, and its bit offset. */
  datatype Ref = Ref(obj: nat, entry: nat)
  datatype Mapping = Mapping(target: Option<Ref>, offset: nat)

  /** A mapping word names an index, a subindex and a length in bits. */
  function WordIndex(w: u32): u16 { w / 0x1_0000 }

  function WordSub(w: u32): u8 { w / 0x100 % 0x100 }

  function WordBits(w: u32): u8 { w % 0x100 }

  /** The number of entries that sub 0 of an object announces, cut to 8 bits. */
  function Value8(o: Object): u8 {
    if o.entries == [] then 0 else o.entries[0].value % 0x100
  }

  /** The value entry c of an object reads as. */
  function ValueAt(o: Object, c: nat): u32 {
    if c < |o.entries| then o.entries[c].value else 0
  }

  /** A table sizeOfPDO can walk: as long as its sub 0 says, which is below 255. */
  predicate Walkable(o: Object) {
    o.entries != [] && Value8(o) < 255 && Value8(o) < |o.entries|
  }

  /** The mapping words of one PDO. */
  function PdoWords(o: Object, count: nat): (r: seq<u32>)
    ensures |r| == count
  {
    seq(count, c requires 0 <= c < count => ValueAt(o, c + 1))
  }

  /** The object that entry k of an assignment names; the sentinel is not one. */
  function Assigned(dict: seq<Object>, assign: Object, k: nat): Option<Object> {
    match Find(dict, ValueAt(assign, k) % 0x1_0000)
    case Some(n) => if n < |dict| - 1 then Some(dict[n]) else None
    case None => None
  }

  /** The mapping words of the first k assigned PDOs; a PDO that does not exist has none. */
  function AssignedWords(dict: seq<Object>, assign: Object, k: nat): seq<u32> {
    if k == 0 then []
    else
      AssignedWords(dict, assign, k - 1)
      + match Assigned(dict, assign, k)
        case Some(pdo) => PdoWords(pdo, Value8(pdo))
        case None => []
  }

  /** The mapping words of a SyncManager, in order. */
  function Words(dict: seq<Object>, sm: u16): seq<u32> {
    match Find(dict, sm)
    case Some(n) => AssignedWords(dict, dict[n], Value8(dict[n]))
    case None => []
  }

  /** The running sum of the mapped lengths. */
  function Offset(words: seq<u32>): nat {
    if words == [] then 0 else Offset(words[..|words| - 1]) + WordBits(words[|words| - 1])
  }

  datatype Resolution = Padding | Found(ref: Ref) | Missing

  /** The entry a mapping word names. */
  function Resolve(dict: seq<Object>, w: u32): Resolution
    requires forall i | 0 <= i < |dict| - 1 :: |dict[i].entries| > dict[i].maxsub
  {
    if WordIndex(w) == 0 && WordSub(w) == 0 then Padding
    else
      match Find(dict, WordIndex(w))
      case None => Missing
      case Some(n) =>
        if n >= |dict| - 1 then Missing
        else
          match FindSub(dict[n], WordSub(w))
          case None => Missing
          case Some(s) => Found(Ref(n, s))
  }

  function Target(r: Resolution): Option<Ref> { if r.Found? then Some(r.ref) else None }

  /** The table for a sequence of mapping words. */
  function Table(dict: seq<Object>, words: seq<u32>): seq<Mapping>
    requires forall i | 0 <= i < |dict| - 1 :: |dict[i].entries| > dict[i].maxsub
  {
    seq(|words|, i requires 0 <= i < |words| => Mapping(Target(Resolve(dict, words[i])), Offset(words[..i])))
  }

  /** Every word names an entry or padding. */
  predicate AllResolve(dict: seq<Object>, words: seq<u32>)
    requires forall i | 0 <= i < |dict| - 1 :: |dict[i].entries| > dict[i].maxsub
  {
    forall i | 0 <= i < |words| :: Resolve(dict, words[i]) != Missing
  }

  /** What sizeOfPDO needs of a dictionary, beyond its order: that the tables it walks end before 255,
      and that no PDO is assigned or mapped under the sentinel's index. */
  ghost predicate Mappable(dict: seq<Object>, sm: u16) {
    && ValidDict(dict) && sm != SentinelIndex
    && (Find(dict, sm).Some? ==> Assignment(dict, dict[Find(dict, sm).value]))
  }

  ghost predicate Assignment(dict: seq<Object>, assign: Object) {
    Walkable(assign) && forall k: nat | 0 < k <= Value8(assign) :: AssignsPdo(dict, assign, k)
  }

  ghost predicate AssignsPdo(dict: seq<Object>, assign: Object, k: nat) {
    && ValueAt(assign, k) % 0x1_0000 != SentinelIndex
    && (Assigned(dict, assign, k).Some? ==> MapsObjects(Assigned(dict, assign, k).value))
  }

  ghost predicate MapsObjects(pdo: Object) {
    Walkable(pdo) && forall c | 0 < c <= Value8(pdo) :: WordIndex(ValueAt(pdo, c)) != SentinelIndex
  }

  /** The walk's position: the words before it are in the table. */
  ghost predicate Filled(dict: seq<Object>, mappings: seq<Mapping>, words: seq<u32>, maxMappings: nat, offset: nat)
    requires ValidDict(dict)
  {
    && offset == Offset(words)
    && (maxMappings > 0 ==> |words| <= maxMappings && AllResolve(dict, words) && mappings == Table(dict, words))
  }

  /** How the walk over some words went: they are in the table, or it stopped because they are too many
      or one names no entry. */
  ghost predicate Walked(dict: seq<Object>, words: seq<u32>, maxMappings: nat, ok: bool, mappings: seq<Mapping>,
                         offset: nat)
    requires ValidDict(dict)
  {
    if ok then Filled(dict, mappings, words, maxMappings, offset)
    else maxMappings > 0 && (|words| > maxMappings || !AllResolve(dict, words))
  }

  lemma TableSnoc(dict: seq<Object>, words: seq<u32>, w: u32)
    requires ValidDict(dict)
    ensures Table(dict, words + [w]) == Table(dict, words) + [Mapping(Target(Resolve(dict, w)), Offset(words))]
    ensures Offset(words + [w]) == Offset(words) + WordBits(w)
    ensures AllResolve(dict, words + [w]) <==> AllResolve(dict, words) && Resolve(dict, w) != Missing
  {
    var more := words + [w];
    assert more[..|words|] == words && more[|words|] == w;
    assert forall i | 0 <= i < |words| :: more[..i] == words[..i] && more[i] == words[i];
  }

  /** One mapping word: its entry is looked up and recorded, unless the table is full or the entry
      does not exist. */
  method MapWord(dict: seq<Object>, w: u32, mappings: seq<Mapping>, maxMappings: nat, offset: nat)
    returns (ok: bool, more: seq<Mapping>)
    requires ValidDict(dict) && WordIndex(w) != SentinelIndex && maxMappings > 0
    ensures ok <==> |mappings| != maxMappings && Resolve(dict, w) != Missing
    ensures ok ==> more == mappings + [Mapping(Target(Resolve(dict, w)), offset)]
  {
    more := mappings;
    if |mappings| == maxMappings {
      return false, more;
    }
    var target := None;
    if !(WordIndex(w) == 0 && WordSub(w) == 0) {
      var n := FindObject(dict, WordIndex(w));
      if n.None? {
        return false, more;
      }
      var s := FindSubindex(dict[n.value], WordSub(w));
      if s.None? {
        return false, more;
      }
      target := Some(Ref(n.value, s.value));
    }
    return true, mappings + [Mapping(target, offset)];
  }

  /** The walk over the entries of one PDO. */
  method MapPdo(dict: seq<Object>, pdo: Object, mappings: seq<Mapping>, maxMappings: nat, offset: nat,
                ghost words: seq<u32>)
    returns (ok: bool, more: seq<Mapping>, end: nat)
    requires ValidDict(dict) && MapsObjects(pdo) && Filled(dict, mappings, words, maxMappings, offset)
    ensures Walked(dict, words + PdoWords(pdo, Value8(pdo)), maxMappings, ok, more, end)
  {
    ok, more, end := true, mappings, offset;
    var maxsub, c := Value8(pdo), 1;
    assert words + PdoWords(pdo, 0) == words;
    while c <= maxsub
      invariant 1 <= c <= maxsub + 1
      invariant Filled(dict, more, words + PdoWords(pdo, c - 1), maxMappings, end)
    {
      OneMoreWord(words, pdo, c);
      assert WordIndex(ValueAt(pdo, c)) != SentinelIndex;
      ok, more, end := MapEntry(dict, pdo.entries[c].value, more, maxMappings, end, words + PdoWords(pdo, c - 1));
      if !ok {
        PrefixFails(dict, words, pdo, c, maxMappings);
        return;
      }
      c := c + 1;
    }
  }

  /** One entry of a PDO: the table grows if there is one, and so does the offset. */
  method MapEntry(dict: seq<Object>, value: u32, mappings: seq<Mapping>, maxMappings: nat, offset: nat,
                  ghost before: seq<u32>)
    returns (ok: bool, more: seq<Mapping>, end: nat)
    requires ValidDict(dict) && WordIndex(value) != SentinelIndex && Filled(dict, mappings, before, maxMappings, offset)
    ensures Walked(dict, before + [value], maxMappings, ok, more, end)
  {
    ok, more, end := true, mappings, offset;
    TableSnoc(dict, before, value);
    if maxMappings > 0 {
      ok, more := MapWord(dict, value, mappings, maxMappings, offset);
      if !ok {
        return;
      }
    }
    end := offset + WordBits(value);
  }

  lemma OneMoreWord(words: seq<u32>, pdo: Object, c: nat)
    requires Walkable(pdo) && 1 <= c <= Value8(pdo)
    ensures words + PdoWords(pdo, c) == words + PdoWords(pdo, c - 1) + [pdo.entries[c].value]
  {
    assert PdoWords(pdo, c) == PdoWords(pdo, c - 1) + [pdo.entries[c].value];
  }

  /** A prefix that is too long or does not resolve condemns the whole. */
  lemma PrefixFails(dict: seq<Object>, words: seq<u32>, pdo: Object, c: nat, maxMappings: nat)
    requires ValidDict(dict) && Walkable(pdo) && c <= Value8(pdo)
    requires var some := words + PdoWords(pdo, c); |some| > maxMappings || !AllResolve(dict, some)
    ensures var all := words + PdoWords(pdo, Value8(pdo)); |all| > maxMappings || !AllResolve(dict, all)
  {
    var some, all := words + PdoWords(pdo, c), words + PdoWords(pdo, Value8(pdo));
    assert forall i | 0 <= i < |some| :: some[i] == all[i];
  }

  /** The three outcomes of sizeOfPDO: nothing assigned under this index, a mapping that is too
      long or names an entry that does not exist, or a table and its size in bytes. */
  datatype Sized = Unassigned | Invalid | Image(size: u16, mappings: seq<Mapping>)

  function SizeOf(dict: seq<Object>, sm: u16, maxMappings: nat): Sized
    requires forall i | 0 <= i < |dict| - 1 :: |dict[i].entries| > dict[i].maxsub
  {
    if (sm != RxAssign && sm != TxAssign) || Find(dict, sm).None? then Unassigned
    else ImageOf(dict, Words(dict, sm), maxMappings)
  }

  function ImageOf(dict: seq<Object>, words: seq<u32>, maxMappings: nat): Sized
    requires forall i | 0 <= i < |dict| - 1 :: |dict[i].entries| > dict[i].maxsub
  {
    if maxMappings > 0 && (|words| > maxMappings || !AllResolve(dict, words)) then Invalid
    else Image(InBytes(Offset(words)), if maxMappings > 0 then Table(dict, words) else [])
  }

  /** Whole bytes, in 16 bits. */
  function InBytes(bits: nat): u16 { (bits + 7) / 8 % 0x1_0000 }

  /** What sizeOfPDO writes to nmappings. */
  function Mapped(r: Sized, before: int): int {
    match r
    case Unassigned => before
    case Invalid => -1
    case Image(_, mappings) => |mappings|
  }

  /** How the walk over the first k assigned PDOs went; if it stopped, it stopped for good. */
  ghost predicate WalkedPdos(dict: seq<Object>, assign: Object, k: nat, maxMappings: nat, ok: bool,
                             mappings: seq<Mapping>, offset: nat)
    requires ValidDict(dict)
  {
    Walked(dict, AssignedWords(dict, assign, if ok then k else Value8(assign)), maxMappings, ok, mappings, offset)
  }

  lemma NothingFilled(dict: seq<Object>, assign: Object, maxMappings: nat)
    requires ValidDict(dict)
    ensures WalkedPdos(dict, assign, 0, maxMappings, true, [], 0)
  {
    assert Table(dict, []) == [];
  }

  /** The walk over the assigned PDOs. */
  method MapAssigned(dict: seq<Object>, assign: Object, maxMappings: nat)
    returns (ok: bool, mappings: seq<Mapping>, offset: nat)
    requires ValidDict(dict) && Assignment(dict, assign)
    ensures WalkedPdos(dict, assign, Value8(assign), maxMappings, ok, mappings, offset)
  {
    ok, mappings, offset := true, [], 0;
    NothingFilled(dict, assign, maxMappings);
    var si, done := Value8(assign), 0;
    while done < si
      invariant done <= si && ok
      invariant WalkedPdos(dict, assign, done, maxMappings, true, mappings, offset)
    {
      ok, mappings, offset := MapNext(dict, assign, done + 1, mappings, maxMappings, offset);
      if !ok {
        StoppedForGood(dict, assign, done, si, maxMappings, mappings, offset);
        return;
      }
      done := done + 1;
    }
  }

  lemma StoppedForGood(dict: seq<Object>, assign: Object, k: nat, m: nat, maxMappings: nat, mappings: seq<Mapping>,
                       offset: nat)
    requires ValidDict(dict) && WalkedPdos(dict, assign, k, maxMappings, false, mappings, offset)
    ensures WalkedPdos(dict, assign, m, maxMappings, false, mappings, offset)
  {
  }

  /** One assigned PDO; one that does not exist is passed over. */
  method MapNext(dict: seq<Object>, assign: Object, sic: nat, mappings: seq<Mapping>, maxMappings: nat, offset: nat)
    returns (ok: bool, more: seq<Mapping>, end: nat)
    requires ValidDict(dict) && Assignment(dict, assign) && 1 <= sic <= Value8(assign)
    requires WalkedPdos(dict, assign, sic - 1, maxMappings, true, mappings, offset)
    ensures WalkedPdos(dict, assign, sic, maxMappings, ok, more, end)
    ensures !ok ==> WalkedPdos(dict, assign, sic - 1, maxMappings, ok, more, end)
  {
    ok, more, end := true, mappings, offset;
    assert AssignsPdo(dict, assign, sic);
    var pdo := FindObject(dict, assign.entries[sic].value % 0x1_0000);
    ghost var words := AssignedWords(dict, assign, sic - 1);
    if pdo.Some? {
      assert Assigned(dict, assign, sic) == Some(dict[pdo.value]);
      assert MapsObjects(dict[pdo.value]);
      ok, more, end := MapPdo(dict, dict[pdo.value], mappings, maxMappings, offset, words);
      if !ok {
        FailsEarly(dict, assign, sic, Value8(assign), maxMappings, more, end);
      }
    } else {
      assert AssignedWords(dict, assign, sic) == words;
    }
  }

  /** What sizeOfPDO returns and writes, for each outcome. */
  predicate Returns(r: Sized, before: int, size: u16, nmappings: int, mappings: seq<Mapping>) {
    && nmappings == Mapped(r, before)
    && (if r.Image? then r == Image(size, mappings) else size == 0 && mappings == [])
  }

  /** sizeOfPDO from the assignment object on. */
  method SizeAssigned(dict: seq<Object>, assign: Object, maxMappings: nat)
    returns (size: u16, nmappings: int, mappings: seq<Mapping>)
    requires ValidDict(dict) && Assignment(dict, assign)
    ensures Returns(ImageOf(dict, AssignedWords(dict, assign, Value8(assign)), maxMappings), 0, size, nmappings,
                    mappings)
  {
    var ok, table, offset := MapAssigned(dict, assign, maxMappings);
    if !ok {
      return 0, -1, [];
    }
    SizeWhenFilled(dict, AssignedWords(dict, assign, Value8(assign)), maxMappings, table, offset);
    mappings := if maxMappings > 0 then table else [];
    nmappings := |mappings|;
    size := InBytes(offset);
  }

  /** sizeOfPDO. */
  method SizeOfPdo(dict: seq<Object>, sm: u16, maxMappings: nat, before: int)
    returns (size: u16, nmappings: int, mappings: seq<Mapping>)
    requires Mappable(dict, sm)
    ensures Returns(SizeOf(dict, sm, maxMappings), before, size, nmappings, mappings)
  {
    if sm != RxAssign && sm != TxAssign {
      return 0, before, [];
    }
    var n := FindObject(dict, sm);
    if n.None? {
      return 0, before, [];
    }
    size, nmappings, mappings := SizeAssigned(dict, dict[n.value], maxMappings);
    assert SizeOf(dict, sm, maxMappings) != Unassigned;
  }

  lemma SizeWhenFilled(dict: seq<Object>, words: seq<u32>, maxMappings: nat, table: seq<Mapping>, offset: nat)
    requires ValidDict(dict) && Filled(dict, table, words, maxMappings, offset)
    ensures ImageOf(dict, words, maxMappings) == Image(InBytes(offset), if maxMappings > 0 then table else [])
  {
  }

  /** The words of fewer PDOs are a prefix of those of more. */
  lemma {:induction false} WordsGrow(dict: seq<Object>, assign: Object, k: nat, m: nat)
    requires k <= m
    ensures AssignedWords(dict, assign, k) <= AssignedWords(dict, assign, m)
    decreases m - k
  {
    if k < m {
      WordsGrow(dict, assign, k + 1, m);
    }
  }

  lemma FailsEarly(dict: seq<Object>, assign: Object, k: nat, m: nat, maxMappings: nat, mappings: seq<Mapping>,
                   offset: nat)
    requires ValidDict(dict) && k <= m
    requires Walked(dict, AssignedWords(dict, assign, k), maxMappings, false, mappings, offset)
    ensures Walked(dict, AssignedWords(dict, assign, m), maxMappings, false, mappings, offset)
  {
    WordsGrow(dict, assign, k, m);
    var some, all := AssignedWords(dict, assign, k), AssignedWords(dict, assign, m);
    assert forall i | 0 <= i < |some| :: some[i] == all[i];
  }

  // ---------------------------------------------------------------- the image is tiled

  lemma {:induction false} OffsetMonotone(words: seq<u32>, i: nat, j: nat)
    requires i <= j <= |words|
    ensures Offset(words[..i]) <= Offset(words[..j])
    decreases j - i
  {
    if i < j {
      OffsetMonotone(words, i + 1, j);
      assert words[..i + 1][..i] == words[..i];
    }
  }

  lemma OffsetNext(words: seq<u32>, i: nat)
    requires i < |words|
    ensures Offset(words[..i + 1]) == Offset(words[..i]) + WordBits(words[i])
    ensures forall j | i < j <= |words| :: Offset(words[..i + 1]) <= Offset(words[..j])
  {
    assert words[..i + 1][..i] == words[..i];
    forall j | i < j <= |words| ensures Offset(words[..i + 1]) <= Offset(words[..j]) {
      OffsetMonotone(words, i + 1, j);
    }
  }

  /** The interval of the image a mapping word takes. */
  predicate Occupies(m: Mapping, w: u32, from: nat, to: nat) {
    m.offset == from && m.offset + WordBits(w) == to
  }

  /** Where the mapped words end: 0, then one end for each word. */
  function Ends(words: seq<u32>): (r: seq<nat>)
    ensures |r| == |words| + 1
  {
    seq(|words| + 1, i requires 0 <= i <= |words| => Offset(words[..i]))
  }

  lemma EndsAscend(words: seq<u32>)
    ensures Ends(words)[0] == 0 && Ends(words)[|words|] == Offset(words)
    ensures forall i, j | 0 <= i < j <= |words| :: Ends(words)[i] <= Ends(words)[j]
  {
    forall i, j | 0 <= i < j <= |words| ensures Ends(words)[i] <= Ends(words)[j] {
      OffsetMonotone(words, i, j);
    }
    assert words[..|words|] == words;
  }

  lemma TableTiles(dict: seq<Object>, words: seq<u32>)
    requires ValidDict(dict)
    ensures |Table(dict, words)| == |words|
    ensures forall i | 0 <= i < |words| :: Occupies(Table(dict, words)[i], words[i], Ends(words)[i], Ends(words)[i + 1])
  {
    forall i | 0 <= i < |words|
      ensures Occupies(Table(dict, words)[i], words[i], Ends(words)[i], Ends(words)[i + 1])
    {
      OffsetNext(words, i);
    }
  }

  /**
   The intervals of a mapping tile the image: the first starts at 0, each one starts where the one
   before ends, and the last ends at the total; so they are disjoint and cover the image without
   gap. The size is the total in whole bytes, cut to 16 bits.
   */
  lemma Tiles(dict: seq<Object>, sm: u16, maxMappings: nat)
    requires ValidDict(dict) && maxMappings > 0 && SizeOf(dict, sm, maxMappings).Image?
    ensures var r := SizeOf(dict, sm, maxMappings);
            var words := Words(dict, sm);
            var ends := Ends(words);
            && |r.mappings| == |words| <= maxMappings && ends[0] == 0
            && (forall i | 0 <= i < |words| :: Occupies(r.mappings[i], words[i], ends[i], ends[i + 1]))
            && (forall i, j | 0 <= i < j <= |words| :: ends[i] <= ends[j])
            && ends[|words|] == Offset(words) && r.size == InBytes(Offset(words))
  {
    EndsAscend(Words(dict, sm));
    TableTiles(dict, Words(dict, sm));
  }

  /** Every entry of the table is the one its mapping word names, by index and by subindex. */
  lemma NamesEntries(dict: seq<Object>, sm: u16, maxMappings: nat, i: nat)
    requires ValidDict(dict) && maxMappings > 0 && SizeOf(dict, sm, maxMappings).Image? && i < |Words(dict, sm)|
    ensures var w := Words(dict, sm)[i];
            var m := SizeOf(dict, sm, maxMappings).mappings[i];
            && (m.target.None? <==> WordIndex(w) == 0 && WordSub(w) == 0)
            && (m.target.Some? ==>
                  var Ref(n, s) := m.target.value;
                  && n < |dict| - 1 && s < |dict[n].entries|
                  && dict[n].index == WordIndex(w) && dict[n].entries[s].subindex == WordSub(w))
  {
    assert Resolve(dict, Words(dict, sm)[i]) != Missing;
  }
}
