/** The object dictionary SDOobjects and its two searches. */
module Dictionary {
  import opened Base

  /** One entry (_objd): value holds the low 32 bits its storage or its constant reads as. */
  datatype Entry = Entry(subindex: u16, datatype_: u16, bitlength: u32, flags: u16, value: u32, stored: bool)

  /** One object (_objectlist) with its entry table. */
  datatype Object = Object(index: u16, objtype: u16, maxsub: u8, entries: seq<Entry>)

  const SentinelIndex: u16 := 0xFFFF

  /** What the stack relies on: indexes ascend up to the sentinel, and each object's table has
      maxsub + 1 entries with ascending subindexes. */
  ghost predicate ValidDict(dict: seq<Object>) {
    && dict != [] && dict[|dict| - 1].index == SentinelIndex
    && (forall i, j | 0 <= i < j < |dict| :: dict[i].index < dict[j].index)
    && (forall i | 0 <= i < |dict| - 1 :: ValidObject(dict[i]))
  }

  ghost predicate ValidObject(o: Object) {
    && |o.entries| > o.maxsub
    && forall i, j | 0 <= i < j < |o.entries| :: o.entries[i].subindex < o.entries[j].subindex
  }

  /** The position of the object with an index, from position n on. */
  function FindFrom(dict: seq<Object>, index: u16, n: nat): (r: Option<nat>)
    ensures r.Some? ==> n <= r.value < |dict| && dict[r.value].index == index
    ensures r.None? ==> forall i | n <= i < |dict| :: dict[i].index != index
    decreases |dict| - n
  {
    if n >= |dict| then None
    else if dict[n].index == index then Some(n)
    else FindFrom(dict, index, n + 1)
  }

  function Find(dict: seq<Object>, index: u16): Option<nat> { FindFrom(dict, index, 0) }

  /** The position of the entry with a subindex among the entries up to maxsub. */
  function FindSubFrom(o: Object, subindex: u8, n: nat): (r: Option<nat>)
    requires |o.entries| > o.maxsub
    ensures r.Some? ==> n <= r.value <= o.maxsub && o.entries[r.value].subindex == subindex
    ensures r.None? ==> forall i | n <= i <= o.maxsub :: o.entries[i].subindex != subindex
    decreases o.maxsub + 1 - n
  {
    if n > o.maxsub then None
    else if o.entries[n].subindex == subindex then Some(n)
    else FindSubFrom(o, subindex, n + 1)
  }

  function FindSub(o: Object, subindex: u8): Option<nat>
    requires |o.entries| > o.maxsub
  {
    FindSubFrom(o, subindex, 0)
  }

  /** SDO_findobject: the linear scan for the first index that is not smaller. */
  method FindObject(dict: seq<Object>, index: u16) returns (r: Option<nat>)
    requires ValidDict(dict)
    ensures r == Find(dict, index)
    ensures r.Some? && index != SentinelIndex ==> r.value < |dict| - 1
  {
    var n := 0;
    while dict[n].index < index
      invariant 0 <= n < |dict|
      invariant forall i | 0 <= i < n :: dict[i].index < index
      decreases |dict| - n
    {
      n := n + 1;
    }
    if dict[n].index != index {
      return None;
    }
    return Some(n);
  }

  /** Looking up the sentinel's own index finds the sentinel; no other lookup does. */
  lemma FindsSentinelIff(dict: seq<Object>, index: u16)
    requires ValidDict(dict)
    ensures Find(dict, index) == Some(|dict| - 1) <==> index == SentinelIndex
  {
  }

  /** SDO_findsubindex: the dense guess first, then the scan. */
  method FindSubindex(o: Object, subindex: u8) returns (r: Option<nat>)
    requires ValidObject(o)
    ensures r == FindSub(o, subindex)
  {
    if subindex <= o.maxsub && o.entries[subindex].subindex == subindex {
      return Some(subindex);
    }
    var n := 0;
    while o.entries[n].subindex < subindex && n < o.maxsub
      invariant 0 <= n <= o.maxsub
      invariant forall i | 0 <= i < n :: o.entries[i].subindex < subindex
    {
      n := n + 1;
    }
    if o.entries[n].subindex != subindex {
      return None;
    }
    return Some(n);
  }

  /** In a dense table the subindex is the position. */
  predicate Dense(o: Object) {
    |o.entries| == o.maxsub + 1 && forall i | 0 <= i < |o.entries| :: o.entries[i].subindex == i
  }
}
