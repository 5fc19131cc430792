/**
 The SDO Information list of objects (section 5.6.3 of ETG.1000.6): SDO_getodlist and
 SDO_getodlistcont send all indexes of the dictionary, in as many fragments as the mailbox needs.
 */
module OdListSpec {
  import opened Base
  import opened Dictionary

  const AbortUnsupported: u32 := 0x06010000

  /** The indexes in a fragment, for a mailbox of sml bytes. */
  function Half(sml: u16): nat
    requires sml >= 16
  {
    (sml - 14) / 2
  }

  /** ODLISTSIZE: the bytes of indexes in a fragment. */
  function ListSize(sml: u16): nat
    requires sml >= 16
  {
    2 * Half(sml)
  }

  /** The indexes in the dictionary, without the sentinel. */
  function Indexes(dict: seq<Object>): seq<u16>
    requires dict != []
  {
    seq(|dict| - 1, i requires 0 <= i < |dict| - 1 => dict[i].index)
  }

  /** The list in ESCvar: whether more fragments are due (xoe), frags, fragsleft and entries. */
  datatype Listing = Listing(active: bool, frags: u32, fragsLeft: u32, entries: u16)

  /** An answer: its length in the mailbox header, the fragments it says are left, whether it says that
      it is incomplete, and the words it carries. */
  datatype Answer =
    | Fragment(length: nat, incomplete: bool, left: u16, indexes: seq<u16>)
    | Counts(length: nat, words: seq<u16>)
    | InfoError(code: u32)

  function Fragments(sml: u16, entries: u16): u32
    requires sml >= 16
  {
    (2 * entries + ListSize(sml) - 1) / ListSize(sml)
  }

  /** frags - 1 in 32 bits. */
  function Less1(n: u32): u32 { if n == 0 then 0xFFFF_FFFF else n - 1 }

  /** A request for a list type, with or without a free buffer for the answer. */
  function Start(s: Listing, idx: seq<u16>, sml: u16, kind: u16, claimed: bool): (Listing, Option<Answer>)
    requires sml >= 16 && |idx| < 0x1_0000
  {
    var frags := Fragments(sml, |idx|);
    var t := s.(entries := |idx|);
    if kind > 1 then (t, if claimed then Some(InfoError(AbortUnsupported)) else None)
    else if !claimed then (t, None)
    else if kind == 0 then
      (Listing(false, frags, Less1(frags), |idx|), Some(Counts(0x08 + 10, [|idx|, 0, 0, 0, 0])))
    else
      var n := if frags > 1 then Half(sml) else |idx|;
      (Listing(frags > 1, frags, Less1(frags), |idx|),
       if n <= |idx| then Some(Fragment(0x08 + 2 * n, frags > 1, Less1(frags) % 0x1_0000, idx[..n])) else None)
  }

  /** The next fragment of a list under way. */
  function Continue(s: Listing, idx: seq<u16>, sml: u16, claimed: bool): (Listing, Option<Answer>)
    requires sml >= 16 && |idx| == s.entries && s.active && s.fragsLeft <= s.frags
  {
    if !claimed then (s, None)
    else
      var from := (s.frags - s.fragsLeft) * Half(sml) % 0x1_0000;
      Section(s, idx, sml, from)
  }

  /** The fragment that starts at index from. */
  function Section(s: Listing, idx: seq<u16>, sml: u16, from: nat): (Listing, Option<Answer>)
    requires sml >= 16
  {
    var more := s.fragsLeft > 1;
    var to := if more then (from + Half(sml)) % 0x1_0000 else s.entries;
    (s.(active := more, fragsLeft := Less1(s.fragsLeft)),
     if from <= to <= |idx| then
       Some(Fragment(0x06 + 2 * (to - from), more, Less1(s.fragsLeft) % 0x1_0000, idx[from..to]))
     else None)
  }
}

/** The laws of the list. */
module OdListLaws {
  import opened Base
  import opened Dictionary
  import opened OdListSpec

  /** A request for all objects, then a turn of the CoE process for each of claims, which says whether
      a buffer was free. */
  function Run(s: Listing, idx: seq<u16>, sml: u16, claims: seq<bool>): (Listing, seq<Answer>)
    requires sml >= 16 && |idx| < 0x1_0000
  {
    if claims == [] then
      var (t, m) := Start(s, idx, sml, 1, true);
      (t, if m.Some? then [m.value] else [])
    else
      var (t, ms) := Run(s, idx, sml, claims[..|claims| - 1]);
      if t.active && t.entries == |idx| && t.fragsLeft <= t.frags then
        var (u, m) := Continue(t, idx, sml, claims[|claims| - 1]);
        (u, if m.Some? then ms + [m.value] else ms)
      else (t, ms)
  }

  function Carried(ms: seq<Answer>): seq<u16> {
    if ms == [] then []
    else Carried(ms[..|ms| - 1]) + (if ms[|ms| - 1].Fragment? then ms[|ms| - 1].indexes else [])
  }

  /** Fragment k of frags: it fits the mailbox of sml bytes, counts down, and is incomplete but for the
      last. */
  predicate Counted(m: Answer, k: nat, frags: nat, sml: u16) {
    && m.Fragment? && k < frags
    && m.left == frags - 1 - k && (m.incomplete <==> k + 1 < frags)
    && m.length <= sml - MbxHeaderSize && m.length == (if k == 0 then 8 else 6) + 2 * |m.indexes|
  }

  /** The list after |ms| of its fragments. */
  ghost predicate Listed(s: Listing, ms: seq<Answer>, idx: seq<u16>, sml: u16)
    requires sml >= 16 && |idx| < 0x1_0000
  {
    var frags := Fragments(sml, |idx|);
    && 1 <= |ms| <= frags && s.entries == |idx| && s.frags == frags
    && (forall k | 0 <= k < |ms| :: Counted(ms[k], k, frags, sml))
    && (s.active <==> |ms| < frags) && s.fragsLeft == frags - |ms|
    && (s.active ==> |ms| * Half(sml) < |idx| && Carried(ms) == idx[..|ms| * Half(sml)])
    && (!s.active ==> Carried(ms) == idx)
  }

  lemma CarriedSnoc(ms: seq<Answer>, m: Answer)
    requires m.Fragment?
    ensures Carried(ms + [m]) == Carried(ms) + m.indexes
  {
    assert (ms + [m])[..|ms|] == ms;
  }

  /** Division rounding up: the fragments are as many as it takes. */
  lemma Rounding(n: nat, half: nat, frags: nat)
    requires half > 0 && frags == (2 * n + 2 * half - 1) / (2 * half)
    ensures n > 0 ==> (frags - 1) * half < n
    ensures n <= frags * half
    ensures n == 0 <==> frags == 0
  {
    var size := 2 * half;
    assert frags * size <= 2 * n + size - 1 < frags * size + size;
    assert frags * size == 2 * (frags * half);
    assert (frags - 1) * half == frags * half - half;
  }

  lemma MulMonotone(a: int, b: int, c: nat)
    ensures a <= b ==> a * c <= b * c
  {
  }

  /** Where fragment k of a list of n indexes starts and ends. */
  lemma Part(sml: u16, n: u16, k: nat)
    requires sml >= 16 && k < Fragments(sml, n)
    ensures n > 0 && k * Half(sml) < n
    ensures k + 1 < Fragments(sml, n) ==> k * Half(sml) + Half(sml) < n
    ensures k + 1 == Fragments(sml, n) ==> n <= k * Half(sml) + Half(sml)
  {
    var half, frags := Half(sml), Fragments(sml, n);
    Rounding(n, half, frags);
    MulMonotone(k, frags - 1, half);
    MulMonotone(k + 1, frags - 1, half);
    assert (k + 1) * half == k * half + half;
  }

  /** Fragment k starts and ends inside the list, in 16 bits too. */
  lemma PartFits(sml: u16, n: u16, k: nat)
    requires sml >= 16 && k < Fragments(sml, n)
    ensures k * Half(sml) % 0x1_0000 == k * Half(sml) < n
    ensures k + 1 < Fragments(sml, n) ==> k * Half(sml) + Half(sml) < n
  {
    Part(sml, n, k);
    NoWrap(k * Half(sml));
  }

  lemma SomeFragments(sml: u16, n: u16)
    requires sml >= 16
    ensures Fragments(sml, n) == 0 <==> n == 0
  {
    Rounding(n, Half(sml), Fragments(sml, n));
  }

  /** What fragment k carries. */
  function PartOf(idx: seq<u16>, sml: u16, k: nat): seq<u16>
    requires sml >= 16 && |idx| < 0x1_0000 && k < Fragments(sml, |idx|)
  {
    Part(sml, |idx|, k);
    if k + 1 < Fragments(sml, |idx|) then idx[k * Half(sml)..k * Half(sml) + Half(sml)] else idx[k * Half(sml)..]
  }

  lemma OneMore(k: nat, c: nat)
    ensures (k + 1) * c == k * c + c
  {
  }

  lemma TakeNext(idx: seq<u16>, p: nat, q: nat)
    requires p <= q <= |idx|
    ensures idx[..p] + idx[p..q] == idx[..q] && idx[..p] + idx[p..] == idx
  {
  }

  /** What the fragments up to k carry together. */
  lemma Together(idx: seq<u16>, sml: u16, k: nat)
    requires sml >= 16 && |idx| < 0x1_0000 && k < Fragments(sml, |idx|)
    ensures k * Half(sml) <= |idx| && (k + 1) * Half(sml) == k * Half(sml) + Half(sml)
    ensures k + 1 < Fragments(sml, |idx|) ==>
              (k + 1) * Half(sml) < |idx|
              && idx[..k * Half(sml)] + PartOf(idx, sml, k) == idx[..(k + 1) * Half(sml)]
    ensures k + 1 == Fragments(sml, |idx|) ==> idx[..k * Half(sml)] + PartOf(idx, sml, k) == idx
  {
    Part(sml, |idx|, k);
    OneMore(k, Half(sml));
    TakeNext(idx, k * Half(sml), if k + 1 < Fragments(sml, |idx|) then k * Half(sml) + Half(sml) else |idx|);
  }

  lemma StartLists(s: Listing, idx: seq<u16>, sml: u16)
    requires sml >= 16 && 0 < |idx| < 0x1_0000
    ensures var (t, m) := Start(s, idx, sml, 1, true); m.Some? && Listed(t, [m.value], idx, sml)
  {
    SomeFragments(sml, |idx|);
    Part(sml, |idx|, 0);
    Together(idx, sml, 0);
    var (t, m) := Start(s, idx, sml, 1, true);
    assert m.Some? && m.value.indexes == PartOf(idx, sml, 0);
    CarriedSnoc([], m.value);
    assert [] + [m.value] == [m.value];
    Few(sml, |idx|);
  }

  lemma Few(sml: u16, n: u16)
    requires sml >= 16
    ensures Fragments(sml, n) <= n
  {
    var size := ListSize(sml);
    assert size >= 2;
    DivBound(2 * n + size - 1, size, n);
  }

  lemma DivBound(a: nat, b: nat, n: nat)
    requires b >= 2 && a == 2 * n + b - 1
    ensures a / b <= n
  {
    MulMonotone(2, b, n);
    assert (n + 1) * b == n * b + b && b * n == n * b;
    assert a / b * b <= a;
    MulMonotone(n + 1, a / b, b);
  }

  lemma NoWrap(x: nat)
    requires x < 0x1_0000
    ensures x % 0x1_0000 == x
  {
  }

  /** A fragment that is not the last. */
  lemma MoreSection(s: Listing, idx: seq<u16>, sml: u16, from: nat, half: nat)
    requires sml >= 16 && half == Half(sml) && from + half <= |idx| < 0x1_0000 && 1 < s.fragsLeft <= 0x1_0000
    ensures var left := s.fragsLeft - 1;
            Section(s, idx, sml, from)
            == (s.(active := true, fragsLeft := left),
                Some(Fragment(0x06 + 2 * half, true, left, idx[from..from + half])))
  {
    NoWrap(from + half);
    NoWrap(s.fragsLeft - 1);
  }

  /** The last fragment. */
  lemma LastSection(s: Listing, idx: seq<u16>, sml: u16, from: nat)
    requires sml >= 16 && from <= |idx| < 0x1_0000 && s.fragsLeft == 1 && s.entries == |idx|
    ensures Section(s, idx, sml, from)
            == (s.(active := false, fragsLeft := 0), Some(Fragment(0x06 + 2 * (|idx| - from), false, 0, idx[from..])))
  {
    assert idx[from..] == idx[from..|idx|];
  }

  /** The next fragment starts where the ones before it end. */
  lemma NextSection(s: Listing, idx: seq<u16>, sml: u16, k: nat, from: nat)
    requires sml >= 16 && |idx| == s.entries && s.active && s.fragsLeft <= s.frags && s.frags - s.fragsLeft == k
    requires from < 0x1_0000 && from == k * Half(sml)
    ensures Continue(s, idx, sml, true) == Section(s, idx, sml, from)
  {
    NoWrap(from);
  }

  /** The answer of a turn that finds a buffer. */
  lemma Continues(s: Listing, idx: seq<u16>, sml: u16, k: nat)
    requires sml >= 16 && |idx| < 0x1_0000 && k < Fragments(sml, |idx|) && s.active
    requires s.frags == Fragments(sml, |idx|) && s.fragsLeft == s.frags - k && s.entries == |idx|
    ensures s.fragsLeft <= 0x1_0000 && |PartOf(idx, sml, k)| <= Half(sml)
    ensures var left := s.fragsLeft - 1;
            && Continue(s, idx, sml, true).0 == s.(active := left > 0, fragsLeft := left)
            && Continue(s, idx, sml, true).1
            == Some(Fragment(0x06 + 2 * |PartOf(idx, sml, k)|, left > 0, left, PartOf(idx, sml, k)))
  {
    Few(sml, |idx|);
    var from := k * Half(sml);
    PartIs(idx, sml, k, from, Half(sml));
    NextSection(s, idx, sml, k, from);
    SectionCarries(s, idx, sml, from, Half(sml), PartOf(idx, sml, k));
  }

  /** A section of the list: half the indexes of a mailbox, or all that are left. */
  lemma SectionCarries(s: Listing, idx: seq<u16>, sml: u16, from: nat, half: nat, part: seq<u16>)
    requires sml >= 16 && half == Half(sml) && from <= |idx| < 0x1_0000 && s.entries == |idx|
    requires 1 <= s.fragsLeft <= 0x1_0000 && (s.fragsLeft > 1 ==> from + half <= |idx|)
    requires part == if s.fragsLeft > 1 then idx[from..from + half] else idx[from..]
    ensures var left := s.fragsLeft - 1;
            Section(s, idx, sml, from)
            == (s.(active := left > 0, fragsLeft := left), Some(Fragment(0x06 + 2 * |part|, left > 0, left, part)))
  {
    if s.fragsLeft > 1 {
      MoreSection(s, idx, sml, from, half);
    } else {
      LastSection(s, idx, sml, from);
    }
  }

  lemma PartIs(idx: seq<u16>, sml: u16, k: nat, from: nat, half: nat)
    requires sml >= 16 && |idx| < 0x1_0000 && k < Fragments(sml, |idx|) && half == Half(sml) && from == k * half
    ensures from <= |idx| && (k + 1 < Fragments(sml, |idx|) ==> from + half <= |idx|) && |PartOf(idx, sml, k)| <= half
    ensures PartOf(idx, sml, k)
         == if k + 1 < Fragments(sml, |idx|) then idx[from..from + half] else idx[from..]
  {
    Part(sml, |idx|, k);
  }

  lemma ContinueLists(s: Listing, ms: seq<Answer>, idx: seq<u16>, sml: u16)
    requires sml >= 16 && 0 < |idx| < 0x1_0000 && Listed(s, ms, idx, sml) && s.active
    ensures var (t, m) := Continue(s, idx, sml, true); m.Some? && Listed(t, ms + [m.value], idx, sml)
  {
    var k := |ms|;
    Continues(s, idx, sml, k);
    Together(idx, sml, k);
    CarriedSnoc(ms, Continue(s, idx, sml, true).1.value);
  }

  function Granted(claims: seq<bool>): nat {
    if claims == [] then 0 else Granted(claims[..|claims| - 1]) + if claims[|claims| - 1] then 1 else 0
  }

  lemma RunNext(s: Listing, idx: seq<u16>, sml: u16, claims: seq<bool>)
    requires sml >= 16 && 0 < |idx| < 0x1_0000 && claims != []
    requires var (t, ms) := Run(s, idx, sml, claims[..|claims| - 1]); Listed(t, ms, idx, sml)
    ensures var (t, ms) := Run(s, idx, sml, claims[..|claims| - 1]);
            Run(s, idx, sml, claims)
            == if t.active && claims[|claims| - 1] then
                 var (u, m) := Continue(t, idx, sml, true);
                 (u, if m.Some? then ms + [m.value] else ms)
               else (t, ms)
  {
  }

  /**
   The list of any dictionary with an object in it, through any mailbox with room for an index, and
   whichever turns find no buffer. The fragments carry the indexes in order, each exactly once and
   all of them by the last; fragments left counts down to 0; only the last is not incomplete; each
   fits the mailbox. A turn without a buffer neither skips nor repeats: there is one fragment to
   begin with and one for each buffer found, until the list is done.
   */
  lemma {:induction false} ListLaw(s: Listing, idx: seq<u16>, sml: u16, claims: seq<bool>)
    requires sml >= 16 && 0 < |idx| < 0x1_0000
    ensures var (t, ms) := Run(s, idx, sml, claims);
            Listed(t, ms, idx, sml) && |ms| == Min(Granted(claims) + 1, Fragments(sml, |idx|))
  {
    if claims == [] {
      SomeFragments(sml, |idx|);
      StartLists(s, idx, sml);
    } else {
      ListLaw(s, idx, sml, claims[..|claims| - 1]);
      ListNext(s, idx, sml, claims);
    }
  }

  /** One more turn. */
  lemma ListNext(s: Listing, idx: seq<u16>, sml: u16, claims: seq<bool>)
    requires sml >= 16 && 0 < |idx| < 0x1_0000 && claims != []
    requires var before := claims[..|claims| - 1];
             var (t, ms) := Run(s, idx, sml, before);
             Listed(t, ms, idx, sml) && |ms| == Min(Granted(before) + 1, Fragments(sml, |idx|))
    ensures var (t, ms) := Run(s, idx, sml, claims);
            Listed(t, ms, idx, sml) && |ms| == Min(Granted(claims) + 1, Fragments(sml, |idx|))
  {
    var n := |claims| - 1;
    var (t, ms) := Run(s, idx, sml, claims[..n]);
    RunNext(s, idx, sml, claims);
    if t.active && claims[n] {
      ContinueLists(t, ms, idx, sml);
    }
  }

  lemma AtMostOne(a: nat, b: nat)
    requires b > 0 && a < 2 * b
    ensures a / b <= 1
  {
  }

  /** The single fragment of a list says that none is left exactly when the dictionary has an object in
      it: of an empty one, 65535 are said to be left. */
  lemma NoneLeftIff(s: Listing, idx: seq<u16>, sml: u16)
    requires sml >= 16 && |idx| < 0x1_0000 && 2 * |idx| <= ListSize(sml)
    ensures var (t, m) := Start(s, idx, sml, 1, true);
            && m.Some? && !m.value.incomplete && m.value.indexes == idx
            && (m.value.left == 0 <==> idx != [])
            && (m.value.left == 0xFFFF <==> idx == [])
  {
    SomeFragments(sml, |idx|);
    Few(sml, |idx|);
    var frags := Fragments(sml, |idx|);
    assert 2 * |idx| + ListSize(sml) - 1 < 2 * ListSize(sml);
    AtMostOne(2 * |idx| + ListSize(sml) - 1, ListSize(sml));
    assert idx[..|idx|] == idx;
  }

  /**
   A list request by its list type: 0 asks for the five counts, of which the first is that of all objects; 1 for
   the list; every other is refused as unsupported. Without a buffer there is no answer and no list begins.
   In any case the objects are counted anew.
   */
  lemma RequestLaw(s: Listing, idx: seq<u16>, sml: u16, kind: u16, claimed: bool)
    requires sml >= 16 && |idx| < 0x1_0000
    ensures var (t, m) := Start(s, idx, sml, kind, claimed);
            && t.entries == |idx|
            && (!claimed || kind >= 2 ==> t == s.(entries := |idx|))
            && (!claimed ==> m == None)
            && (claimed && kind >= 2 ==> m == Some(InfoError(0x06010000)))
            && (claimed && kind == 0 ==>
                  && m == Some(Counts(18, [|idx|, 0, 0, 0, 0])) && !t.active
                  && t.frags == Fragments(sml, |idx|) && t.fragsLeft == Less1(t.frags))
            && (claimed && kind == 1 ==> m.Some? && m.value.Fragment?)
  {
    if claimed && kind == 1 {
      SomeFragments(sml, |idx|);
      if idx != [] {
        StartLists(s, idx, sml);
      }
    }
  }
}

/** The two handlers over mutable state. */
module OdList {
  import opened Base
  import opened Dictionary
  import opened OdListSpec
  import OdListLaws

  class Server {
    const dict: seq<Object>
    const sml: u16                   // ESC_MBX1_sml
    var listing: bool                // ESCvar.xoe is MBXCOE + MBXODL
    var frags: u32
    var fragsleft: u32
    var entries: u16

    ghost predicate Valid()
      reads this
    {
      && ValidDict(dict) && sml >= 16 && fragsleft < 0x1_0000_0000
      && (listing ==> 0 < fragsleft <= frags && entries == |dict| - 1
                      && frags == Fragments(sml, |dict| - 1))
    }

    ghost function Abs(): Listing
      reads this
    {
      Listing(listing, frags, fragsleft, entries)
    }

    constructor (dict: seq<Object>, sml: u16)
      requires ValidDict(dict) && sml >= 16
      ensures Valid() && !listing && this.dict == dict && this.sml == sml
    {
      this.dict, this.sml := dict, sml;
      listing, frags, fragsleft, entries := false, 0, 0, 0;
    }

    /** The indexes ascend below the sentinel's, so there are fewer than 65536. */
    lemma {:induction false} FewObjects(n: nat)
      requires ValidDict(dict) && n < |dict|
      ensures n <= dict[n].index
    {
      if n > 0 {
        FewObjects(n - 1);
      }
    }

    /** The indexes of the entries from s to n. */
    method Copy(s: nat, n: nat) returns (p: seq<u16>)
      requires ValidDict(dict) && s <= n <= |dict| - 1
      ensures p == Indexes(dict)[s..n]
    {
      p := [];
      var i := s;
      while i < n
        invariant s <= i <= n && p == Indexes(dict)[s..i]
      {
        p := p + [dict[i].index];
        i := i + 1;
      }
    }

    /** SDO_getodlist. */
    method GetOdList(kind: u16, claimed: bool) returns (reply: Option<Answer>)
      requires Valid() && !listing
      modifies this
      ensures Valid() && |Indexes(dict)| < 0x1_0000
      ensures (Abs(), reply) == Start(old(Abs()), Indexes(dict), sml, kind, claimed)
    {
      FewObjects(|dict| - 1);
      var n := 0;
      while dict[n].index != SentinelIndex
        invariant 0 <= n < |dict|
        invariant forall i | 0 <= i < n :: dict[i].index != SentinelIndex
        decreases |dict| - n
      {
        n := n + 1;
      }
      entries := n;
      var count := Fragments(sml, entries);
      if kind > 1 {
        return if claimed then Some(InfoError(AbortUnsupported)) else None;
      }
      if !claimed {
        return None;
      }
      frags := count;
      fragsleft := Less1(count);
      if kind == 0 {
        return Some(Counts(0x08 + 10, [entries, 0, 0, 0, 0]));
      }
      reply := FirstFragment();
    }

    /** The part of SDO_getodlist that answers with indexes. */
    method FirstFragment() returns (reply: Option<Answer>)
      requires ValidDict(dict) && sml >= 16 && entries == |dict| - 1
      requires frags == Fragments(sml, entries) && fragsleft == Less1(frags)
      modifies this`listing
      ensures Valid() && listing == (frags > 1)
      ensures var n := if frags > 1 then Half(sml) else entries as nat;
              n <= |dict| - 1
              && reply == Some(Fragment(0x08 + 2 * n, frags > 1, fragsleft % 0x1_0000, Indexes(dict)[..n]))
    {
      if entries > 0 {
        OdListLaws.SomeFragments(sml, entries);
        OdListLaws.Part(sml, entries, 0);
      }
      var n: nat := entries;
      if frags > 1 {
        n := Half(sml);
      }
      listing := frags > 1;
      var p := Copy(0, n);
      reply := Some(Fragment(0x08 + 2 * n, frags > 1, fragsleft % 0x1_0000, p));
    }

    /** SDO_getodlistcont. */
    method GetOdListCont(claimed: bool) returns (reply: Option<Answer>)
      requires Valid() && listing
      modifies this
      ensures Valid()
      ensures (Abs(), reply) == Continue(old(Abs()), Indexes(dict), sml, claimed)
    {
      if !claimed {
        return None;
      }
      var done := frags - fragsleft;
      OdListLaws.PartFits(sml, entries, done);
      var s := done * Half(sml) % 0x1_0000;
      reply := SendFragment(s);
    }

    /** The fragment of SDO_getodlistcont that starts at index s. */
    method SendFragment(s: nat) returns (reply: Option<Answer>)
      requires Valid() && listing && s <= entries && (fragsleft > 1 ==> s + Half(sml) <= entries)
      modifies `listing, `fragsleft
      ensures Valid()
      ensures (Abs(), reply) == Section(old(Abs()), Indexes(dict), sml, s)
    {
      var n: nat := entries;
      if fragsleft > 1 {
        OdListLaws.NoWrap(s + Half(sml));
        n := (s + Half(sml)) % 0x1_0000;
      } else {
        listing := false;
      }
      fragsleft := Less1(fragsleft);
      var p := Copy(s, n);
      reply := Some(Fragment(0x06 + 2 * (n - s), listing, fragsleft % 0x1_0000, p));
    }
  }
}
