/**
 The bit slices of the process image (COE_bitsliceGet and COE_bitsliceSet): a slice of up to 64 bits
 at any bit offset, moved with shifts and masks on 64-bit words, over two words where it straddles.
 Proved to be the plain slice of the image's bits.
 */
module BitSlice {
  import opened Base

  function Zero(): seq<bool> { seq(64, i => false) }

  /** A uint64_t, least significant bit first. */
  type Word = w: seq<bool> | |w| == 64 witness Zero()

  function One(): Word { seq(64, i => i == 0) }

  /** UINT64_MAX */
  function AllOnes(): Word { seq(64, i => true) }

  function And(a: Word, b: Word): Word { seq(64, i requires 0 <= i < 64 => a[i] && b[i]) }

  function Or(a: Word, b: Word): Word { seq(64, i requires 0 <= i < 64 => a[i] || b[i]) }

  function Not(a: Word): Word { seq(64, i requires 0 <= i < 64 => !a[i]) }

  function Shl(a: Word, k: nat): Word
    requires k < 64
  {
    seq(64, i requires 0 <= i < 64 => i >= k && a[i - k])
  }

  function Shr(a: Word, k: nat): Word
    requires k < 64
  {
    seq(64, i requires 0 <= i < 64 => i + k < 64 && a[i + k])
  }

  predicate LowerBitsClear(a: Word, i: nat)
    requires i <= 64
  {
    forall j | 0 <= j < i :: !a[j]
  }

  /** Subtracting 1: the borrow reaches a bit when all lower bits are 0. */
  function Minus1(a: Word): Word {
    seq(64, i requires 0 <= i < 64 => if LowerBitsClear(a, i) then !a[i] else a[i])
  }

  /** (1 << length) - 1, or all ones for 64. */
  function Mask(length: nat): Word
    requires length <= 64
  {
    if length == 64 then AllOnes() else Minus1(Shl(One(), length))
  }

  /** The mask has exactly its low bits set. */
  lemma MaskBits(length: nat)
    requires length <= 64
    ensures forall i | 0 <= i < 64 :: Mask(length)[i] == (i < length)
  {
    if length < 64 {
      var one := Shl(One(), length);
      forall i | 0 <= i < 64 ensures Mask(length)[i] == (i < length) {
        assert i > length ==> one[length];
        assert forall j | 0 <= j < 64 :: one[j] == (j == length);
      }
    }
  }

  /** The image's bits in order. */
  function Flat(ws: seq<Word>): (bits: seq<bool>)
    ensures |bits| == 64 * |ws|
  {
    seq(64 * |ws|, p requires 0 <= p < 64 * |ws| => ws[p / 64][p % 64])
  }

  /** The image's bits with some replaced. */
  function Write(bits: seq<bool>, at: nat, value: seq<bool>): seq<bool>
    requires at + |value| <= |bits|
  {
    bits[..at] + value + bits[at + |value|..]
  }

  /** Whether a slice lies in the image; even an empty one needs its word. */
  predicate InImage(words: nat, offset: nat, length: nat) {
    offset < 64 * words && offset + length <= 64 * words && length <= 64
  }

  /** COE_bitsliceGet: the two-word form reads exactly the slice, zero-extended. */
  method Get(bitmap: array<Word>, offset: nat, length: nat) returns (value: Word)
    requires InImage(bitmap.Length, offset, length)
    ensures value[..length] == Flat(bitmap[..])[offset..offset + length]
    ensures forall i | length <= i < 64 :: !value[i]
  {
    var wordOffset, bitOffset := offset / 64, offset % 64;
    var mask := Mask(length);
    var w0 := Shr(bitmap[wordOffset], bitOffset);
    var w1: Word := Zero();
    if length + bitOffset > 64 {
      w1 := Shl(bitmap[wordOffset + 1], 64 - bitOffset);
    }
    value := And(Or(w1, w0), mask);
    MaskBits(length);
    ghost var bits := Flat(bitmap[..]);
    forall i | 0 <= i < length ensures value[i] == bits[offset + i] {
      Locate(offset, i);
    }
    assert forall i | 0 <= i < length :: value[..length][i] == bits[offset..offset + length][i];
  }

  /** Bit i of a slice is in its first word, or in the next. */
  lemma Locate(offset: nat, i: nat)
    requires i < 64
    ensures var w, b := offset / 64, offset % 64;
            if b + i < 64 then (offset + i) / 64 == w && (offset + i) % 64 == b + i
            else (offset + i) / 64 == w + 1 && (offset + i) % 64 == b + i - 64
  {
  }

  /** COE_bitsliceSet: the two-word form changes exactly the slice, to the low bits of the value. */
  method Set(bitmap: array<Word>, offset: nat, length: nat, value: Word)
    requires InImage(bitmap.Length, offset, length)
    modifies bitmap
    ensures Flat(bitmap[..]) == Write(old(Flat(bitmap[..])), offset, value[..length])
  {
    var wordOffset, bitOffset := offset / 64, offset % 64;
    var mask := Mask(length);
    var mask0 := Shl(mask, bitOffset);
    var v0 := Shl(value, bitOffset);
    var w0 := bitmap[wordOffset];
    w0 := Or(And(w0, Not(mask0)), And(v0, mask0));
    bitmap[wordOffset] := w0;
    if length + bitOffset > 64 {
      var mask1 := Shr(mask, 64 - bitOffset);
      var v1 := Shr(value, 64 - bitOffset);
      var w1 := bitmap[wordOffset + 1];
      w1 := Or(And(w1, Not(mask1)), And(v1, mask1));
      bitmap[wordOffset + 1] := w1;
    }
    SliceSet(old(bitmap[..]), bitmap[..], offset, length, value);
  }

  /** The new words of a set slice are the image with that slice replaced. */
  lemma SliceSet(before: seq<Word>, after: seq<Word>, offset: nat, length: nat, value: Word)
    requires |before| == |after| && InImage(|before|, offset, length)
    requires var (w, b, mask) := (offset / 64, offset % 64, Mask(length));
             && after[w] == Or(And(before[w], Not(Shl(mask, b))), And(Shl(value, b), Shl(mask, b)))
             && (length + b > 64 ==>
                   after[w + 1] == Or(And(before[w + 1], Not(Shr(mask, 64 - b))),
                                      And(Shr(value, 64 - b), Shr(mask, 64 - b))))
             && forall j | 0 <= j < |before| && j != w && !(length + b > 64 && j == w + 1) :: after[j] == before[j]
    ensures Flat(after) == Write(Flat(before), offset, value[..length])
  {
    var w, b := offset / 64, offset % 64;
    LowWord(before[w], after[w], b, length, value);
    if length + b > 64 {
      HighWord(before[w + 1], after[w + 1], b, length, value);
    }
    forall p: nat | p < 64 * |before| ensures Flat(after)[p] == Write(Flat(before), offset, value[..length])[p] {
      BitSet(before, after, offset, length, value, p, p / 64, p % 64);
    }
  }

  /** What a word holds after a set, bit by bit; q is where its bit 0 lies relative to the slice. */
  predicate WordSet(before: Word, after: Word, q: int, length: nat, value: Word) {
    forall i | 0 <= i < 64 :: after[i] == if 0 <= q + i < length && q + i < 64 then value[q + i] else before[i]
  }

  lemma BitSet(before: seq<Word>, after: seq<Word>, offset: nat, length: nat, value: Word, p: nat, j: nat, i: nat)
    requires |before| == |after| && InImage(|before|, offset, length) && j < |before|
    requires p == 64 * j + i && i < 64
    requires j == offset / 64 ==> WordSet(before[j], after[j], -(offset % 64), length, value)
    requires j == offset / 64 + 1 && length + offset % 64 > 64 ==>
               WordSet(before[j], after[j], 64 - offset % 64, length, value)
    requires j != offset / 64 && !(length + offset % 64 > 64 && j == offset / 64 + 1) ==> after[j] == before[j]
    ensures Flat(after)[p] == Write(Flat(before), offset, value[..length])[p]
  {
    WordOf(p, offset, length);
    InWord(p, j, i);
    var bits := Flat(before);
    assert bits[p] == before[j][i] && Flat(after)[p] == after[j][i];
    assert Write(bits, offset, value[..length])[p]
           == if offset <= p < offset + length then value[p - offset] else bits[p];
  }

  lemma InWord(p: nat, j: nat, i: nat)
    requires p == 64 * j + i && i < 64
    ensures p / 64 == j && p % 64 == i
  {
  }

  /** The part of a slice in its first word. */
  lemma LowWord(before: Word, after: Word, b: int, length: nat, value: Word)
    requires 0 <= b < 64 && length <= 64
    requires after == Or(And(before, Not(Shl(Mask(length), b))), And(Shl(value, b), Shl(Mask(length), b)))
    ensures WordSet(before, after, -b, length, value)
  {
    MaskBits(length);
  }

  /** The part of a slice in the next word. */
  lemma HighWord(before: Word, after: Word, b: nat, length: nat, value: Word)
    requires 0 < b < 64 && length <= 64
    requires after == Or(And(before, Not(Shr(Mask(length), 64 - b))),
                         And(Shr(value, 64 - b), Shr(Mask(length), 64 - b)))
    ensures WordSet(before, after, 64 - b, length, value)
  {
    MaskBits(length);
  }

  /** Where a bit of the image lies relative to a slice. */
  lemma WordOf(p: nat, offset: nat, length: nat)
    requires length <= 64
    ensures var w, b := offset / 64, offset % 64;
            && (p / 64 == w ==> p % 64 - b == p - offset)
            && (p / 64 == w + 1 ==> p % 64 + 64 - b == p - offset)
            && (offset <= p < offset + length ==> p / 64 == w || p / 64 == w + 1)
            && (offset <= p < offset + length && p / 64 == w + 1 ==> length + b > 64)
  {
  }
}
