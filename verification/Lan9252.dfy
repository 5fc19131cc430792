/**
 The LAN9252 register access of the Linux spidev port: register reads and writes are split into
 transfers the chip accepts, and process RAM goes through FIFOs of 32-bit words in batches of
 whatever size the chip reports. Proved transparent: the stack sees plain memory.
 */
module Lan9252 {
  import opened Base

  // ---------------------------------------------------------------- register (CSR) access

  datatype Chunk = Chunk(address: nat, size: nat)

  /** csr_chunk_size. */
  function CsrChunkSize(address: nat, len: nat): (size: nat)
    requires len > 0
    ensures 1 <= size <= len
    ensures size == 1 || size == 2 || size == 4
    ensures address % size == 0
  {
    var size := if len > 4 then 4 else len;
    if address % 2 == 1 then 1
    else if address % 4 == 2 then if size % 2 == 1 then 1 else 2
    else if size == 3 then 1
    else size
  }

  /** Four bytes go at once from a multiple of 4 on, if there are as many; two from an even address on, if two are
      left or four do not start there; else one. */
  lemma ChunkSizes(address: nat, len: nat)
    requires len > 0
    ensures CsrChunkSize(address, len) == 4 <==> address % 4 == 0 && len >= 4
    ensures CsrChunkSize(address, len) == 2 <==> address % 2 == 0 && (len == 2 || (len >= 4 && address % 4 == 2))
  {
  }

  /** The transfers cover the range from address on without gap or overlap, each naturally aligned. */
  predicate Tiles(chunks: seq<Chunk>, address: nat, len: nat) {
    if chunks == [] then len == 0
    else
      var c := chunks[0];
      && c.address == address && c.size <= len
      && (c.size == 1 || c.size == 2 || c.size == 4) && c.address % c.size == 0
      && Tiles(chunks[1..], address + c.size, len - c.size)
  }

  lemma {:induction false} TilesSnoc(chunks: seq<Chunk>, address: nat, len: nat, size: nat)
    requires Tiles(chunks, address, len)
    requires size == 1 || size == 2 || size == 4
    requires (address + len) % size == 0
    ensures Tiles(chunks + [Chunk(address + len, size)], address, len + size)
  {
    var more := chunks + [Chunk(address + len, size)];
    if chunks != [] {
      var c := chunks[0];
      TilesSnoc(chunks[1..], address + c.size, len - c.size, size);
      assert more[1..] == chunks[1..] + [Chunk(address + len, size)];
    } else {
      assert more[1..] == [];
    }
  }

  // ---------------------------------------------------------------- process RAM (PRAM) access

  type Word = w: seq<byte> | |w| == 4 witness [0, 0, 0, 0]

  const FifoMax := 31   // ESC_PRAM_CMD_CNT is five bits

  /** pram_fifo_range: the FIFO words to wait for before the next batch. */
  function FifoRange(len: nat, byteOffset: nat, first: nat): nat {
    var bytes := if byteOffset > 0 then len else len + first;
    Min(if bytes % 4 != 0 then bytes / 4 + 1 else bytes / 4, 16)
  }

  /** How many aligned words the bytes from address on touch. */
  function WordsTouched(address: nat, len: nat): nat {
    if len == 0 then 0 else (address + len - 1) / 4 - address / 4 + 1
  }

  /** The batch waited for is what the rest of the transfer touches, at most 16 words: for the
      first batch wherever it starts, later on from a word boundary. */
  lemma FifoRangeMeaning(address: nat, len: nat, done: nat)
    requires len > 0 && (done > 0 ==> (address + done) % 4 == 0)
    ensures FifoRange(len, done, address % 4) == Min(WordsTouched(address + done, len), 16)
  {
    if done == 0 {
      WordsFrom(address / 4, address % 4, len);
    } else {
      WordsFrom((address + done) / 4, 0, len);
    }
  }

  lemma WordsFrom(q: nat, f: nat, len: nat)
    requires f < 4 && len > 0
    ensures WordsTouched(4 * q + f, len) == if (f + len) % 4 != 0 then (f + len) / 4 + 1 else (f + len) / 4
  {
    assert (4 * q + f) / 4 == q;
    assert (4 * q + f + len - 1) / 4 == q + (f + len - 1) / 4;
  }

  /** The memory with some bytes replaced. */
  function Splice(mem: seq<byte>, address: nat, data: seq<byte>): seq<byte>
    requires address + |data| <= |mem|
  {
    mem[..address] + data + mem[address + |data|..]
  }

  /** What the FIFO hands out for a read of a range: its words, of which only the bytes within the
      range are the memory's. */
  ghost predicate Carries(fifo: seq<Word>, mem: seq<byte>, address: nat, len: nat)
    requires address + len <= |mem|
  {
    forall p | address <= p < address + len ::
      var at := p - address / 4 * 4;
      at / 4 < |fifo| && fifo[at / 4][at % 4] == mem[p]
  }

  /** Any count the chip may report once fifoRange words are ready. */
  method WaitFifo(fifoRange: nat) returns (count: nat)
    requires fifoRange <= 16
    ensures fifoRange <= count <= FifoMax
  {
    count :| fifoRange <= count <= FifoMax;
  }

  /** Where a read stands: done bytes are in the buffer, taken from the first words FIFO words. */
  ghost predicate Reading(buf: array<byte>, mem: seq<byte>, address: nat, len: nat, done: nat, words: nat)
    requires address + len <= |mem| && len <= buf.Length
    reads buf
  {
    && done <= len && buf[..done] == mem[address..address + done]
    && (done == 0 ==> words == 0)
    && (0 < done < len ==> address % 4 + done == 4 * words)
  }

  /** The bytes of one FIFO word. */
  method ReadWord(fifo: seq<Word>, ghost mem: seq<byte>, address: nat, buf: array<byte>, len: nat, done: nat,
                  words: nat)
    returns (n: nat)
    requires address + len <= |mem| && len <= buf.Length && Carries(fifo, mem, address, len)
    requires Reading(buf, mem, address, len, done, words) && done < len
    modifies buf
    ensures n > 0 && Reading(buf, mem, address, len, done + n, words + 1)
    ensures buf[len..] == old(buf[len..])
  {
    var from := if done > 0 then 0 else address % 4;
    n := Min(len - done, 4 - from);
    WordBytes(fifo, mem, address, len, done, words, from, n);
    CopyInto(buf, done, fifo[words][from..from + n]);
    assert buf[..done + n] == mem[address..address + done] + mem[address + done..address + done + n];
  }

  /** ESC_read_pram. The words of one batch follow those of the last. */
  method ReadPram(fifo: seq<Word>, ghost mem: seq<byte>, address: nat, buf: array<byte>, len: nat)
    requires address + len <= |mem| && len <= buf.Length && len <= 0xFFFF
    requires Carries(fifo, mem, address, len)
    modifies buf
    ensures buf[..len] == mem[address..address + len]
    ensures buf[len..] == old(buf[len..])
  {
    var done, words := 0, 0;
    while done < len
      invariant 0 <= done && 0 <= words && Reading(buf, mem, address, len, done, words)
      invariant buf[len..] == old(buf[len..])
    {
      var fifoRange := FifoRange(len - done, done, address % 4);
      FifoRangeMeaning(address, len - done, done);
      var count := WaitFifo(fifoRange);
      var i, start := 0, done;
      while i < count && done < len
        invariant 0 <= i && start <= done && (i > 0 ==> done > start)
        invariant 0 <= words && Reading(buf, mem, address, len, done, words)
        invariant buf[len..] == old(buf[len..])
      {
        var n := ReadWord(fifo, mem, address, buf, len, done, words);
        done, words, i := done + n, words + 1, i + 1;
      }
    }
  }

  /** The bytes taken from one FIFO word are the next bytes of the range. */
  lemma WordBytes(fifo: seq<Word>, mem: seq<byte>, address: nat, len: nat, done: nat, word: nat, from: nat, n: nat)
    requires address + len <= |mem| && Carries(fifo, mem, address, len)
    requires done < len && from < 4 && 0 < n == Min(len - done, 4 - from)
    requires done + address % 4 == 4 * word + from
    ensures word < |fifo| && fifo[word][from..from + n] == mem[address + done..address + done + n]
  {
    assert address / 4 * 4 + address % 4 == address;
    var start := address + done;
    var at0 := start - address / 4 * 4;
    assert at0 == 4 * word + from && at0 / 4 == word;
    var b := mem[start];
    assert at0 / 4 < |fifo| && fifo[at0 / 4][at0 % 4] == b;
    forall j | from <= j < from + n ensures fifo[word][j] == mem[start + j - from] {
      var at := start + j - from - address / 4 * 4;
      assert at == 4 * word + j && at / 4 == word && at % 4 == j;
    }
  }

  method CopyInto(a: array<byte>, at: nat, data: seq<byte>)
    requires at + |data| <= a.Length
    modifies a
    ensures a[..] == old(a[..at]) + data + old(a[at + |data|..])
  {
    for i := 0 to |data|
      invariant a[..] == old(a[..at]) + data[..i] + old(a[at + i..])
    {
      a[at + i] := data[i];
    }
  }

  /** The chip as the stack sees it: registers below 0x1000, process RAM above, and the range set up
      for the write FIFO with the words received for it. */
  class Chip {
    var mem: seq<byte>
    var wrAddress: nat
    var wrLen: nat
    var wrWords: nat

    constructor (mem: seq<byte>)
      ensures this.mem == mem && wrLen == 0
    {
      this.mem := mem;
      wrAddress, wrLen, wrWords := 0, 0, 0;
    }

    /** ESC_PRAM_WR_ADDR_LEN_REG and the write command. */
    method SetupWrite(address: nat, len: nat)
      modifies this
      ensures mem == old(mem) && wrAddress == address && wrLen == len && wrWords == 0
    {
      wrAddress, wrLen, wrWords := address, len, 0;
    }

    /** A word written to the FIFO: of its bytes the chip stores those within the range. */
    method PushWord(w: Word)
      requires wrAddress + wrLen <= |mem|
      modifies this
      ensures |mem| == |old(mem)| && wrAddress == old(wrAddress) && wrLen == old(wrLen)
      ensures wrWords == old(wrWords) + 1
      ensures forall p | 0 <= p < |mem| ::
                var at := p - wrAddress / 4 * 4 - 4 * old(wrWords);
                mem[p] == if wrAddress <= p < wrAddress + wrLen && 0 <= at < 4 then w[at] else old(mem)[p]
    {
      var base := wrAddress / 4 * 4 + 4 * wrWords;
      mem := seq(|mem|, p requires 0 <= p < |mem| reads this =>
                   if wrAddress <= p < wrAddress + wrLen && 0 <= p - base < 4 then w[p - base] else mem[p]);
      wrWords := wrWords + 1;
    }
  }

  /** What the memory holds once the first n bytes of the data are stored. */
  ghost predicate StoredUpTo(mem: seq<byte>, before: seq<byte>, address: nat, data: seq<byte>, n: nat)
    requires address + |data| <= |before| && n <= |data|
  {
    && |mem| == |before|
    && forall p | 0 <= p < |mem| ::
         mem[p] == if address <= p < address + n then data[p - address] else before[p]
  }

  /** Where a write stands: done bytes of the data are in the memory, and the words received so
      far reach exactly that far, or beyond the end. */
  ghost predicate Writing(chip: Chip, before: seq<byte>, address: nat, data: seq<byte>, done: nat)
    requires address + |data| <= |before|
    reads chip
  {
    && done <= |data| && chip.wrAddress == address && chip.wrLen == |data|
    && StoredUpTo(chip.mem, before, address, data, done)
    && if done == |data| then done > 0 ==> address % 4 + done <= 4 * chip.wrWords
       else if done == 0 then chip.wrWords == 0
       else address % 4 + done == 4 * chip.wrWords
  }

  /** Some bytes in a word of zeros. */
  function InWord(from: nat, part: seq<byte>): (w: Word)
    requires from + |part| <= 4
    ensures w[from..from + |part|] == part
  {
    [0, 0, 0, 0][..from] + part + [0, 0, 0, 0][from + |part|..]
  }

  /** The next bytes of the data in their places of a word, or zeros beyond the data. */
  method NextWord(address: nat, data: seq<byte>, done: nat) returns (word: Word, from: nat, n: nat)
    requires done <= |data|
    ensures n == (if done < |data| then Min(|data| - done, 4 - (if done > 0 then 0 else address % 4)) else 0)
    ensures from == (if done < |data| && done == 0 then address % 4 else 0)
    ensures from + n <= 4 && done + n <= |data| && word[from..from + n] == data[done..done + n]
  {
    word := [0, 0, 0, 0];
    from, n := 0, 0;
    if done < |data| {
      from := if done > 0 then 0 else address % 4;
      n := Min(|data| - done, 4 - from);
      word := InWord(from, data[done..done + n]);
    }
  }

  /** One word of the batch: the next bytes of the data, or zeros beyond them. */
  method WriteWord(chip: Chip, ghost before: seq<byte>, address: nat, data: seq<byte>, done: nat) returns (n: nat)
    requires address + |data| <= |before| && Writing(chip, before, address, data, done) && data != []
    modifies chip
    ensures done + n <= |data| && Writing(chip, before, address, data, done + n)
    ensures done < |data| ==> n > 0
  {
    var word, from;
    word, from, n := NextWord(address, data, done);
    ghost var mem0, words0 := chip.mem, chip.wrWords;
    chip.PushWord(word);
    PushStores(mem0, chip.mem, before, address, data, done, words0, word, from, n);
  }

  /** ESC_write_pram. A batch is filled with zero words beyond the data. */
  method WritePram(chip: Chip, address: nat, data: seq<byte>)
    requires address + |data| <= |chip.mem| && |data| <= 0xFFFF
    modifies chip
    ensures chip.mem == Splice(old(chip.mem), address, data)
  {
    var done := 0;
    ghost var before := chip.mem;
    chip.SetupWrite(address, |data|);
    while done < |data|
      invariant 0 <= done <= |data| && Writing(chip, before, address, data, done)
    {
      var fifoRange := FifoRange(|data| - done, done, address % 4);
      FifoRangeMeaning(address, |data| - done, done);
      var count := WaitFifo(fifoRange);
      var i, start := 0, done;
      while i < count
        invariant i <= count && start <= done <= |data| && Writing(chip, before, address, data, done)
        invariant i > 0 ==> done > start
      {
        var n := WriteWord(chip, before, address, data, done);
        done, i := done + n, i + 1;
      }
    }
  }

  lemma PushStores(mem0: seq<byte>, mem1: seq<byte>, before: seq<byte>, address: nat, data: seq<byte>, done: nat,
                   words: nat, word: Word, from: nat, n: nat)
    requires address + |data| <= |before| && done <= |data| && StoredUpTo(mem0, before, address, data, done)
    requires |mem1| == |mem0|
    requires forall p | 0 <= p < |mem1| ::
               var at := p - address / 4 * 4 - 4 * words;
               mem1[p] == if address <= p < address + |data| && 0 <= at < 4 then word[at] else mem0[p]
    requires if done < |data| then from < 4 && 0 < n == Min(|data| - done, 4 - from) &&
                                   done + address % 4 == 4 * words + from && (done > 0 ==> from == 0)
             else n == 0 && address % 4 + |data| <= 4 * words
    requires n > 0 ==> word[from..from + n] == data[done..done + n]
    ensures done + n <= |data| && StoredUpTo(mem1, before, address, data, done + n)
  {
    assert address / 4 * 4 + address % 4 == address;
    forall p | 0 <= p < |mem1|
      ensures mem1[p] == if address <= p < address + (done + n) then data[p - address] else before[p]
    {
      var at := p - address / 4 * 4 - 4 * words;
      if done < |data| {
        assert at == p - address - done + from;
        if address + done <= p < address + done + n {
          assert word[at] == word[from..from + n][at - from] == data[done..done + n][p - address - done];
        }
      }
    }
  }

  // ---------------------------------------------------------------- the stack's entry points

  /** ESC_read_csr, chunk by chunk, as ESC_read runs it. */
  method ReadCsr(mem: seq<byte>, address: nat, buf: array<byte>, len: nat) returns (chunks: seq<Chunk>)
    requires address + len <= |mem| && len <= buf.Length
    modifies buf
    ensures Tiles(chunks, address, len)
    ensures buf[..len] == mem[address..address + len]
    ensures buf[len..] == old(buf[len..])
  {
    chunks := [];
    var done := 0;
    while done < len
      invariant 0 <= done <= len && Tiles(chunks, address, done)
      invariant buf[..done] == mem[address..address + done]
      invariant buf[len..] == old(buf[len..])
    {
      var size := CsrChunkSize(address + done, len - done);
      CopyInto(buf, done, mem[address + done..address + done + size]);
      TilesSnoc(chunks, address, done, size);
      chunks := chunks + [Chunk(address + done, size)];
      done := done + size;
    }
  }

  /** ESC_write_csr, chunk by chunk, as ESC_write runs it. */
  method WriteCsr(chip: Chip, address: nat, data: seq<byte>) returns (chunks: seq<Chunk>)
    requires address + |data| <= |chip.mem|
    modifies chip
    ensures Tiles(chunks, address, |data|)
    ensures chip.mem == Splice(old(chip.mem), address, data)
  {
    chunks := [];
    var done := 0;
    ghost var before := chip.mem;
    while done < |data|
      invariant 0 <= done <= |data| && Tiles(chunks, address, done)
      invariant chip.mem == Splice(before, address, data[..done])
    {
      var size := CsrChunkSize(address + done, |data| - done);
      chip.mem := Splice(chip.mem, address + done, data[done..done + size]);
      assert chip.mem == Splice(before, address, data[..done + size]);
      TilesSnoc(chunks, address, done, size);
      chunks := chunks + [Chunk(address + done, size)];
      done := done + size;
    }
    assert data[..done] == data;
  }

  const PramStart := 0x1000

  /** ESC_read: buf receives exactly the bytes of the range, whichever way they come. */
  method EscRead(chip: Chip, fifo: seq<Word>, address: nat, buf: array<byte>, len: nat)
    requires address + len <= |chip.mem| <= 0x1_0000 && len <= buf.Length && len <= 0xFFFF
    requires address >= PramStart ==> Carries(fifo, chip.mem, address, len)
    modifies buf
    ensures buf[..len] == chip.mem[address..address + len]
    ensures buf[len..] == old(buf[len..])
  {
    if address >= PramStart {
      ReadPram(fifo, chip.mem, address, buf, len);
    } else {
      var _ := ReadCsr(chip.mem, address, buf, len);
    }
  }

  /** ESC_write: exactly the bytes of the range change. */
  method EscWrite(chip: Chip, address: nat, data: seq<byte>)
    requires address + |data| <= |chip.mem| <= 0x1_0000 && |data| <= 0xFFFF
    modifies chip
    ensures chip.mem == Splice(old(chip.mem), address, data)
  {
    if address >= PramStart {
      WritePram(chip, address, data);
    } else {
      var _ := WriteCsr(chip, address, data);
    }
  }

  /** A write followed by a read of the same range returns the bytes written, for any alignment and
      any batches. */
  method WriteThenRead(chip: Chip, fifo: seq<Word>, address: nat, data: seq<byte>, buf: array<byte>)
    requires address + |data| <= |chip.mem| <= 0x1_0000 && |data| <= buf.Length && |data| <= 0xFFFF
    requires address >= PramStart ==> Carries(fifo, Splice(chip.mem, address, data), address, |data|)
    modifies chip, buf
    ensures buf[..|data|] == data
    ensures buf[|data|..] == old(buf[|data|..])
  {
    EscWrite(chip, address, data);
    EscRead(chip, fifo, address, buf, |data|);
  }

  /** The transfers of a tiling, one after the other, carry every byte of the range exactly once. */
  lemma {:induction false} TilesCover(chunks: seq<Chunk>, address: nat, len: nat, p: nat)
    requires Tiles(chunks, address, len)
    ensures (exists i :: 0 <= i < |chunks| && chunks[i].address <= p < chunks[i].address + chunks[i].size)
            <==> address <= p < address + len
    ensures forall i, j | 0 <= i < j < |chunks| :: chunks[i].address + chunks[i].size <= chunks[j].address
    ensures forall i | 0 <= i < |chunks| ::
              address <= chunks[i].address && chunks[i].address + chunks[i].size <= address + len
  {
    if chunks != [] {
      var c, rest := chunks[0], chunks[1..];
      TilesCover(rest, address + c.size, len - c.size, p);
      assert forall i | 0 <= i < |rest| :: chunks[i + 1] == rest[i];
      assert forall i | 1 <= i < |chunks| :: chunks[i] == rest[i - 1];
      if address + c.size <= p < address + len {
        var i :| 0 <= i < |rest| && rest[i].address <= p < rest[i].address + rest[i].size;
        assert chunks[i + 1] == rest[i];
      }
    }
  }
}
