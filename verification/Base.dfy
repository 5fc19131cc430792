/** Types shared by the modules of the stack model. */
module Base {

  datatype Option<+T> = None | Some(value: T)

  type byte = x: int | 0 <= x < 0x100
  type u8 = x: int | 0 <= x < 0x100
  type u16 = x: int | 0 <= x < 0x1_0000
  type u32 = x: int | 0 <= x < 0x1_0000_0000

  /** A byte as its bits, least significant first. */
  type Octet = b: seq<bool> | |b| == 8 witness [false, false, false, false, false, false, false, false]

  function ZeroOctet(): Octet { [false, false, false, false, false, false, false, false] }

  function Zeros(n: nat): seq<Octet> { seq(n, i => ZeroOctet()) }

  const MbxHeaderSize := 6

  function Min(a: int, b: int): int { if a <= b then a else b }

  function Max(a: int, b: int): int { if a >= b then a else b }

  predicate StrictlyIncreasing(s: seq<int>) {
    forall i, j | 0 <= i < j < |s| :: s[i] < s[j]
  }
}
