// Fixed-width unsigned integers, as subsets of int. Wrap-around and truncation are
// always written out where the program relies on them.
module Bytes {
  type byte = x: int | 0 <= x < 0x100 witness 0
  type uint16 = x: int | 0 <= x < 0x1_0000 witness 0
  type uint32 = x: int | 0 <= x < 0x1_0000_0000 witness 0

  // The big-endian 16-bit word at position i.
  function Word(data: seq<byte>, i: nat): uint16
    requires i + 1 < |data|
  {
    0x100 * (data[i] as int) + data[i + 1]
  }

  function Long(data: seq<byte>, i: nat): uint32
    requires i + 3 < |data|
  {
    0x1_0000 * (Word(data, i) as int) + Word(data, i + 2)
  }

  // The two halves of a byte, b & 0xf and b >> 4.
  function LowNibble(b: byte): (n: byte)
    ensures n < 16
  {
    b % 16
  }

  function HighNibble(b: byte): (n: byte)
    ensures n < 16
  {
    b / 16
  }

  // The two bytes a truncated length is written as.
  lemma LengthBytes(n: nat)
    ensures n % 0x1_0000 / 0x100 == n / 0x100 % 0x100 && n % 0x1_0000 % 0x100 == n % 0x100
  {
    var q, r := n / 0x1_0000, n % 0x1_0000;
    var high, low := r / 0x100, r % 0x100;
    assert n == 0x100 * (0x100 * q + high) + low;
    assert n / 0x100 == 0x100 * q + high && n % 0x100 == low;
  }
}
