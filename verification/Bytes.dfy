/** Octets, shared by the text, wire and packet formats. */
module Bytes {
  const TWO32: int := 0x1_0000_0000

  type Byte = x: int | 0 <= x < 256

  type Word32 = x: int | 0 <= x < TWO32

  lemma Associate(a: seq<Byte>, b: seq<Byte>, c: seq<Byte>)
    ensures a + (b + c) == a + b + c
  {}

  /** The big-endian number in four bytes. */
  function BigEndian32(b: seq<Byte>): (n: nat)
    requires |b| == 4
    ensures n < TWO32
  {
    ((b[0] as int * 256 + b[1]) * 256 + b[2]) * 256 + b[3]
  }

  function Bytes32(n: Word32): (b: seq<Byte>)
    ensures |b| == 4
  {
    [n / 0x100_0000, n / 0x1_0000 % 0x100, n / 0x100 % 0x100, n % 0x100]
  }

  /** Bytes shifted out one after the other are shifted out together. */
  lemma ShiftedBytes(n: nat)
    ensures n / 0x100 / 0x100 == n / 0x1_0000 && n / 0x1_0000 / 0x100 == n / 0x100_0000
  {}

  lemma Bytes32Back(n: Word32)
    ensures BigEndian32(Bytes32(n)) == n
  {
    ShiftedBytes(n);
    var q, h := n / 0x100, n / 0x1_0000;
    assert n == q * 0x100 + n % 0x100;
    assert q == h * 0x100 + q % 0x100;
    assert h == n / 0x100_0000 * 0x100 + h % 0x100;
  }
}
