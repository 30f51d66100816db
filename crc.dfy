/** The CRC-32 checksum that `binascii.crc32` computes (the reflected IEEE 802.3
    polynomial, as in zlib), its Python 2 signed result, and `crc2bytes`. */
module Crc {
  import opened Bytes

  const POLYNOMIAL: bv32 := 0xEDB8_8320

  /** One step of the bitwise shift register, least significant bit first. */
  function Step(c: bv32): bv32
  {
    if c & 1 == 1 then (c >> 1) ^ POLYNOMIAL else c >> 1
  }

  /** `k` steps of the shift register. */
  function ShiftBits(c: bv32, k: nat): bv32
    decreases k
  {
    if k == 0 then c else ShiftBits(Step(c), k - 1)
  }

  function Update(c: bv32, data: seq<Byte>): bv32
    decreases |data|
  {
    if data == [] then c else Update(ShiftBits(c ^ (data[0] as bv32), 8), data[1..])
  }

  /** The unsigned CRC-32 of `data`, with initial value and final xor 0xFFFFFFFF. */
  function Crc32(data: seq<Byte>): bv32
  {
    Update(0xFFFF_FFFF, data) ^ 0xFFFF_FFFF
  }

  /** A 32-bit value read as a signed (two's complement) integer. */
  function Signed32(u: U32): (r: int)
    ensures -0x8000_0000 <= r < 0x8000_0000
    ensures r % 0x1_0000_0000 == u
  {
    if u < 0x8000_0000 then u else u - 0x1_0000_0000
  }

  /** What Python 2's `binascii.crc32` returns: the CRC as a signed 32-bit integer. */
  function Crc32Signed(data: seq<Byte>): int
  {
    Signed32(Crc32(data) as int)
  }

  /** `crc2bytes`: four iterations of "take the low byte, shift right by 8". */
  method Crc2Bytes(crc: int) returns (res: seq<Byte>)
    ensures res == LE(crc, 4)
    ensures |res| == 4 && FromLE(res) == crc % 0x1_0000_0000
  {
    res := [];
    var c := crc;
    for i := 0 to 4
      invariant |res| == i
      invariant res + LE(c, 4 - i) == LE(crc, 4)
    {
      var t := c % 256;
      c := c / 256;
      res := res + [t];
    }
    LEMod(crc, 4);
    Pow256Values();
  }

  /** `crc2bytes(binascii.crc32(data))`: the checksum as the four bytes stored on disk. */
  function Checksum(data: seq<Byte>): (r: seq<Byte>)
    ensures |r| == 4
    ensures r == LE(Crc32(data) as int, 4)
  {
    Pow256Values();
    LEModulo(Signed32(Crc32(data) as int), 4);
    LE(Crc32Signed(data), 4)
  }

  /** Reading the stored checksum back as a little-endian `u32` gives the unsigned CRC. */
  lemma ChecksumValue(data: seq<Byte>)
    ensures FromLE(Checksum(data)) == Crc32(data) as int
  {
    Pow256Values();
    LERoundTrip(Crc32(data) as int, 4);
  }
}
