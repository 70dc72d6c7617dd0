/**
 * The `struct` formats the image sniffer unpacks (`>H`, `<H`, `>i`), and
 * encoders for each that serve as their partners in round-trip lemmas.
 */
module Bytes {

  /** One octet of a Python `bytes` object. */
  type Byte = b: int | 0 <= b < 256

  const TwoTo31: int := 0x8000_0000
  const TwoTo32: int := 0x1_0000_0000

  /** `struct.unpack('>H', [hi, lo])`: unsigned 16-bit, most significant byte first. */
  function U16BE(hi: Byte, lo: Byte): (r: int)
    ensures 0 <= r < 0x1_0000
    ensures r / 256 == hi && r % 256 == lo
  {
    hi * 256 + lo
  }

  /** `struct.unpack('<H', [lo, hi])`: unsigned 16-bit, least significant byte first. */
  function U16LE(lo: Byte, hi: Byte): (r: int)
    ensures 0 <= r < 0x1_0000
    ensures r / 256 == hi && r % 256 == lo
  {
    lo + hi * 256
  }

  /** `struct.unpack('>i', b)`: two's-complement signed 32-bit, most significant byte first. */
  function I32BE(b: seq<Byte>): (r: int)
    requires |b| == 4
    ensures -TwoTo31 <= r < TwoTo31
    ensures r < 0 <==> b[0] >= 0x80
  {
    var u: int := ((b[0] as int * 256 + b[1]) * 256 + b[2]) * 256 + b[3];
    if u >= TwoTo31 then u - TwoTo32 else u
  }

  function EncodeU16BE(x: int): (r: seq<Byte>)
    requires 0 <= x < 0x1_0000
    ensures |r| == 2 && U16BE(r[0], r[1]) == x
  {
    [x / 256, x % 256]
  }

  function EncodeU16LE(x: int): (r: seq<Byte>)
    requires 0 <= x < 0x1_0000
    ensures |r| == 2 && U16LE(r[0], r[1]) == x
  {
    [x % 256, x / 256]
  }

  /** The four bytes `struct.pack('>i', x)` writes. */
  function EncodeI32BE(x: int): (r: seq<Byte>)
    requires -TwoTo31 <= x < TwoTo31
    ensures |r| == 4 && I32BE(r) == x
  {
    var u: int := if x < 0 then x + TwoTo32 else x;
    var hi := u / 0x1_0000;
    var lo := u % 0x1_0000;
    assert u == hi * 0x1_0000 + lo;
    assert hi == (hi / 256) * 256 + hi % 256;
    assert lo == (lo / 256) * 256 + lo % 256;
    [hi / 256, hi % 256, lo / 256, lo % 256]
  }

}
