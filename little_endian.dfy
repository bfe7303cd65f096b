/**
 * Unsigned 32-bit integers and their 4-byte little-endian encoding,
 * as used by the binary table format.
 */
module LittleEndian {

  type Byte = b: int | 0 <= b < 0x100

  type U32 = x: int | 0 <= x < 0x1_0000_0000

  /** The four bytes of `x`, least significant first. */
  function PutU32(x: U32): (bs: seq<Byte>)
    ensures |bs| == 4
  {
    [x % 0x100, (x / 0x100) % 0x100, (x / 0x1_0000) % 0x100, x / 0x100_0000]
  }

  /** The value of four little-endian bytes. */
  function GetU32(bs: seq<Byte>): (x: U32)
    requires |bs| == 4
  {
    (bs[0] as int) + 0x100 * (bs[1] as int) + 0x1_0000 * (bs[2] as int) + 0x100_0000 * (bs[3] as int)
  }

  /** Decoding the encoding of a value gives the value back. */
  lemma GetPutU32(x: U32)
    ensures GetU32(PutU32(x)) == x
  {
    var b0, r0 := x % 0x100, x / 0x100;
    var b1, r1 := r0 % 0x100, r0 / 0x100;
    var b2, b3 := r1 % 0x100, r1 / 0x100;
    assert x == b0 + 0x100 * r0;
    assert r0 == b1 + 0x100 * r1;
    assert r1 == b2 + 0x100 * b3;
    assert x / 0x1_0000 == r1;
    assert x / 0x100_0000 == b3;
  }

  /** Encoding the value of four bytes gives the same four bytes. */
  lemma PutGetU32(bs: seq<Byte>)
    requires |bs| == 4
    ensures PutU32(GetU32(bs)) == bs
  {
    var x := GetU32(bs);
    assert x / 0x100 == bs[1] as int + 0x100 * (bs[2] as int) + 0x1_0000 * (bs[3] as int);
    assert x / 0x1_0000 == bs[2] as int + 0x100 * (bs[3] as int);
  }
}
