/** Unsigned 32-bit little-endian fields read out of a byte buffer, as
    Python's `struct.unpack_from("<I", buffer, offset)` reads them: four
    bytes, least significant first, no sign extension, and an error (Python
    raises `struct.error`) when fewer than four bytes remain at `offset`. */
module LittleEndian {

  /** One element of a Python `bytes` object: an int in 0..255. */
  type Byte = b: int | 0 <= b < 256

  datatype Option<T> = None | Some(value: T)

  const U32Limit: nat := 0x1_0000_0000

  /** The value of four bytes read least significant first. */
  function DecodeU32(b: seq<Byte>): (v: nat)
    requires |b| == 4
    ensures v < U32Limit
    ensures v % 256 == b[0]
  {
    b[0] as int + 256 * (b[1] as int + 256 * (b[2] as int + 256 * b[3] as int))
  }

  /** The four bytes that hold `v`, least significant first. */
  function EncodeU32(v: nat): (b: seq<Byte>)
    requires v < U32Limit
    ensures |b| == 4
    ensures b[0] == v % 256
  {
    [v % 256, (v / 256) % 256, (v / 65536) % 256, v / 16777216]
  }

  /** Every 32-bit value survives encoding and decoding. */
  lemma DecodeEncode(v: nat)
    requires v < U32Limit
    ensures DecodeU32(EncodeU32(v)) == v
  {
    var q1 := v / 256;
    var q2 := q1 / 256;
    var q3 := q2 / 256;
    assert v == v % 256 + 256 * q1;
    assert q1 == q1 % 256 + 256 * q2;
    assert q2 == q2 % 256 + 256 * q3;
    assert q2 == v / 65536;
    assert q3 == v / 16777216;
  }

  /** Every four-byte string is the encoding of what it decodes to: the
      decoding is one-to-one. */
  lemma EncodeDecode(b: seq<Byte>)
    requires |b| == 4
    ensures EncodeU32(DecodeU32(b)) == b
  {
    var v := DecodeU32(b);
    var hi2: int := b[2] as int + 256 * b[3] as int;
    var hi1: int := b[1] as int + 256 * hi2;
    assert v == b[0] as int + 256 * hi1;
    assert v / 256 == hi1 && v % 256 == b[0];
    assert hi1 / 256 == hi2 && hi1 % 256 == b[1];
    assert hi2 / 256 == b[3] && hi2 % 256 == b[2];
    assert v / 65536 == (v / 256) / 256;
    assert v / 16777216 == ((v / 256) / 256) / 256;
  }

  /** `struct.unpack_from("<I", data, off)`: `None` stands for the
      `struct.error` raised when the four bytes at `off` are not all there. */
  function UnpackU32(data: seq<Byte>, off: nat): (r: Option<nat>)
    ensures r.Some? <==> off + 4 <= |data|
    ensures r.Some? ==> r.value < U32Limit && EncodeU32(r.value) == data[off..off + 4]
  {
    if off + 4 <= |data| then
      EncodeDecode(data[off..off + 4]);
      Some(DecodeU32(data[off..off + 4]))
    else
      None
  }
}
