/** Unsigned 32-bit big-endian integers, as `Transform::fromUInt32BE` reads them. */
module BigEndian {

  /** One octet of the byte stream. */
  type Byte = b: int | 0 <= b < 256

  /** Number of distinct unsigned 32-bit values. */
  const Two32: nat := 0x1_0000_0000

  /** The value of four bytes, most significant byte first. */
  function Uint32(w: seq<Byte>): (v: nat)
    requires |w| == 4
    ensures v < Two32
  {
    ((w[0] as int * 256 + w[1]) * 256 + w[2]) * 256 + w[3]
  }

  /** The four bytes, most significant first, that spell `v`. */
  function Uint32Bytes(v: nat): (w: seq<Byte>)
    requires v < Two32
    ensures |w| == 4
  {
    var v1 := v / 256;
    var v2 := v1 / 256;
    [v2 / 256, v2 % 256, v1 % 256, v % 256]
  }

  /** Decoding the encoding of a value gives the value back. */
  lemma Uint32OfBytes(v: nat)
    requires v < Two32
    ensures Uint32(Uint32Bytes(v)) == v
  {
    var v1 := v / 256;
    var v2 := v1 / 256;
    assert v == v1 * 256 + v % 256;
    assert v1 == v2 * 256 + v1 % 256;
    assert v2 == (v2 / 256) * 256 + v2 % 256;
  }

  /** Encoding the decoded value of four bytes gives the bytes back. */
  lemma BytesOfUint32(w: seq<Byte>)
    requires |w| == 4
    ensures Uint32Bytes(Uint32(w)) == w
  {
    var v := Uint32(w);
    var v1 := (w[0] as int * 256 + w[1]) * 256 + w[2];
    var v2 := w[0] as int * 256 + w[1];
    assert v / 256 == v1 && v % 256 == w[3];
    assert v1 / 256 == v2 && v1 % 256 == w[2];
    assert v2 / 256 == w[0] && v2 % 256 == w[1];
  }
}
