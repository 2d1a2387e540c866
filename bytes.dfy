/**
 * Fixed-width integers and the little-endian encodings that the FunctionFS
 * blobs and the USB SETUP packet use on the wire (the host-order macros
 * htole16/htole32/le16toh are modelled directly as these encodings).
 */
module Bytes {
  type byte = b: int | 0 <= b < 0x100
  type uint16 = v: int | 0 <= v < 0x1_0000
  type uint32 = v: int | 0 <= v < 0x1_0000_0000

  /** A C string: bytes up to, not including, the terminating NUL. */
  type CString = s: seq<byte> | forall i | 0 <= i < |s| :: s[i] != 0

  function Le16(v: uint16): (r: seq<byte>)
    ensures |r| == 2
  {
    [v % 0x100, v / 0x100]
  }

  function Le32(v: uint32): (r: seq<byte>)
    ensures |r| == 4
  {
    var q1 := v / 0x100;
    var q2 := q1 / 0x100;
    [v % 0x100, q1 % 0x100, q2 % 0x100, q2 / 0x100]
  }

  function DecodeLe16(s: seq<byte>): uint16
    requires |s| == 2
  {
    s[0] as int + 0x100 * s[1] as int
  }

  function DecodeLe32(s: seq<byte>): uint32
    requires |s| == 4
  {
    var b0, b1, b2, b3 := s[0] as int, s[1] as int, s[2] as int, s[3] as int;
    b0 + 0x100 * b1 + 0x1_0000 * b2 + 0x100_0000 * b3
  }

  /** Decoding undoes encoding for every 16-bit value. */
  lemma Le16RoundTrip(v: uint16)
    ensures DecodeLe16(Le16(v)) == v
  {
  }

  /** Encoding undoes decoding for every pair of bytes. */
  lemma Le16Canonical(s: seq<byte>)
    requires |s| == 2
    ensures Le16(DecodeLe16(s)) == s
  {
  }

  /** Decoding undoes encoding for every 32-bit value. */
  lemma Le32RoundTrip(v: uint32)
    ensures DecodeLe32(Le32(v)) == v
  {
    var q1 := v / 0x100;
    var q2 := q1 / 0x100;
    assert v == v % 0x100 + 0x100 * q1;
    assert q1 == q1 % 0x100 + 0x100 * q2;
    assert q2 == q2 % 0x100 + 0x100 * (q2 / 0x100);
  }

  /** Encoding undoes decoding for every four bytes. */
  lemma Le32Canonical(s: seq<byte>)
    requires |s| == 4
    ensures Le32(DecodeLe32(s)) == s
  {
    var b0, b1, b2, b3 := s[0] as int, s[1] as int, s[2] as int, s[3] as int;
    var v := DecodeLe32(s);
    assert v == b0 + 0x100 * (b1 + 0x100 * (b2 + 0x100 * b3));
    assert v % 0x100 == b0 && v / 0x100 == b1 + 0x100 * (b2 + 0x100 * b3);
    var w := v / 0x100;
    assert w % 0x100 == b1 && w / 0x100 == b2 + 0x100 * b3;
  }
}
