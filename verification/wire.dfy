/**
 * The fixed 13-byte header carried in front of every handshake and data frame,
 * and the byte-level pack/unpack helpers it is built from.
 *
 * Layout: version at offset 0, then ack, syn, seq, bufsize, checksum and len at
 * offsets 1, 3, 5, 7, 9 and 11, each 16-bit field stored low byte first.
 */
module Wire {

  const HeaderSize: nat := 13

  type u8 = x: int | 0 <= x < 0x100
  type u16 = x: int | 0 <= x < 0x1_0000
  type byte = u8

  datatype Header = Header(
    version: u8,
    ack: u16,
    syn: u16,
    seqNo: u16,
    bufsize: u16,
    checksum: u16,
    len: u16)

  // ---------------------------------------------------------------------------
  // Value-level codec
  // ---------------------------------------------------------------------------

  /** The two bytes pack_uint16_t stores: the value truncated to a char, then value >> 8. */
  function PackU16(v: u16): (r: seq<byte>)
    ensures |r| == 2
  {
    [v % 0x100, v / 0x100]
  }

  /** unpack_uint16_t: both bytes taken as unsigned, high byte shifted left by 8. */
  function UnpackU16(b: seq<byte>, at: nat): u16
    requires at + 2 <= |b|
  {
    (b[at + 1] as int) * 0x100 + (b[at] as int)
  }

  /**
   * unpack_uint8_t returns the byte read through a plain (signed) `char`, so a
   * byte of 0x80 or more is sign-extended into the 16-bit result.  The caller
   * stores it into a uint8_t field, which keeps only the low byte.
   */
  function UnpackU8(c: byte): (r: u16)
    ensures r % 0x100 == c
    ensures c < 0x80 ==> r == c
    ensures c >= 0x80 ==> r >= 0xFF80
  {
    if c < 0x80 then c else 0xFF00 + c
  }

  /** serialize_header as a value: the 13 bytes it writes. */
  function Encode(h: Header): (r: seq<byte>)
    ensures |r| == HeaderSize
  {
    [h.version] + PackU16(h.ack) + PackU16(h.syn) + PackU16(h.seqNo)
      + PackU16(h.bufsize) + PackU16(h.checksum) + PackU16(h.len)
  }

  /** deserialize_header as a value: the header read from the first 13 bytes. */
  function Decode(b: seq<byte>): Header
    requires HeaderSize <= |b|
  {
    Header(
      UnpackU8(b[0]) % 0x100,
      UnpackU16(b, 1),
      UnpackU16(b, 3),
      UnpackU16(b, 5),
      UnpackU16(b, 7),
      UnpackU16(b, 9),
      UnpackU16(b, 11))
  }

  // ---------------------------------------------------------------------------
  // Round trips
  // ---------------------------------------------------------------------------

  /** unpack_uint16_t inverts pack_uint16_t for every 16-bit value, and conversely. */
  lemma PackUnpackU16(v: u16, b: seq<byte>, at: nat)
    requires at + 2 <= |b|
    ensures UnpackU16(PackU16(v), 0) == v
    ensures PackU16(UnpackU16(b, at)) == b[at..at + 2]
  {
    var w := UnpackU16(b, at);
    assert w / 0x100 == b[at + 1] && w % 0x100 == b[at] by {
      assert w == (b[at + 1] as int) * 0x100 + (b[at] as int);
    }
  }

  /** deserialize_header(serialize_header(h)) == h, for every header. */
  lemma {:induction false} DecodeEncode(h: Header)
    ensures Decode(Encode(h)) == h
  {
    var e := Encode(h);
    PackUnpackU16(h.ack, e, 0);
    PackUnpackU16(h.syn, e, 0);
    PackUnpackU16(h.seqNo, e, 0);
    PackUnpackU16(h.bufsize, e, 0);
    PackUnpackU16(h.checksum, e, 0);
    PackUnpackU16(h.len, e, 0);
    assert e[1..3] == PackU16(h.ack);
    assert e[3..5] == PackU16(h.syn);
    assert e[5..7] == PackU16(h.seqNo);
    assert e[7..9] == PackU16(h.bufsize);
    assert e[9..11] == PackU16(h.checksum);
    assert e[11..13] == PackU16(h.len);
  }

  /** The codec is a bijection: re-encoding a decoded header gives back the 13 bytes. */
  lemma {:induction false} EncodeDecode(b: seq<byte>)
    requires HeaderSize <= |b|
    ensures Encode(Decode(b)) == b[..HeaderSize]
  {
    var h := Decode(b);
    PackUnpackU16(0, b, 1);
    PackUnpackU16(0, b, 3);
    PackUnpackU16(0, b, 5);
    PackUnpackU16(0, b, 7);
    PackUnpackU16(0, b, 9);
    PackUnpackU16(0, b, 11);
    assert b[..HeaderSize] == [b[0]] + b[1..3] + b[3..5] + b[5..7] + b[7..9] + b[9..11] + b[11..13];
  }

  // ---------------------------------------------------------------------------
  // In-place writers and readers over a caller's buffer
  // ---------------------------------------------------------------------------

  /** pack_uint8_t: stores one byte at `at`, nothing else changes. */
  method PackU8Into(buffer: array<byte>, at: nat, v: u8)
    requires at < buffer.Length
    modifies buffer
    ensures buffer[..] == old(buffer[..])[at := v]
  {
    buffer[at] := v;
  }

  /** pack_uint16_t: stores PackU16(v) at at..at+2, nothing else changes. */
  method PackU16Into(buffer: array<byte>, at: nat, v: u16)
    requires at + 2 <= buffer.Length
    modifies buffer
    ensures buffer[at..at + 2] == PackU16(v)
    ensures forall i :: 0 <= i < buffer.Length && i != at && i != at + 1 ==> buffer[i] == old(buffer[i])
  {
    buffer[at] := v % 0x100;
    buffer[at + 1] := v / 0x100;
  }

  /**
   * serialize_header: writes exactly bytes 0..12 of the buffer with the encoded
   * header and leaves every other byte as it was.
   */
  method SerializeHeader(buffer: array<byte>, h: Header)
    requires HeaderSize <= buffer.Length
    modifies buffer
    ensures buffer[..HeaderSize] == Encode(h)
    ensures buffer[HeaderSize..] == old(buffer[HeaderSize..])
  {
    PackU8Into(buffer, 0, h.version);
    PackU16Into(buffer, 1, h.ack);
    PackU16Into(buffer, 3, h.syn);
    PackU16Into(buffer, 5, h.seqNo);
    PackU16Into(buffer, 7, h.bufsize);
    PackU16Into(buffer, 9, h.checksum);
    PackU16Into(buffer, 11, h.len);
    assert buffer[..HeaderSize] == [buffer[0]] + buffer[1..3] + buffer[3..5] + buffer[5..7]
      + buffer[7..9] + buffer[9..11] + buffer[11..13];
  }

  /**
   * deserialize_header: reads the seven fields from the buffer.  The header it
   * produces is the one whose encoding is exactly the first 13 bytes.
   */
  method DeserializeHeader(buffer: array<byte>) returns (h: Header)
    requires HeaderSize <= buffer.Length
    ensures Encode(h) == buffer[..HeaderSize]
  {
    var b := buffer[..];
    h := Header(
      UnpackU8(buffer[0]) % 0x100,
      UnpackU16(b, 1),
      UnpackU16(b, 3),
      UnpackU16(b, 5),
      UnpackU16(b, 7),
      UnpackU16(b, 9),
      UnpackU16(b, 11));
    EncodeDecode(b);
    assert b[..HeaderSize] == buffer[..HeaderSize];
  }
}
