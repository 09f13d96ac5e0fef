/** `read_uint32` and `write_uint32`: one unsigned 32-bit integer as four
    little-endian bytes (`struct` format `'<I'`). */
module LittleEndian {
  import opened Errors

  type Byte = b: nat | b < 0x100
  type U32 = n: nat | n < 0x1_0000_0000

  /** `struct.pack('<I', v)`: least significant byte first. */
  function EncodeU32(v: U32): (b: seq<Byte>)
    ensures |b| == 4
  {
    var q1 := v / 0x100;
    var q2 := q1 / 0x100;
    [v % 0x100, q1 % 0x100, q2 % 0x100, q2 / 0x100]
  }

  /** `struct.unpack('<I', b)[0]` on exactly four bytes: the first byte is
      the least significant one and the last byte the most significant. */
  function DecodeU32(b: seq<Byte>): (v: U32)
    requires |b| == 4
    ensures v % 0x100 == b[0]
    ensures v / 0x100_0000 == b[3]
  {
    DigitSplit(b[0], b[1] as int + 0x100 * (b[2] as int + 0x100 * b[3] as int));
    b[0] as int + 0x100 * (b[1] as int + 0x100 * (b[2] as int + 0x100 * b[3] as int))
  }

  /** `read_uint32(file)` on an in-memory file positioned at `pos`: `file.read(4)`
      returns fewer than four bytes near the end, and unpacking them fails. */
  function ReadU32(s: seq<Byte>, pos: nat): (r: Result<U32>)
    ensures r.Ok? <==> pos + 4 <= |s|
    ensures r.Ok? ==> EncodeU32(r.value) == s[pos..pos + 4]
    ensures r.Err? ==> r.error == TruncatedHeader
  {
    if pos + 4 <= |s| then
      EncodeDecode(s[pos..pos + 4]);
      Ok(DecodeU32(s[pos..pos + 4]))
    else
      Err(TruncatedHeader)
  }

  /** Reading back what was written gives the value that was written. */
  lemma DecodeEncode(v: U32)
    ensures DecodeU32(EncodeU32(v)) == v
  {
    var q1 := v / 0x100;
    var q2 := q1 / 0x100;
    DigitSplit(v % 0x100, q1);
    DigitSplit(q1 % 0x100, q2);
    DigitSplit(q2 % 0x100, q2 / 0x100);
  }

  /** Every four bytes are the encoding of the value they decode to, so the
      encoding is a bijection between `U32` and four-byte sequences. */
  lemma EncodeDecode(b: seq<Byte>)
    requires |b| == 4
    ensures EncodeU32(DecodeU32(b)) == b
  {
    var t2 := b[2] as int + 0x100 * b[3] as int;
    var t1 := b[1] as int + 0x100 * t2;
    DigitSplit(b[0], t1);
    DigitSplit(b[1], t2);
    DigitSplit(b[2], b[3]);
  }

  /** A number is its low byte plus 256 times the rest. */
  lemma DigitSplit(low: nat, high: nat)
    requires low < 0x100
    ensures (low + 0x100 * high) / 0x100 == high
    ensures (low + 0x100 * high) % 0x100 == low
  {
  }

  /** Two values with the same encoding are equal, and two four-byte sequences
      with the same value are equal. */
  lemma EncodeInjective(v: U32, b: seq<Byte>)
    requires |b| == 4
    ensures EncodeU32(v) == b <==> DecodeU32(b) == v
  {
    DecodeEncode(v);
    EncodeDecode(b);
  }
}
