/** The fixed 12-byte BITM header: magic, width, height, each a little-endian
    unsigned 32-bit integer. */
module Header {
  import opened Errors
  import opened LittleEndian

  /** "BITM" read as a little-endian 32-bit integer. */
  const Magic: U32 := 0x4D54_4942

  const HeaderSize: nat := 12

  datatype Dimensions = Dimensions(width: U32, height: U32)

  /** The three `write_uint32` calls of `convert_to_custom`. */
  function EncodeHeader(width: U32, height: U32): (h: seq<Byte>)
    ensures |h| == HeaderSize
    ensures h[..4] == [0x42, 0x49, 0x54, 0x4D]
  {
    MagicBytes();
    EncodeU32(Magic) + EncodeU32(width) + EncodeU32(height)
  }

  /** The header part of `convert_to_bmp`: the magic is read and checked before
      the width and the height are read. */
  function DecodeHeader(s: seq<Byte>): (r: Result<Dimensions>)
    ensures |s| >= 4 && s[..4] != [0x42, 0x49, 0x54, 0x4D] ==> r == Err(InvalidMagic)
    ensures r.Ok? ==> HeaderSize <= |s| && EncodeHeader(r.value.width, r.value.height) == s[..HeaderSize]
  {
    MagicBytes();
    match ReadU32(s, 0)
    case Err(e) => Err(e)
    case Ok(magic) =>
      if magic != Magic then Err(InvalidMagic)
      else
        match ReadU32(s, 4)
        case Err(e) => Err(e)
        case Ok(width) =>
          match ReadU32(s, 8)
          case Err(e) => Err(e)
          case Ok(height) =>
            assert s[..HeaderSize] == s[0..4] + s[4..8] + s[8..12];
            Ok(Dimensions(width, height))
  }

  /** The magic is the four ASCII bytes "BITM". */
  lemma MagicBytes()
    ensures EncodeU32(Magic) == [0x42, 0x49, 0x54, 0x4D]
  {
  }

  /** The header is exactly 12 bytes: magic, width, height, little-endian. */
  lemma EncodeHeaderLayout(width: U32, height: U32)
    ensures |EncodeHeader(width, height)| == HeaderSize
    ensures EncodeHeader(width, height) ==
      [0x42, 0x49, 0x54, 0x4D] + EncodeU32(width) + EncodeU32(height)
    ensures DecodeU32(EncodeHeader(width, height)[4..8]) == width
    ensures DecodeU32(EncodeHeader(width, height)[8..12]) == height
  {
    MagicBytes();
    var h := EncodeHeader(width, height);
    assert h[4..8] == EncodeU32(width);
    assert h[8..12] == EncodeU32(height);
    DecodeEncode(width);
    DecodeEncode(height);
  }

  /** Decoding an encoded header, whatever follows it, gives back the
      dimensions that were written. */
  lemma HeaderRoundTrip(width: U32, height: U32, rest: seq<Byte>)
    ensures DecodeHeader(EncodeHeader(width, height) + rest) == Ok(Dimensions(width, height))
  {
    var s := EncodeHeader(width, height) + rest;
    assert s[0..4] == EncodeU32(Magic);
    assert s[4..8] == EncodeU32(width);
    assert s[8..12] == EncodeU32(height);
    EncodeInjective(Magic, s[0..4]);
    EncodeInjective(width, s[4..8]);
    EncodeInjective(height, s[8..12]);
  }

  /** The decoder's outcome for every input: too short for the magic, a magic
      other than the bytes "BITM" (whatever follows, since width and height are
      not read), too short for width and height, or the decoded header. */
  lemma DecodeHeaderCases(s: seq<Byte>)
    ensures |s| < 4 ==> DecodeHeader(s) == Err(TruncatedHeader)
    ensures |s| >= 4 && s[..4] != [0x42, 0x49, 0x54, 0x4D] ==> DecodeHeader(s) == Err(InvalidMagic)
    ensures |s| >= 4 && s[..4] == [0x42, 0x49, 0x54, 0x4D] && |s| < HeaderSize ==>
      DecodeHeader(s) == Err(TruncatedHeader)
    ensures |s| >= HeaderSize && s[..4] == [0x42, 0x49, 0x54, 0x4D] ==>
      DecodeHeader(s) == Ok(Dimensions(DecodeU32(s[4..8]), DecodeU32(s[8..12])))
  {
    MagicBytes();
    if |s| >= 4 {
      EncodeInjective(Magic, s[0..4]);
      assert s[..4] == s[0..4];
    }
    if |s| >= HeaderSize {
      EncodeDecode(s[4..8]);
      EncodeDecode(s[8..12]);
    }
  }

  /** Bytes after the header do not change what the header decodes to. */
  lemma DecodeHeaderPrefix(s: seq<Byte>, rest: seq<Byte>)
    requires |s| >= HeaderSize
    ensures DecodeHeader(s + rest) == DecodeHeader(s)
  {
    assert (s + rest)[0..4] == s[0..4];
    assert (s + rest)[4..8] == s[4..8];
    assert (s + rest)[8..12] == s[8..12];
  }
}
