/** Whole BITM files: `convert_to_custom` (pixel grid to file bytes) and
    `convert_to_bmp` (file bytes to pixel grid), over an in-memory file.

    A BITM file is the 12-byte header followed by `(width * height + 31) // 32`
    words, each four little-endian bytes; bytes after the last word are never
    read. */
module BitmFile {
  import opened Errors
  import opened LittleEndian
  import opened Header
  import opened Bitstream

  /** What `convert_to_bmp` reads from a file before it builds the image. */
  datatype Bitm = Bitm(width: U32, height: U32, words: seq<U32>)

  /** `data.tofile(f)`: every word as four little-endian bytes, in order. */
  function WordsToBytes(words: seq<U32>): (b: seq<Byte>)
    ensures |b| == 4 * |words|
  {
    if words == [] then [] else EncodeU32(words[0]) + WordsToBytes(words[1..])
  }

  /** The words held by a byte sequence whose length is a multiple of four. */
  function BytesToWords(b: seq<Byte>): (words: seq<U32>)
    requires |b| % 4 == 0
    ensures 4 * |words| == |b|
  {
    if b == [] then [] else [DecodeU32(b[..4])] + BytesToWords(b[4..])
  }

  /** `data.fromfile(f, n)` with the file positioned at `pos`: fewer than `4 * n`
      bytes left raises `EOFError`. */
  function ReadWords(s: seq<Byte>, pos: nat, n: nat): (r: Result<seq<U32>>)
    ensures r.Ok? <==> pos + 4 * n <= |s|
    ensures r.Err? ==> r.error == TruncatedData
    ensures r.Ok? ==> |r.value| == n && WordsToBytes(r.value) == s[pos..pos + 4 * n]
  {
    if pos + 4 * n <= |s| then
      WordsToBytesToWords(s[pos..pos + 4 * n]);
      Ok(BytesToWords(s[pos..pos + 4 * n]))
    else
      Err(TruncatedData)
  }

  /** The bytes `convert_to_custom` writes: the header, then the words. */
  function EncodeFile(width: U32, height: U32, words: seq<U32>): (f: seq<Byte>)
    ensures |f| == HeaderSize + 4 * |words|
    ensures f[..4] == [0x42, 0x49, 0x54, 0x4D]
  {
    EncodeHeader(width, height) + WordsToBytes(words)
  }

  /** The reading part of `convert_to_bmp`: the header, then exactly
      `(width * height + 31) // 32` words. */
  function DecodeFile(s: seq<Byte>): (r: Result<Bitm>)
    ensures r.Ok? ==>
      var size := HeaderSize + 4 * |r.value.words|;
      && |r.value.words| == WordCount(PixelCount(r.value.width, r.value.height))
      && size <= |s|
      && EncodeFile(r.value.width, r.value.height, r.value.words) == s[..size]
  {
    match DecodeHeader(s)
    case Err(e) => Err(e)
    case Ok(dims) =>
      var n := WordCount(PixelCount(dims.width, dims.height));
      match ReadWords(s, HeaderSize, n)
      case Err(e) => Err(e)
      case Ok(words) =>
        assert s[..HeaderSize + 4 * n] == s[..HeaderSize] + s[HeaderSize..HeaderSize + 4 * n];
        Ok(Bitm(dims.width, dims.height, words))
  }

  // ---------------------------------------------------------------------------
  // Word serialisation

  lemma {:induction false} BytesToWordsToBytes(words: seq<U32>)
    ensures BytesToWords(WordsToBytes(words)) == words
  {
    if words != [] {
      var b := WordsToBytes(words);
      assert b[..4] == EncodeU32(words[0]);
      assert b[4..] == WordsToBytes(words[1..]);
      DecodeEncode(words[0]);
      BytesToWordsToBytes(words[1..]);
    }
  }

  lemma {:induction false} WordsToBytesToWords(b: seq<Byte>)
    requires |b| % 4 == 0
    ensures WordsToBytes(BytesToWords(b)) == b
  {
    if b != [] {
      EncodeDecode(b[..4]);
      WordsToBytesToWords(b[4..]);
      assert b == b[..4] + b[4..];
    }
  }

  // ---------------------------------------------------------------------------
  // Files

  /** Decoding a file written with the right number of words gives back its
      dimensions and words, whatever bytes follow the last word. */
  lemma FileRoundTrip(width: U32, height: U32, words: seq<U32>, rest: seq<Byte>)
    requires |words| == WordCount(PixelCount(width, height))
    ensures DecodeFile(EncodeFile(width, height, words) + rest) == Ok(Bitm(width, height, words))
  {
    var body := WordsToBytes(words);
    var s := EncodeFile(width, height, words) + rest;
    assert s == EncodeHeader(width, height) + (body + rest);
    HeaderRoundTrip(width, height, body + rest);
    EncodeHeaderLayout(width, height);
    assert s[HeaderSize..HeaderSize + 4 * |words|] == body;
    BytesToWordsToBytes(words);
  }

  /** Every outcome of decoding: a file too short for the magic, a wrong magic
      (checked before anything else is read), a file too short for width and
      height, a file shorter than its header-declared word count, or the
      header's dimensions with exactly that many words, which re-encode to the
      bytes they were read from. */
  lemma DecodeFileCases(s: seq<Byte>)
    ensures |s| < 4 ==> DecodeFile(s) == Err(TruncatedHeader)
    ensures |s| >= 4 && s[..4] != [0x42, 0x49, 0x54, 0x4D] ==> DecodeFile(s) == Err(InvalidMagic)
    ensures |s| >= 4 && s[..4] == [0x42, 0x49, 0x54, 0x4D] && |s| < HeaderSize ==>
      DecodeFile(s) == Err(TruncatedHeader)
    ensures |s| >= HeaderSize && s[..4] == [0x42, 0x49, 0x54, 0x4D] ==>
      var width, height := DecodeU32(s[4..8]), DecodeU32(s[8..12]);
      var size := HeaderSize + 4 * WordCount(PixelCount(width, height));
      && (|s| < size ==> DecodeFile(s) == Err(TruncatedData))
      && (size <= |s| ==>
            && DecodeFile(s).Ok?
            && DecodeFile(s).value.width == width
            && DecodeFile(s).value.height == height
            && |DecodeFile(s).value.words| == WordCount(PixelCount(width, height))
            && EncodeFile(width, height, DecodeFile(s).value.words) == s[..size])
  {
    DecodeHeaderCases(s);
    if |s| >= HeaderSize && s[..4] == [0x42, 0x49, 0x54, 0x4D] {
      var width, height := DecodeU32(s[4..8]), DecodeU32(s[8..12]);
      var size := HeaderSize + 4 * WordCount(PixelCount(width, height));
      if size <= |s| {
        EncodeDecode(s[4..8]);
        EncodeDecode(s[8..12]);
        MagicBytes();
        assert s[..size] == s[..4] + s[4..8] + s[8..12] + s[HeaderSize..size];
      }
    }
  }

  /** Trailing bytes after the last word are ignored. */
  lemma DecodeFileIgnoresTrailing(s: seq<Byte>, rest: seq<Byte>)
    requires DecodeFile(s).Ok?
    ensures DecodeFile(s + rest) == DecodeFile(s)
  {
    var bitm := DecodeFile(s).value;
    var size := HeaderSize + 4 * |bitm.words|;
    assert s + rest == EncodeFile(bitm.width, bitm.height, bitm.words) + (s[size..] + rest) by {
      assert s == s[..size] + s[size..];
    }
    FileRoundTrip(bitm.width, bitm.height, bitm.words, s[size..] + rest);
  }

  /** Converting a black-and-white image to BITM and back gives the image
      back. */
  lemma ImageRoundTrip(g: seq<seq<int>>, width: U32, height: U32)
    requires IsGrid(g, width, height) && IsBinary(g)
    ensures var decoded := DecodeFile(EncodeFile(width, height, Pack(Flatten(g))));
      && decoded == Ok(Bitm(width, height, Pack(Flatten(g))))
      && Unpack(decoded.value.words, width, height) == g
  {
    PackUnpackRoundTrip(g, width, height);
    FileRoundTrip(width, height, Pack(Flatten(g)), []);
    assert EncodeFile(width, height, Pack(Flatten(g))) + [] == EncodeFile(width, height, Pack(Flatten(g)));
  }

  /** A 4 x 2 all-black image is the header `42 49 54 4D 04 00 00 00 02 00 00 00`
      and the single word 0xFF: eight pixels fill the low byte of one word. */
  lemma FourByTwoAllBlack()
    ensures EncodeFile(4, 2, Pack(Flatten([[0, 0, 0, 0], [0, 0, 0, 0]]))) ==
      [0x42, 0x49, 0x54, 0x4D, 4, 0, 0, 0, 2, 0, 0, 0, 0xFF, 0, 0, 0]
  {
    EightBlackPixels();
    FourByTwoHeader();
    assert WordsToBytes([0xFF]) == [0xFF, 0, 0, 0] by {
      assert WordsToBytes([0xFF]) == EncodeU32(0xFF) + WordsToBytes([]);
    }
  }

  lemma FourByTwoHeader()
    ensures EncodeHeader(4, 2) == [0x42, 0x49, 0x54, 0x4D, 4, 0, 0, 0, 2, 0, 0, 0]
  {
    MagicBytes();
    assert EncodeU32(4) == [4, 0, 0, 0];
    assert EncodeU32(2) == [2, 0, 0, 0];
  }

  lemma EightBlackPixels()
    ensures Pack(Flatten([[0, 0, 0, 0], [0, 0, 0, 0]])) == [0xFF]
  {
    var row := [0, 0, 0, 0];
    assert [row, row][1..] == [row];
    assert Flatten([row]) == row + Flatten([]);
    EightBlackWord(Flatten([row, row]));
  }

  lemma EightBlackWord(px: seq<int>)
    requires |px| == 8 && forall k | 0 <= k < |px| :: px[k] == 0
    ensures Pack(px) == [0xFF]
  {
    var words := Pack(px);
    assert |words| == 1 && |px| % 32 == 8;
    PackAllBlack(px, 0);
    assert words[0] == 0xFF by {
      Bits.Pow2Values();
    }
  }

  // ---------------------------------------------------------------------------
  // The two conversions

  /** `convert_to_custom` after the image is loaded: pack the grid, then write
      the header and the words. */
  method ConvertToCustom(pixels: seq<seq<int>>, width: U32, height: U32) returns (file: seq<Byte>)
    requires IsGrid(pixels, width, height)
    ensures |file| == HeaderSize + 4 * WordCount(PixelCount(width, height))
    ensures DecodeFile(file) == Ok(Bitm(width, height, Pack(Flatten(pixels))))
    ensures file == EncodeFile(width, height, Pack(Flatten(pixels)))
  {
    var data := PackWords(pixels, width, height);
    file := EncodeU32(Magic) + EncodeU32(width) + EncodeU32(height);
    file := file + WordsToBytes(data[..]);
    FileRoundTrip(width, height, data[..], []);
    assert file + [] == file;
  }

  /** `convert_to_bmp` up to saving the image: read and check the header, read
      the words, and fill a fresh `width x height` image pixel by pixel. */
  method ConvertToBmp(file: seq<Byte>) returns (r: Result<array2<int>>)
    ensures r.Err? <==> DecodeFile(file).Err?
    ensures r.Err? ==> r.error == DecodeFile(file).error
    ensures r.Ok? ==>
      var bitm := DecodeFile(file).value;
      && fresh(r.value)
      && r.value.Length0 == bitm.width && r.value.Length1 == bitm.height
      && forall x, y | 0 <= x < bitm.width && 0 <= y < bitm.height ::
           r.value[x, y] == Unpack(bitm.words, bitm.width, bitm.height)[y][x]
  {
    var magic := ReadU32(file, 0);
    if magic.Err? {
      return Err(magic.error);
    }
    if magic.value != Magic {
      return Err(InvalidMagic);
    }
    var width := ReadU32(file, 4);
    if width.Err? {
      return Err(width.error);
    }
    var height := ReadU32(file, 8);
    if height.Err? {
      return Err(height.error);
    }
    var w, h := width.value, height.value;
    var data := ReadWords(file, HeaderSize, (PixelCount(w, h) + 31) / 32);
    if data.Err? {
      return Err(data.error);
    }
    var pixels := new int[w, h]((_, _) => 0);
    FillPixels(data.value, w, h, pixels);
    r := Ok(pixels);
  }
}
