# BITM bitmap converter, modelled in Dafny

The converter moves 1-bit-per-pixel images between an ordinary black-and-white
raster and "BITM", a small binary format for a monochrome display. A BITM file is:

- a 12-byte header of three unsigned 32-bit little-endian integers:
  - the magic `0x4D544942`, which is the ASCII bytes `B I T M`;
  - the width;
  - the height;
- then `(width * height + 31) // 32` little-endian 32-bit words.

Pixel `(x, y)` has the row-major index `i = y * width + x`. It is stored in bit
`i % 32` of word `i // 32`, least significant bit first. A set bit is a black pixel
(display value 0) and a clear bit is a white pixel (display value 255).

The model has one module per part of the converter:

- `Bits`: Python's `1 << k`, `(a >> k) & 1` and `a | b` on non-negative
  integers, defined by halving. Lemmas state how they act on single bits.
- `Errors`: the three ways reading a file fails, plus a `Result` type.
- `LittleEndian`: `write_uint32` / `read_uint32` as functions between a `U32`
  and four bytes. Reading from an in-memory byte sequence can fail.
- `Header`: the three header writes of `convert_to_custom` and the header reads
  of `convert_to_bmp`. The magic is checked before the dimensions are read.
- `Bitstream`: the word count, the pixel-to-bit index mapping, and the packer
  specified as a fold over the row-major pixels. It also holds:
  - the unpacker as a grid-valued function;
  - the imperative pack loop (`PackWords`/`PackRow`, over an `array` of
    words);
  - the imperative unpack loop (`FillPixels`, over an `array2` indexed
    `[x, y]` like PIL's pixel access);
  - the packer's laws: index mapping, polarity, padding, uniqueness, and both
    round trips.
- `BitmFile`: whole files. `ConvertToCustom` packs a grid and writes the
  header and the words. `ConvertToBmp` reads and checks the header, reads the
  words and fills a fresh image. Both are proved against the file-level
  functions `EncodeFile`/`DecodeFile`. Lemmas cover:
  - the file round trip;
  - every error outcome;
  - that trailing bytes are ignored;
  - the exact file length.

Words are integers below `2^32`, and bit operations are recursive arithmetic.
Files are byte sequences: each byte is a `nat` below 256.

Errors follow the code, not the names a reader of the format might expect:

- a file too short for the magic, or with the right magic but too short for
  the width and height, makes `struct.unpack` raise `struct.error`
  (`TruncatedHeader`);
- a wrong magic raises `ValueError` (`InvalidMagic`);
- a body shorter than the declared word count makes `array.fromfile` raise
  `EOFError` (`TruncatedData`).

## Model

| member | source | states |
|---|---|---|
| Bits.Pow2 | main.py:63 | `1 << k` is at least 1; Pow2Bits gives its single set bit |
| Bits.TestBit | main.py:35 | bit `k` of `a`, least significant first; a number with bit `k` set is at least `1 << k` |
| Bits.Or | main.py:63 | the bitwise or of `a` and `b` is at least each operand and at most their sum; OrBits gives its bits |
| Bits.TestBitIsShiftAndMask | main.py:35 | the bit test used throughout is `(a >> k) & 1 == 1`, i.e. `(a / 2^k) % 2 == 1` |
| Bits.Pow2Bits | main.py:63 | `1 << s` has bit `t` set exactly when `t == s` |
| Bits.OrBits | main.py:63 | bit `k` of the bitwise or of `a` and `b` is set exactly when it is set in `a` or in `b` |
| Bits.OrBound | main.py:63 | the bitwise or of `a` and `b` stays below `2^n` when both do, so or-ing in a bit below 32 keeps a 32-bit item in range |
| LittleEndian.EncodeU32 | main.py:9-10 | `write_uint32` writes exactly four bytes |
| LittleEndian.DecodeU32 | main.py:7 | `struct.unpack('<I')` reads the first byte as the value's low byte (`v % 256`) and the last byte as its high byte (`v // 2^24`) |
| LittleEndian.ReadU32 | main.py:6-7 | reading succeeds exactly when four bytes remain, and then yields the value whose encoding is those bytes; otherwise it fails with the `struct.error` kind |
| LittleEndian.DecodeEncode | main.py:6-10 | `read_uint32` returns what `write_uint32` wrote, for every 32-bit value |
| LittleEndian.EncodeDecode | main.py:6-10 | every four bytes are the encoding of the value they decode to |
| LittleEndian.EncodeInjective | main.py:6-10 | encoding and decoding are inverse bijections between 32-bit values and four-byte sequences |
| Header.EncodeHeader | main.py:68-70 | the written header is 12 bytes and starts with the bytes "BITM" |
| Header.DecodeHeader | main.py:15-20 | the magic is read and compared before width and height: first four bytes other than "BITM" fail with invalid magic whatever follows; a decoded header re-encodes to exactly the first 12 bytes of the input |
| Header.MagicBytes | main.py:16 | the magic `0x4D544942` is written as the bytes `42 49 54 4D` ("BITM") |
| Header.EncodeHeaderLayout | main.py:68-70 | the header is exactly 12 bytes: magic, width, height, each little-endian, and the width and height decode back from their slots |
| Header.HeaderRoundTrip | main.py:15-20 | decoding a written header, whatever follows it, returns the width and height that were written |
| Header.DecodeHeaderCases | main.py:15-20 | under 4 bytes fails truncated; first four bytes other than "BITM" fail with invalid magic whatever follows; a good magic with under 12 bytes fails truncated; otherwise the dimensions are the little-endian words at bytes 4 and 8 |
| Header.DecodeHeaderPrefix | main.py:15-20 | bytes after the first 12 do not affect the decoded header |
| Bitstream.PixelCount | main.py:24 | the image has `width * height` pixels, and there are none exactly when one dimension is 0 |
| Bitstream.WordCount | main.py:52 | `(n + 31) // 32` is the least number of 32-bit words holding `n` bits: `n <= 32c < n + 32` |
| Bitstream.LinearIndex | main.py:60 | the row-major index `y * width + x` of an in-range pixel is below `width * height` |
| Bitstream.RowMajorSplit | main.py:31-33 | every index below `width * height` is `y * width + x` for some in-range pixel `(x, y)` |
| Bitstream.Bit | main.py:33-35 | packed bit `i` is `(words[i // 32] >> (i % 32)) & 1 == 1`: bit `i % 32`, least significant first, of word `i // 32` |
| Bitstream.Flatten | main.py:58-59 | the row-major walk of the nested loops takes every pixel of every row and nothing else; FlattenAt gives the order |
| Bitstream.FlattenLength | main.py:58-59 | the row-major walk visits `width * height` pixels |
| Bitstream.FlattenAt | main.py:58-61 | the row-major walk visits pixel `(x, y)` at index `y * width + x` |
| Bitstream.OrBit | main.py:63 | or-ing `1 << bit_index` into a word, with `bit_index < 32`, gives a 32-bit value and never decreases the word |
| Bitstream.OrBitBits | main.py:63 | after or-ing in `1 << bit_index`, bit `t` is set exactly when `t` is `bit_index` or bit `t` was already set |
| Bitstream.SetBit | main.py:63 | setting bit `i % 32` of word `i // 32` changes only word `i // 32` and keeps the word count |
| Bitstream.SetBitBits | main.py:63 | after the update, bit `k` is set exactly when `k` is the updated bit or `k` was already set: no bit is ever cleared |
| Bitstream.PackPrefix | main.py:55-63 | the words after any number of loop steps are always `(n + 31) // 32` of them |
| Bitstream.PackStep | main.py:60-63 | the unfolding of the fold that the inner loop follows: one loop step ORs bit `i % 32` into word `i // 32` when the pixel is 0, and leaves the words unchanged otherwise |
| Bitstream.PackPrefixBits | main.py:58-63 | after the first `i` steps, bit `k` is set exactly when `k < i` and pixel `k` is black (0) |
| Bitstream.PackBits | main.py:55-63 | the packed stream has `(n + 31) // 32` words, and bit `k` is set exactly when `k < n` and the `k`-th row-major pixel is 0 |
| Bitstream.PackUnique | main.py:55-63 | the packed words are the only word sequence of that length with those bits |
| Bitstream.PackPadding | main.py:55-63 | when `n % 32 != 0`, the last word is below `2^(n % 32)`: its padding bits stay zero |
| Bitstream.PackAllWhite | main.py:55-63 | a grid with no 0 pixel packs to all-zero words |
| Bitstream.PackAllBlack | main.py:55-63 | an all-black grid packs to `0xFFFFFFFF` words, except that a partial last word is `2^(n % 32) - 1` |
| Bitstream.Display | main.py:36 | a set bit is displayed as 0 (black) and a clear bit as 255 (white), and no other value occurs |
| Bitstream.Pack | main.py:55-63 | the packing of `n` pixels has `(n + 31) // 32` words; PackBits gives each of their bits |
| Bitstream.Unpack | main.py:27-36 | the unpacked image is a grid of `height` rows of `width` pixels |
| Bitstream.UnpackIgnoresPadding | main.py:31-35 | unpacking reads only bits below `width * height`: words agreeing on those bits unpack to the same grid |
| Bitstream.PackUnpackRoundTrip | main.py:31-63 | unpacking the packed words of a black-and-white grid gives the grid back |
| Bitstream.UnpackPackRoundTrip | main.py:31-63 | words of the right count whose padding bits are clear are exactly the packing of the grid they unpack to |
| Bitstream.PackWords | main.py:52-63 | the nested pack loop returns a fresh array of `(w*h + 31) // 32` words equal to the packing of the row-major pixels |
| Bitstream.PackRow | main.py:59-63 | the inner loop over one row advances the words by exactly that row's `width` pack steps |
| Bitstream.FillPixels | main.py:31-36 | after the nested unpack loop, each `pixels[x, y]` is 0 when bit `y * width + x` is set and 255 when it is clear |
| BitmFile.WordsToBytes | main.py:73 | `data.tofile` writes four bytes per word |
| BitmFile.BytesToWords | main.py:24 | a byte sequence of length `4n` holds `n` words |
| BitmFile.BytesToWordsToBytes | main.py:73 | reading back the bytes written by `tofile` gives the same words |
| BitmFile.WordsToBytesToWords | main.py:24 | the words read by `fromfile` re-encode to exactly the bytes read |
| BitmFile.ReadWords | main.py:23-24 | reading `n` words succeeds exactly when `4n` bytes remain, and the words re-encode to those bytes; otherwise it fails with the `EOFError` kind |
| BitmFile.EncodeFile | main.py:66-73 | a written file is 12 bytes plus four per word and starts with the bytes "BITM" |
| BitmFile.DecodeFile | main.py:13-24 | a successful read has exactly `(w*h + 31) // 32` words, and the header and words it returns re-encode to exactly the first `12 + 4 * words` bytes of the file |
| BitmFile.FileRoundTrip | main.py:13-24 | reading a file written with `(w*h + 31) // 32` words, with any trailing bytes, returns its width, height and words |
| BitmFile.DecodeFileCases | main.py:13-24 | each outcome of reading a file: truncated header, invalid magic (checked first), truncated header after a good magic, truncated data when under `12 + 4 * ((w*h + 31) // 32)` bytes, or success with exactly that many words, which re-encode to the bytes read |
| BitmFile.DecodeFileIgnoresTrailing | main.py:23-24 | bytes after the last word do not change what a readable file decodes to |
| BitmFile.ImageRoundTrip | main.py:12-73 | converting a black-and-white grid to BITM and reading it back gives the same dimensions and the same grid |
| BitmFile.FourByTwoAllBlack | main.py:52-73 | a 4 x 2 all-black image is written as `42 49 54 4D 04 00 00 00 02 00 00 00 FF 00 00 00` |
| BitmFile.ConvertToCustom | main.py:41-73 | the written file is `12 + 4 * ((w*h + 31) // 32)` bytes: the header, then the packing of the grid, and it reads back to the same dimensions and words |
| BitmFile.ConvertToBmp | main.py:12-36 | fails exactly when the file cannot be read, with the same error; otherwise returns a fresh `width x height` image whose pixels are the unpacking of the words read |

## Left out

- PIL (`Image.new`, `Image.open`, `img.load`, `img.save`, `img.convert('1')`, main.py:27-28, 39, 43-49) is a foreign library. The packer takes the image as a `seq<seq<int>>` grid of rows. The unpacker fills a caller-allocated `array2<int>`. The round trip assumes pixels in {0, 255}, which is what `convert('1')` produces.
- File I/O (`open`, `read`, `write`, `fromfile`, `tofile`) is not modelled. Files are in-memory byte sequences, and positions are explicit offsets. Failures of the operating system (missing file, permissions, full disk) are not modelled.
- The batch drivers `batch_bmp_to_custom` and `batch_custom_to_bmp` (main.py:76-89) are not modelled: they are file-name handling and progress printing.
- The module-level usage example (main.py:92-101) is not modelled: it is inert configuration.
- The `ValueError` for a wrong magic names the input file in its message. In-memory files have no path, so `InvalidMagic` carries no message.
- `array('I')` uses the platform's native item size and byte order. The model fixes words as 32-bit little-endian, matching the header.
- BitmFile.ConvertToCustom takes width and height as 32-bit values. `write_uint32` raising `struct.error` for a dimension of `2^32` or more is therefore not modelled.
- Bitstream.PackWords takes the grid as a read-only value and the pixel as any integer. Only a pixel equal to 0 sets a bit, as in the source.
- Bitstream.PackRow is the inner `for x` loop of the pack loop, written as a method of its own. The two nested loops are one loop nest in the source.
