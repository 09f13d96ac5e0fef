/** The packed bitstream of a BITM image and the two loops that convert
    between it and a monochrome pixel grid.

    A pixel grid is a sequence of `height` rows of `width` display values
    (`g[y][x]`): 0 is black and 255 is white. Pixel `(x, y)` has the row-major
    linear index `i = y * width + x`; its packed bit is bit `i % 32` (least
    significant first) of word `i / 32`, and a set bit means black. */
module Bitstream {
  import opened Bits
  import opened LittleEndian

  /** `width * height`: the number of pixels of an image. The file-level
      code spells the product through this function so that its `nat` result
      type, rather than a nonlinear proof at each use, gives the product's sign;
      the body is the product itself, so both spellings are interchangeable. */
  function PixelCount(width: nat, height: nat): (n: nat)
    ensures n == 0 <==> width == 0 || height == 0
  {
    if width > 0 && height > 0 then MulMonotone(width, 1, height); width * height
    else width * height
  }

  /** `(n + 31) // 32`: the number of 32-bit words that hold `n` pixels. */
  function WordCount(n: nat): (c: nat)
    ensures 32 * c >= n && 32 * c < n + 32
  {
    (n + 31) / 32
  }

  /** Packed bit `i`: `(words[i // 32] >> (i % 32)) & 1 == 1`. */
  predicate Bit(words: seq<U32>, i: nat)
    requires i / 32 < |words|
    ensures Bit(words, i) == ((words[i / 32] / Pow2(i % 32)) % 2 == 1)
  {
    TestBitIsShiftAndMask(words[i / 32], i % 32);
    TestBit(words[i / 32], i % 32)
  }

  /** `word | (1 << bitIndex)`, which still fits a 32-bit array item because
      `bitIndex < 32`, and never decreases the word. */
  function OrBit(word: U32, bitIndex: nat): (r: U32)
    requires bitIndex < 32
    ensures word <= r
  {
    Pow2Values();
    Pow2Increasing(bitIndex, 32);
    OrBound(word, Pow2(bitIndex), 32);
    Or(word, Pow2(bitIndex))
  }

  /** `words[i // 32] |= 1 << (i % 32)`: one word changes, and no other. */
  function SetBit(words: seq<U32>, i: nat): (r: seq<U32>)
    requires i / 32 < |words|
    ensures |r| == |words|
    ensures forall j | 0 <= j < |words| && j != i / 32 :: r[j] == words[j]
  {
    words[i / 32 := OrBit(words[i / 32], i % 32)]
  }

  /** Display value of a pixel whose packed bit is `bit`: black (0) for a set
      bit, white (255) for a clear one. */
  function Display(bit: bool): (v: int)
    ensures v == 0 <==> bit
    ensures v == 0 || v == 255
  {
    if bit then 0 else 255
  }

  predicate IsGrid(g: seq<seq<int>>, width: nat, height: nat)
  {
    |g| == height && forall y | 0 <= y < height :: |g[y]| == width
  }

  /** Every pixel is black (0) or white (255), as after `img.convert('1')`. */
  predicate IsBinary(g: seq<seq<int>>)
  {
    forall y, x | 0 <= y < |g| && 0 <= x < |g[y]| :: g[y][x] == 0 || g[y][x] == 255
  }

  /** The pixels of a grid in row-major order: every pixel of every row,
      and nothing else. */
  function Flatten(g: seq<seq<int>>): (px: seq<int>)
    ensures forall row, v | row in g && v in row :: v in px
    ensures forall v | v in px :: exists row | row in g :: v in row
  {
    if g == [] then [] else g[0] + Flatten(g[1..])
  }

  /** `y * width + x`, the row-major linear index of pixel `(x, y)`. */
  function LinearIndex(width: nat, height: nat, x: nat, y: nat): (i: nat)
    requires x < width && y < height
    ensures i < width * height
  {
    MulMonotone(width, y + 1, height);
    y * width + x
  }

  /** The packed words after the row-major walk has handled the first `i`
      pixels of `px`: zero words, with the bit of every black pixel before
      `i` ORed in. */
  function PackPrefix(px: seq<int>, i: nat): (r: seq<U32>)
    requires i <= |px|
    ensures |r| == WordCount(|px|)
  {
    if i == 0 then seq(WordCount(|px|), _ => 0)
    else
      var prev := PackPrefix(px, i - 1);
      if px[i - 1] == 0 then SetBit(prev, i - 1) else prev
  }

  /** The words `convert_to_custom` writes for the row-major pixels `px`. */
  function Pack(px: seq<int>): (words: seq<U32>)
    ensures |words| == WordCount(|px|)
  {
    PackPrefix(px, |px|)
  }

  /** The grid `convert_to_bmp` fills from `words`. */
  function Unpack(words: seq<U32>, width: nat, height: nat): (g: seq<seq<int>>)
    requires WordCount(width * height) <= |words|
    ensures IsGrid(g, width, height)
  {
    seq(height, y requires 0 <= y < height =>
      seq(width, x requires 0 <= x < width =>
        Display(Bit(words, LinearIndex(width, height, x, y)))))
  }

  // ---------------------------------------------------------------------------
  // Row-major indexing

  lemma RowMajorSplit(width: nat, height: nat, i: nat) returns (x: nat, y: nat)
    requires i < width * height
    ensures x < width && y < height && i == y * width + x
  {
    x, y := i % width, i / width;
    if y >= height {
      MulMonotone(width, height, y);
    }
  }

  lemma {:induction false} FlattenLength(g: seq<seq<int>>, width: nat, height: nat)
    requires IsGrid(g, width, height)
    ensures |Flatten(g)| == width * height
  {
    if g != [] {
      FlattenLength(g[1..], width, height - 1);
    }
  }

  /** Pixel `(x, y)` sits at the row-major index `y * width + x`. */
  lemma {:induction false} FlattenAt(g: seq<seq<int>>, width: nat, height: nat, x: nat, y: nat)
    requires IsGrid(g, width, height) && x < width && y < height
    ensures y * width + x < |Flatten(g)| && Flatten(g)[y * width + x] == g[y][x]
  {
    FlattenLength(g, width, height);
    if y > 0 {
      FlattenAt(g[1..], width, height - 1, x, y - 1);
      assert y * width + x == width + ((y - 1) * width + x);
    }
  }

  // ---------------------------------------------------------------------------
  // Bits of the packed words

  /** Setting bit `i` sets it and leaves every other bit as it was: no bit is
      ever cleared. */
  lemma SetBitBits(words: seq<U32>, i: nat, k: nat)
    requires i / 32 < |words| && k / 32 < |words|
    ensures Bit(SetBit(words, i), k) <==> k == i || Bit(words, k)
  {
    if k / 32 == i / 32 {
      OrBitBits(words[i / 32], i % 32, k % 32);
    }
  }

  /** `word | (1 << bitIndex)` has bit `t` set exactly when `t` is `bitIndex`
      or bit `t` of `word` is set. */
  lemma OrBitBits(word: U32, bitIndex: nat, t: nat)
    requires bitIndex < 32
    ensures TestBit(OrBit(word, bitIndex), t) <==> t == bitIndex || TestBit(word, t)
  {
    OrBits(word, Pow2(bitIndex), t);
    Pow2Bits(bitIndex, t);
  }

  lemma {:induction false} PackPrefixBits(px: seq<int>, i: nat, k: nat)
    requires i <= |px| && k < 32 * WordCount(|px|)
    ensures Bit(PackPrefix(px, i), k) <==> k < i && px[k] == 0
  {
    if i == 0 {
      ZeroHasNoBits(k % 32);
    } else {
      PackPrefixBits(px, i - 1, k);
      if px[i - 1] == 0 {
        SetBitBits(PackPrefix(px, i - 1), i - 1, k);
      }
    }
  }

  /** Index mapping and polarity of the packer: bit `k` of the packed stream is
      set exactly when `k` is a pixel index and that pixel is black (0); every
      non-zero pixel and every padding position leaves its bit clear. */
  lemma PackBits(px: seq<int>, k: nat)
    requires k < 32 * WordCount(|px|)
    ensures |Pack(px)| == WordCount(|px|)
    ensures Bit(Pack(px), k) <==> k < |px| && px[k] == 0
  {
    PackPrefixBits(px, |px|, k);
  }

  /** Two word sequences of the same length with the same bits are equal. */
  lemma WordsExtensional(a: seq<U32>, b: seq<U32>)
    requires |a| == |b|
    requires forall k: nat | k < 32 * |a| :: Bit(a, k) == Bit(b, k)
    ensures a == b
  {
    Pow2Values();
    forall j | 0 <= j < |a|
      ensures a[j] == b[j]
    {
      forall t: nat
        ensures TestBit(a[j], t) == TestBit(b[j], t)
      {
        if t < 32 {
          assert Bit(a, 32 * j + t) == Bit(b, 32 * j + t);
        } else {
          BitsBelow(a[j], 32, t);
          BitsBelow(b[j], 32, t);
        }
      }
      BitsExtensional(a[j], b[j]);
    }
  }

  /** The packed words are the only word sequence of the right length whose
      bit `k` is set exactly for the black pixels. */
  lemma PackUnique(px: seq<int>, words: seq<U32>)
    requires |words| == WordCount(|px|)
    requires forall k: nat | k < 32 * |words| :: Bit(words, k) <==> k < |px| && px[k] == 0
    ensures words == Pack(px)
  {
    forall k: nat | k < 32 * |words|
      ensures Bit(words, k) == Bit(Pack(px), k)
    {
      PackBits(px, k);
    }
    WordsExtensional(words, Pack(px));
  }

  /** Padding: when the pixel count is not a multiple of 32, the unused high
      bits of the last word are zero, so the word is below `2^(n % 32)`. */
  lemma PackPadding(px: seq<int>)
    requires |px| % 32 != 0
    ensures Pack(px)[|Pack(px)| - 1] < Pow2(|px| % 32)
  {
    var words, n := Pack(px), |px|;
    var last := |words| - 1;
    assert 32 * last + n % 32 == n;
    Pow2Values();
    forall t: nat | n % 32 <= t
      ensures !TestBit(words[last], t)
    {
      if t < 32 {
        PackBits(px, 32 * last + t);
        assert (32 * last + t) / 32 == last;
      } else {
        BitsBelow(words[last], 32, t);
      }
    }
    BoundFromBits(words[last], n % 32);
  }

  /** Polarity: an all-white grid packs to zero words. */
  lemma {:induction false} PackAllWhite(px: seq<int>, i: nat)
    requires i <= |px|
    requires forall k | 0 <= k < |px| :: px[k] != 0
    ensures PackPrefix(px, i) == seq(WordCount(|px|), _ => 0)
  {
    if i > 0 {
      PackAllWhite(px, i - 1);
    }
  }

  /** Polarity: an all-black grid packs to words of all ones, except that the
      last word holds only as many ones as there are pixels left for it. */
  lemma PackAllBlack(px: seq<int>, j: nat)
    requires forall k | 0 <= k < |px| :: px[k] == 0
    requires j < WordCount(|px|)
    ensures 32 * (j + 1) <= |px| ==> Pack(px)[j] == 0xFFFF_FFFF
    ensures |px| < 32 * (j + 1) ==> Pack(px)[j] == Pow2(|px| % 32) - 1
  {
    var words, n := Pack(px), |px|;
    var ones := if 32 * (j + 1) <= n then 32 else n % 32;
    if n < 32 * (j + 1) {
      DivUnique(n, 32, j, n - 32 * j);
    }
    assert 32 * j + ones <= n && (ones < 32 ==> n == 32 * j + ones);
    forall t: nat | t < 32
      ensures TestBit(words[j], t) <==> t < ones
    {
      var k := 32 * j + t;
      PackBits(px, k);
      DivUnique(k, 32, j, t);
      assert k < n <==> t < ones;
    }
    LowOnes(words[j], ones);
    Pow2Values();
  }

  /** A word whose bits below 32 are exactly the `ones` lowest ones is `2^ones - 1`. */
  lemma LowOnes(word: U32, ones: nat)
    requires ones <= 32
    requires forall t: nat | t < 32 :: TestBit(word, t) <==> t < ones
    ensures word == Pow2(ones) - 1
  {
    Pow2Values();
    if ones < 32 {
      Pow2Increasing(ones, 32);
    }
    forall t: nat
      ensures TestBit(word, t) == TestBit(Pow2(ones) - 1, t)
    {
      AllOnesBits(ones, t);
      if t >= 32 {
        BitsBelow(word, 32, t);
      }
    }
    BitsExtensional(word, Pow2(ones) - 1);
  }

  // ---------------------------------------------------------------------------
  // Unpacking and the round trips

  /** Unpacking reads only the bits of the first `width * height` positions:
      two word sequences that agree there unpack to the same grid, whatever
      their padding bits and whatever words follow. */
  lemma UnpackIgnoresPadding(a: seq<U32>, b: seq<U32>, width: nat, height: nat)
    requires WordCount(width * height) <= |a| && WordCount(width * height) <= |b|
    requires forall k: nat | k < width * height :: Bit(a, k) == Bit(b, k)
    ensures Unpack(a, width, height) == Unpack(b, width, height)
  {
    var ga, gb := Unpack(a, width, height), Unpack(b, width, height);
    forall y | 0 <= y < height
      ensures ga[y] == gb[y]
    {
      forall x | 0 <= x < width
        ensures ga[y][x] == gb[y][x]
      {
        var i := LinearIndex(width, height, x, y);
        assert Bit(a, i) == Bit(b, i);
      }
    }
  }

  /** Round trip: packing a black-and-white grid and unpacking the words gives
      the grid back. */
  lemma PackUnpackRoundTrip(g: seq<seq<int>>, width: nat, height: nat)
    requires IsGrid(g, width, height) && IsBinary(g)
    ensures |Pack(Flatten(g))| == WordCount(width * height)
    ensures Unpack(Pack(Flatten(g)), width, height) == g
  {
    var px := Flatten(g);
    FlattenLength(g, width, height);
    var u := Unpack(Pack(px), width, height);
    forall y | 0 <= y < height
      ensures u[y] == g[y]
    {
      forall x | 0 <= x < width
        ensures u[y][x] == g[y][x]
      {
        var i := LinearIndex(width, height, x, y);
        FlattenAt(g, width, height, x, y);
        PackBits(px, i);
      }
    }
  }

  /** The other round trip: words whose padding bits are clear are what
      packing their own unpacked grid produces. */
  lemma UnpackPackRoundTrip(words: seq<U32>, width: nat, height: nat)
    requires |words| == WordCount(width * height)
    requires forall k: nat | width * height <= k < 32 * |words| :: !Bit(words, k)
    ensures Pack(Flatten(Unpack(words, width, height))) == words
  {
    var g := Unpack(words, width, height);
    var px := Flatten(g);
    FlattenLength(g, width, height);
    forall k: nat | k < 32 * |words|
      ensures Bit(words, k) <==> k < |px| && px[k] == 0
    {
      if k < width * height {
        var x, y := RowMajorSplit(width, height, k);
        FlattenAt(g, width, height, x, y);
      }
    }
    PackUnique(px, words);
  }

  // ---------------------------------------------------------------------------
  // The two loops

  /** Row `y` follows rows `0 .. y - 1` in the row-major order. */
  lemma FlattenRows(g: seq<seq<int>>, width: nat, height: nat, y: nat)
    requires IsGrid(g, width, height) && y < height
    ensures Flatten(g[..y + 1]) == Flatten(g[..y]) + g[y]
    ensures |Flatten(g[..y])| + width <= |Flatten(g)|
  {
    assert g[..y + 1] == g[..y] + [g[y]];
    FlattenAppend(g[..y], [g[y]]);
    assert g == g[..y + 1] + g[y + 1..];
    FlattenAppend(g[..y + 1], g[y + 1..]);
  }

  lemma {:induction false} FlattenAppend(a: seq<seq<int>>, b: seq<seq<int>>)
    ensures Flatten(a + b) == Flatten(a) + Flatten(b)
  {
    if a == [] {
      assert a + b == b;
    } else {
      assert (a + b)[0] == a[0] && (a + b)[1..] == a[1..] + b;
      FlattenAppend(a[1..], b);
    }
  }

  /** One step of the pack loop, seen on the words. */
  lemma PackStep(px: seq<int>, i: nat, before: seq<U32>)
    requires i < |px| && before == PackPrefix(px, i)
    ensures px[i] == 0 ==> PackPrefix(px, i + 1) == before[i / 32 := OrBit(before[i / 32], i % 32)]
    ensures px[i] != 0 ==> PackPrefix(px, i + 1) == before
  {
  }

  /** The pack loop of `convert_to_custom`: a zero-filled word array, then
      `data[word_index] |= 1 << bit_index` for every black pixel, row by row. */
  method PackWords(pixels: seq<seq<int>>, width: nat, height: nat) returns (data: array<U32>)
    requires IsGrid(pixels, width, height)
    ensures fresh(data)
    ensures data.Length == WordCount(width * height)
    ensures data[..] == Pack(Flatten(pixels))
  {
    ghost var px := Flatten(pixels);
    FlattenLength(pixels, width, height);
    var wordCount := (width * height + 31) / 32;
    data := new U32[wordCount](_ => 0);
    ghost var rowStart: nat := 0;
    for y := 0 to height
      invariant rowStart == |Flatten(pixels[..y])| <= |px|
      invariant data[..] == PackPrefix(px, rowStart)
    {
      FlattenRows(pixels, width, height, y);
      PackRow(pixels, width, height, y, rowStart, data);
      rowStart := rowStart + width;
    }
    assert pixels[..height] == pixels;
  }

  /** The inner `for x in range(width)` loop of the pack loop, for row `y`,
      whose first pixel has the linear index `rowStart`. */
  method PackRow(pixels: seq<seq<int>>, width: nat, height: nat, y: nat, ghost rowStart: nat,
                 data: array<U32>)
    requires IsGrid(pixels, width, height) && y < height
    requires rowStart == |Flatten(pixels[..y])| && rowStart + width <= |Flatten(pixels)|
    requires data[..] == PackPrefix(Flatten(pixels), rowStart)
    modifies data
    ensures data[..] == PackPrefix(Flatten(pixels), rowStart + width)
  {
    ghost var px := Flatten(pixels);
    FlattenLength(pixels[..y], width, y);
    assert rowStart == y * width;
    for x := 0 to width
      invariant data[..] == PackPrefix(px, rowStart + x)
    {
      var i := LinearIndex(width, height, x, y);
      FlattenAt(pixels, width, height, x, y);
      PackStep(px, i, data[..]);
      var wordIndex := i / 32;
      var bitIndex := i % 32;
      if pixels[y][x] == 0 {
        ghost var before := data[..];
        data[wordIndex] := OrBit(data[wordIndex], bitIndex);
        assert data[..] == before[wordIndex := OrBit(before[wordIndex], bitIndex)];
      }
    }
  }

  /** The unpack loop of `convert_to_bmp`: `pixels[x, y]` becomes 255 when bit
      `y * width + x` of the words is clear and 0 when it is set. */
  method FillPixels(words: seq<U32>, width: nat, height: nat, pixels: array2<int>)
    requires WordCount(width * height) <= |words|
    requires pixels.Length0 == width && pixels.Length1 == height
    modifies pixels
    ensures forall x, y | 0 <= x < width && 0 <= y < height ::
      pixels[x, y] == Unpack(words, width, height)[y][x]
  {
    for y := 0 to height
      invariant forall x', y' | 0 <= x' < width && 0 <= y' < y ::
        pixels[x', y'] == Unpack(words, width, height)[y'][x']
    {
      for x := 0 to width
        invariant forall x', y' | 0 <= x' < width && 0 <= y' < y ::
          pixels[x', y'] == Unpack(words, width, height)[y'][x']
        invariant forall x' | 0 <= x' < x :: pixels[x', y] == Unpack(words, width, height)[y][x']
      {
        var i := LinearIndex(width, height, x, y);
        var wordIndex := i / 32;
        var bitIndex := i % 32;
        var pixel := TestBit(words[wordIndex], bitIndex);
        pixels[x, y] := if !pixel then 255 else 0;
      }
    }
  }
}
