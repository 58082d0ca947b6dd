/** colorDithering.js: Floyd-Steinberg run on the red, green and blue
    channels separately, each channel quantized to the nearest entry of a
    palette ([0, 255], or `levels` evenly spaced entries). */
module ColorDithering {
  import opened Pixels
  import opened Diffusion
  import opened Channels

  /** The palette of colorFloydSteinbergWithPalette and colorRandomWithPalette:
      entry i is Math.round(i / (levels - 1) * 255). */
  function Palette(levels: int): (palette: seq<int>)
    requires levels >= 2
    ensures |palette| == levels
  {
    seq(levels, i requires 0 <= i < levels => MathRound((i as real / (levels - 1) as real) * 255.0))
  }

  /** The palette of ditherChannel and ditherChannelRandom. */
  function TwoLevels(): seq<int>
  {
    [0, 255]
  }

  predicate IsPalette(palette: seq<int>)
  {
    |palette| > 0 && forall i :: 0 <= i < |palette| ==> 0 <= palette[i] <= 255
  }

  lemma FractionBounds(i: int, n: int)
    requires 0 <= i <= n && n > 0
    ensures 0.0 <= i as real / n as real <= 1.0
  {
  }

  /** The palette starts at black, ends at white and stays inside the byte range. */
  lemma PaletteRange(levels: int)
    requires levels >= 2
    ensures Palette(levels)[0] == 0 && Palette(levels)[levels - 1] == 255
    ensures IsPalette(Palette(levels))
  {
    forall i | 0 <= i < levels
      ensures 0 <= Palette(levels)[i] <= 255
    {
      FractionBounds(i, levels - 1);
    }
    assert (levels - 1) as real / (levels - 1) as real == 1.0;
  }

  lemma ScaleMono(a: real, b: real)
    requires a <= b
    ensures a * 255.0 <= b * 255.0
  {
  }

  /** Later entries are never darker. */
  lemma PaletteNondecreasing(levels: int, i: int, k: int)
    requires levels >= 2 && 0 <= i <= k < levels
    ensures Palette(levels)[i] <= Palette(levels)[k]
  {
    var n := (levels - 1) as real;
    assert i as real / n <= k as real / n;
    ScaleMono(i as real / n, k as real / n);
  }

  /** With at most 256 levels the entries are pairwise distinct: consecutive
      values before rounding are at least 1 apart. */
  lemma PaletteIncreasing(levels: int, i: int)
    requires 2 <= levels <= 256 && 0 <= i < levels - 1
    ensures Palette(levels)[i] < Palette(levels)[i + 1]
  {
    var n := (levels - 1) as real;
    var a := (i as real / n) * 255.0;
    var b := ((i + 1) as real / n) * 255.0;
    assert b - a == 255.0 / n;
    assert 255.0 / n >= 1.0;
  }

  /** The four-level palette used by applyDithering. */
  lemma PaletteOfFour()
    ensures Palette(4) == [0, 85, 170, 255]
  {
    assert (1 as real / 3 as real) * 255.0 == 85.0;
    assert (2 as real / 3 as real) * 255.0 == 170.0;
  }

  /** A level of the four-level palette is one of 0, 85, 170 and 255. */
  lemma InPaletteOfFour(v: int)
    requires v in Palette(4)
    ensures v in [0, 85, 170, 255]
  {
    PaletteOfFour();
  }

  /** The palette loop: one Math.round per level, pushed in order. */
  method BuildPalette(levels: int) returns (palette: seq<int>)
    requires levels >= 2
    ensures palette == Palette(levels)
  {
    palette := [];
    var i := 0;
    while i < levels
      invariant 0 <= i <= levels
      invariant palette == Palette(levels)[..i]
    {
      palette := palette + [MathRound((i as real / (levels - 1) as real) * 255.0)];
      i := i + 1;
    }
  }

  /** With the palette [0, 255] the nearest entry is 255 exactly above 127.5;
      the tie at 127.5 keeps the first entry. This differs from the threshold
      128 of the grayscale dithers on (127.5, 128). */
  lemma TwoLevelNearest(v: real)
    ensures Quantize(Nearest(TwoLevels()), v) == if v > 127.5 then 255.0 else 0.0
  {
    var k := ClosestIndex(TwoLevels(), v);
    if v > 127.5 {
      assert Abs(v - 255.0) < Abs(v - 0.0);
      assert k == 1;
    } else {
      assert Abs(v - 0.0) <= Abs(v - 255.0);
      assert k == 0;
    }
  }

  /** The Floyd-Steinberg pass of one channel buffer. */
  function ChannelDiffused(c: seq<real>, width: nat, height: nat, scale: real, palette: seq<int>): (r: seq<real>)
    requires |c| == width * height && scale != 0.0 && |palette| > 0
    ensures |r| == |c|
  {
    Diffused(c, width, height, scale, FloydSteinbergKernel(), Nearest(palette), width * height)
  }

  /** The image after all three channels were dithered with the palette. */
  function ColorDiffused(s: seq<int>, width: nat, height: nat, scale: real, palette: seq<int>): (r: seq<int>)
    requires |s| == width * height * 4 && scale != 0.0 && |palette| > 0
    ensures |r| == |s| && AlphaUnchanged(s, r)
  {
    Merged(s, ChannelDiffused(Channel(s, 0), width, height, scale, palette),
              ChannelDiffused(Channel(s, 1), width, height, scale, palette),
              ChannelDiffused(Channel(s, 2), width, height, scale, palette))
  }

  /** After the pass, sample p of a channel holds some palette entry i. */
  lemma ChannelLevel(ch: seq<real>, width: nat, height: nat, scale: real, palette: seq<int>, p: int) returns (i: int)
    requires |ch| == width * height && scale != 0.0 && |palette| > 0 && 0 <= p < |ch|
    ensures 0 <= i < |palette| && ChannelDiffused(ch, width, height, scale, palette)[p] == palette[i] as real
  {
    DiffusedQuantized(ch, width, height, scale, FloydSteinbergKernel(), Nearest(palette));
    assert IsLevel(Nearest(palette), ChannelDiffused(ch, width, height, scale, palette)[p]);
    i :| 0 <= i < |palette| && ChannelDiffused(ch, width, height, scale, palette)[p] == palette[i] as real;
  }

  /** Every R, G and B byte of the result is a palette entry, for any image and any scale. */
  lemma ColorDiffusedLevels(s: seq<int>, width: nat, height: nat, scale: real, palette: seq<int>, p: int, c: int)
    requires |s| == width * height * 4 && scale != 0.0 && IsPalette(palette) && 0 <= p < width * height && 0 <= c < 3
    ensures 4 * p + c < |s|
    ensures ColorDiffused(s, width, height, scale, palette)[4 * p + c] in palette
  {
    PixelCount(width * height);
    ColorByte(s, width, height, scale, palette, p, c);
    var i := ChannelLevel(Channel(s, c), width, height, scale, palette, p);
    StoreByte(palette[i]);
  }

  /** The same for byte j of the image, j not an alpha byte. */
  lemma ColorDiffusedInPalette(s: seq<int>, width: nat, height: nat, scale: real, palette: seq<int>, j: int)
    requires |s| == width * height * 4 && scale != 0.0 && IsPalette(palette) && 0 <= j < |s| && j % 4 != 3
    ensures ColorDiffused(s, width, height, scale, palette)[j] in palette
  {
    PixelCount(width * height);
    var p, c := j / 4, j % 4;
    assert j == 4 * p + c;
    ColorDiffusedLevels(s, width, height, scale, palette, p, c);
  }

  /** colorFloydSteinbergDithering leaves every R, G and B byte at 0 or 255. */
  lemma ColorBinary(s: seq<int>, width: nat, height: nat, scale: real, p: int, c: int)
    requires |s| == width * height * 4 && scale != 0.0 && 0 <= p < width * height && 0 <= c < 3
    ensures 4 * p + c < |s|
    ensures ColorDiffused(s, width, height, scale, TwoLevels())[4 * p + c] in {0, 255}
  {
    ColorDiffusedLevels(s, width, height, scale, TwoLevels(), p, c);
  }

  /** Byte c of pixel p of a colour-dithered image, read through channel c. */
  lemma ColorByte(s: seq<int>, width: nat, height: nat, scale: real, palette: seq<int>, p: int, c: int)
    requires |s| == width * height * 4 && scale != 0.0 && |palette| > 0 && 0 <= p < width * height && 0 <= c < 3
    ensures |s| % 4 == 0 && |s| / 4 == width * height && 4 * p + c < |s|
    ensures ColorDiffused(s, width, height, scale, palette)[4 * p + c]
      == ToByteClamped(ChannelDiffused(Channel(s, c), width, height, scale, palette)[p])
  {
    PixelCount(width * height);
    var red := ChannelDiffused(Channel(s, 0), width, height, scale, palette);
    var green := ChannelDiffused(Channel(s, 1), width, height, scale, palette);
    var blue := ChannelDiffused(Channel(s, 2), width, height, scale, palette);
    MergedByte(s, red, green, blue, p, c);
  }

  /** Each output channel is a function of the same input channel only. */
  lemma ColorChannelsIndependent(s: seq<int>, t: seq<int>, width: nat, height: nat, scale: real, palette: seq<int>, c: int)
    requires |s| == |t| == width * height * 4 && scale != 0.0 && |palette| > 0 && 0 <= c < 3
    requires Channel(s, c) == Channel(t, c)
    ensures forall p :: 0 <= p < width * height ==>
      ColorDiffused(s, width, height, scale, palette)[4 * p + c] == ColorDiffused(t, width, height, scale, palette)[4 * p + c]
  {
    forall p | 0 <= p < width * height
      ensures ColorDiffused(s, width, height, scale, palette)[4 * p + c] == ColorDiffused(t, width, height, scale, palette)[4 * p + c]
    {
      ColorByte(s, width, height, scale, palette, p, c);
      ColorByte(t, width, height, scale, palette, p, c);
    }
  }

  /** ditherChannel: Floyd-Steinberg on one buffer with the palette [0, 255]. */
  method DitherChannel(buffer: array<real>, width: nat, height: nat, scale: real)
    requires buffer.Length == width * height && scale != 0.0
    modifies buffer
    ensures buffer[..] == ChannelDiffused(old(buffer[..]), width, height, scale, TwoLevels())
  {
    Diffuse(buffer, width, height, scale, FloydSteinbergKernel(), Nearest(TwoLevels()));
  }

  /** ditherChannelWithPalette: the same pass with a caller-supplied palette. */
  method DitherChannelWithPalette(buffer: array<real>, width: nat, height: nat, scale: real, palette: seq<int>)
    requires buffer.Length == width * height && scale != 0.0 && |palette| > 0
    modifies buffer
    ensures buffer[..] == ChannelDiffused(old(buffer[..]), width, height, scale, palette)
  {
    Diffuse(buffer, width, height, scale, FloydSteinbergKernel(), Nearest(palette));
  }

  method ColorFloydSteinbergDithering(data: array<int>, width: nat, height: nat, scale: real)
    requires data.Length == width * height * 4 && scale != 0.0
    modifies data
    ensures data[..] == ColorDiffused(old(data[..]), width, height, scale, TwoLevels())
  {
    ghost var s0 := data[..];
    var red, green, blue := ExtractChannels(data, width, height);
    DitherChannel(red, width, height, scale);
    DitherChannel(green, width, height, scale);
    DitherChannel(blue, width, height, scale);
    assert data[..] == s0;
    WriteBack(data, width, height, red, green, blue);
  }

  method ColorFloydSteinbergWithPalette(data: array<int>, width: nat, height: nat, scale: real, levels: int)
    requires data.Length == width * height * 4 && scale != 0.0 && levels >= 2
    modifies data
    ensures data[..] == ColorDiffused(old(data[..]), width, height, scale, Palette(levels))
  {
    ghost var s0 := data[..];
    var palette := BuildPalette(levels);
    var red, green, blue := ExtractChannels(data, width, height);
    DitherChannelWithPalette(red, width, height, scale, palette);
    DitherChannelWithPalette(green, width, height, scale, palette);
    DitherChannelWithPalette(blue, width, height, scale, palette);
    assert data[..] == s0;
    WriteBack(data, width, height, red, green, blue);
  }
}
