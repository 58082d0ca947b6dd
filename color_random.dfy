/** colorRandomDithering.js: random thresholding run on the red, green and
    blue channels separately. Math.random's successive results are given as
    a sequence of draws; the red channel consumes the first width * height of
    them, then green, then blue. */
module ColorRandom {
  import opened Pixels
  import opened Channels
  import opened Dithering
  import opened ColorDithering

  /** How many draws the channels before channel c consumed: c * n. */
  function DrawOffset(n: nat, c: int): (k: nat)
    requires 0 <= c < 3
    ensures k + n <= 3 * n
  {
    if c == 0 then 0 else if c == 1 then n else 2 * n
  }

  /** The draws consumed by channel c of an image of n pixels. */
  function ChannelDraws(draws: seq<real>, n: nat, c: int): (d: seq<real>)
    requires |draws| >= 3 * n && 0 <= c < 3
    ensures |d| == n
    ensures forall p :: 0 <= p < n ==> d[p] == draws[DrawOffset(n, c) + p]
    ensures NonNegative(draws) ==> NonNegative(d)
  {
    if c == 0 then draws[..n] else if c == 1 then draws[n..2 * n] else draws[2 * n..3 * n]
  }

  /** Channel c after ditherChannelRandom, with the draws that channel consumes. */
  function RandomChannel(s: seq<int>, draws: seq<real>, scale: real, c: int): (r: seq<real>)
    requires |s| % 4 == 0 && |draws| >= 3 * (|s| / 4) && 0 <= c < 3
    ensures |r| == |s| / 4
  {
    RandomDithered(Channel(s, c), ChannelDraws(draws, |s| / 4, c), scale)
  }

  /** colorRandomDithering: each channel through randomDithering's rule with its own draws. */
  function ColorRandomDithered(s: seq<int>, draws: seq<real>, scale: real): (r: seq<int>)
    requires |s| % 4 == 0 && |draws| >= 3 * (|s| / 4)
    ensures |r| == |s| && AlphaUnchanged(s, r)
  {
    Merged(s, RandomChannel(s, draws, scale, 0), RandomChannel(s, draws, scale, 1), RandomChannel(s, draws, scale, 2))
  }

  /** Sample p of channel c compares byte c of pixel p with its own draw. */
  lemma RandomChannelAt(s: seq<int>, draws: seq<real>, scale: real, c: int, p: int)
    requires |s| % 4 == 0 && |draws| >= 3 * (|s| / 4) && 0 <= c < 3 && 0 <= p < |s| / 4
    ensures 4 * p + c < |s| && 0 <= DrawOffset(|s| / 4, c) + p < |draws|
    ensures RandomChannel(s, draws, scale, c)[p]
      == if (s[4 * p + c] as real) < DrawThreshold(draws[DrawOffset(|s| / 4, c) + p], scale) then 0.0 else 255.0
  {
    var own, ownDraws := Channel(s, c), ChannelDraws(draws, |s| / 4, c);
    assert own[p] == s[4 * p + c] as real && ownDraws[p] == draws[DrawOffset(|s| / 4, c) + p];
    RandomThreshold(own, ownDraws, scale, p);
  }

  /** Byte c of pixel p is black exactly when it was below its own draw times
      255 * scale, and white otherwise; the other channels play no part. */
  lemma ColorRandomThreshold(s: seq<int>, draws: seq<real>, scale: real, p: int, c: int)
    requires |s| % 4 == 0 && |draws| >= 3 * (|s| / 4) && 0 <= p < |s| / 4 && 0 <= c < 3
    ensures 4 * p + c < |s| && 0 <= DrawOffset(|s| / 4, c) + p < |draws|
    ensures ColorRandomDithered(s, draws, scale)[4 * p + c]
      == if (s[4 * p + c] as real) < DrawThreshold(draws[DrawOffset(|s| / 4, c) + p], scale) then 0 else 255
  {
    MergedByte(s, RandomChannel(s, draws, scale, 0), RandomChannel(s, draws, scale, 1), RandomChannel(s, draws, scale, 2), p, c);
    RandomChannelAt(s, draws, scale, c, p);
  }

  method ColorRandomDithering(data: array<int>, width: nat, height: nat, scale: real, draws: seq<real>)
    requires data.Length == width * height * 4 && |draws| >= 3 * (width * height)
    modifies data
    ensures data[..] == ColorRandomDithered(old(data[..]), draws, scale)
  {
    PixelCount(width * height);
    var n := width * height;
    var red, green, blue := ExtractChannels(data, width, height);
    assert n == data.Length / 4;
    RandomDithering(red, width, height, scale, ChannelDraws(draws, n, 0));
    RandomDithering(green, width, height, scale, ChannelDraws(draws, n, 1));
    RandomDithering(blue, width, height, scale, ChannelDraws(draws, n, 2));
    WriteBack(data, width, height, red, green, blue);
  }

  /** Math.floor(threshold / 255 * length). */
  function Band(threshold: real, length: int): int
  {
    ((threshold / 255.0) * length as real).Floor
  }

  /** Math.min(Math.floor(threshold / 255 * length), length - 1). */
  function PaletteIndex(threshold: real, length: int): int
  {
    if Band(threshold, length) < length - 1 then Band(threshold, length) else length - 1
  }

  /** For a threshold t >= 0 the index is a valid position. */
  lemma PaletteIndexInRange(t: real, length: int)
    requires t >= 0.0 && length > 0
    ensures 0 <= PaletteIndex(t, length) < length
  {
  }

  /** Entry k is chosen exactly when t lies in the k-th of length equal bands
      of [0, 255), the last entry also taking every t from its band upwards. */
  lemma PaletteIndexBands(t: real, length: int, k: int)
    requires t >= 0.0 && length > 0 && 0 <= k < length
    ensures PaletteIndex(t, length) == k <==>
      (k as real <= (t / 255.0) * length as real && (k == length - 1 || (t / 255.0) * length as real < (k + 1) as real))
  {
  }

  predicate NonNegative(draws: seq<real>)
  {
    forall i :: 0 <= i < |draws| ==> draws[i] >= 0.0
  }

  /** The sample that ditherChannelRandomWithPalette writes at p: the entry its
      draw selects; the sample's own value is never read. */
  function RandomPaletteAt(draws: seq<real>, scale: real, palette: seq<int>, p: int): real
    requires 0 <= p < |draws| && draws[p] >= 0.0 && scale >= 0.0 && |palette| > 0
  {
    PaletteIndexInRange(DrawThreshold(draws[p], scale), |palette|);
    palette[PaletteIndex(DrawThreshold(draws[p], scale), |palette|)] as real
  }

  /** ditherChannelRandomWithPalette on a buffer of n samples. */
  function RandomPaletteDithered(n: nat, draws: seq<real>, scale: real, palette: seq<int>): (r: seq<real>)
    requires n <= |draws| && NonNegative(draws) && scale >= 0.0 && |palette| > 0
    ensures |r| == n
  {
    seq(n, p requires 0 <= p < n => RandomPaletteAt(draws, scale, palette, p))
  }

  /** Channel c after ditherChannelRandomWithPalette on an image of n pixels. */
  function PaletteChannel(n: nat, draws: seq<real>, scale: real, palette: seq<int>, c: int): (r: seq<real>)
    requires |draws| >= 3 * n && NonNegative(draws) && scale >= 0.0 && |palette| > 0 && 0 <= c < 3
    ensures |r| == n
  {
    RandomPaletteDithered(n, ChannelDraws(draws, n, c), scale, palette)
  }

  /** colorRandomWithPalette: three channels of palette samples chosen by the draws alone. */
  function ColorRandomPaletteDithered(s: seq<int>, draws: seq<real>, scale: real, palette: seq<int>): (r: seq<int>)
    requires |s| % 4 == 0 && |draws| >= 3 * (|s| / 4) && NonNegative(draws) && scale >= 0.0 && |palette| > 0
    ensures |r| == |s| && AlphaUnchanged(s, r)
  {
    var n := |s| / 4;
    Merged(s, PaletteChannel(n, draws, scale, palette, 0), PaletteChannel(n, draws, scale, palette, 1), PaletteChannel(n, draws, scale, palette, 2))
  }

  /** Sample p of a channel is the palette entry its own draw selects. */
  lemma PaletteChannelAt(n: nat, draws: seq<real>, scale: real, palette: seq<int>, c: int, p: int)
    requires |draws| >= 3 * n && NonNegative(draws) && scale >= 0.0 && |palette| > 0 && 0 <= c < 3 && 0 <= p < n
    ensures 0 <= DrawOffset(n, c) + p < |draws|
    ensures 0 <= PaletteIndex(DrawThreshold(draws[DrawOffset(n, c) + p], scale), |palette|) < |palette|
    ensures PaletteChannel(n, draws, scale, palette, c)[p]
      == palette[PaletteIndex(DrawThreshold(draws[DrawOffset(n, c) + p], scale), |palette|)] as real
  {
    var ownDraws := ChannelDraws(draws, n, c);
    assert ownDraws[p] == draws[DrawOffset(n, c) + p];
    PaletteIndexInRange(DrawThreshold(ownDraws[p], scale), |palette|);
  }

  /** Byte c of pixel p is the palette entry that draw c * n + p selects,
      whatever the image held. */
  lemma ColorRandomPaletteByte(s: seq<int>, draws: seq<real>, scale: real, palette: seq<int>, p: int, c: int)
    requires |s| % 4 == 0 && |draws| >= 3 * (|s| / 4) && NonNegative(draws) && scale >= 0.0 && IsPalette(palette)
    requires 0 <= p < |s| / 4 && 0 <= c < 3
    ensures 4 * p + c < |s| && 0 <= DrawOffset(|s| / 4, c) + p < |draws|
    ensures 0 <= PaletteIndex(DrawThreshold(draws[DrawOffset(|s| / 4, c) + p], scale), |palette|) < |palette|
    ensures ColorRandomPaletteDithered(s, draws, scale, palette)[4 * p + c]
      == palette[PaletteIndex(DrawThreshold(draws[DrawOffset(|s| / 4, c) + p], scale), |palette|)]
    ensures ColorRandomPaletteDithered(s, draws, scale, palette)[4 * p + c] in palette
  {
    var n := |s| / 4;
    PaletteChannelAt(n, draws, scale, palette, c, p);
    PaletteSampleByte(s, draws, scale, palette, p, c, palette[PaletteIndex(DrawThreshold(draws[DrawOffset(n, c) + p], scale), |palette|)]);
  }

  lemma PaletteSampleByte(s: seq<int>, draws: seq<real>, scale: real, palette: seq<int>, p: int, c: int, v: int)
    requires |s| % 4 == 0 && |draws| >= 3 * (|s| / 4) && NonNegative(draws) && scale >= 0.0 && |palette| > 0
    requires 0 <= p < |s| / 4 && 0 <= c < 3
    requires PaletteChannel(|s| / 4, draws, scale, palette, c)[p] == v as real && 0 <= v <= 255
    ensures 4 * p + c < |s| && ColorRandomPaletteDithered(s, draws, scale, palette)[4 * p + c] == v
  {
    var n := |s| / 4;
    var red, green, blue := PaletteChannel(n, draws, scale, palette, 0), PaletteChannel(n, draws, scale, palette, 1), PaletteChannel(n, draws, scale, palette, 2);
    MergedSample(s, red, green, blue, p, c, PaletteChannel(n, draws, scale, palette, c), v);
  }

  /** Every R, G and B byte of colorRandomWithPalette's output is a palette entry. */
  lemma ColorRandomPaletteInPalette(s: seq<int>, draws: seq<real>, scale: real, palette: seq<int>, j: int)
    requires |s| % 4 == 0 && |draws| >= 3 * (|s| / 4) && NonNegative(draws) && scale >= 0.0 && IsPalette(palette)
    requires 0 <= j < |s| && j % 4 != 3
    ensures ColorRandomPaletteDithered(s, draws, scale, palette)[j] in palette
  {
    var n, p, c := |s| / 4, j / 4, j % 4;
    assert j == 4 * p + c;
    var k := PaletteChannelEntry(n, draws, scale, palette, c, p);
    PaletteSampleByte(s, draws, scale, palette, p, c, palette[k]);
  }

  /** Sample p of a channel is some palette entry. */
  lemma PaletteChannelEntry(n: nat, draws: seq<real>, scale: real, palette: seq<int>, c: int, p: int) returns (k: int)
    requires |draws| >= 3 * n && NonNegative(draws) && scale >= 0.0 && IsPalette(palette) && 0 <= c < 3 && 0 <= p < n
    ensures 0 <= k < |palette| && PaletteChannel(n, draws, scale, palette, c)[p] == palette[k] as real
  {
    PaletteChannelAt(n, draws, scale, palette, c, p);
    k := PaletteIndex(DrawThreshold(draws[DrawOffset(n, c) + p], scale), |palette|);
  }

  /** Two images of the same size get the same R, G and B bytes from the same draws. */
  lemma ColorRandomPaletteIgnoresInput(s: seq<int>, t: seq<int>, draws: seq<real>, scale: real, palette: seq<int>, j: int)
    requires |s| == |t| && |s| % 4 == 0 && |draws| >= 3 * (|s| / 4) && NonNegative(draws) && scale >= 0.0 && IsPalette(palette)
    requires 0 <= j < |s| && j % 4 != 3
    ensures ColorRandomPaletteDithered(s, draws, scale, palette)[j] == ColorRandomPaletteDithered(t, draws, scale, palette)[j]
  {
    assert j == 4 * (j / 4) + j % 4;
    ColorRandomPaletteByte(s, draws, scale, palette, j / 4, j % 4);
    ColorRandomPaletteByte(t, draws, scale, palette, j / 4, j % 4);
  }

  /** ditherChannelRandomWithPalette. */
  method DitherChannelRandomWithPalette(buffer: array<real>, width: nat, height: nat, scale: real, palette: seq<int>, draws: seq<real>)
    requires buffer.Length == width * height && |draws| >= buffer.Length && NonNegative(draws) && scale >= 0.0 && |palette| > 0
    modifies buffer
    ensures buffer[..] == RandomPaletteDithered(buffer.Length, draws, scale, palette)
  {
    var y := 0;
    while y < height
      invariant 0 <= y <= height && y * width <= width * height
      invariant forall j :: 0 <= j < y * width ==> buffer[j] == RandomPaletteAt(draws, scale, palette, j)
    {
      MulMono(y + 1, height, width);
      var x := 0;
      while x < width
        invariant 0 <= x <= width && y * width + x <= width * height
        invariant forall j :: 0 <= j < y * width + x ==> buffer[j] == RandomPaletteAt(draws, scale, palette, j)
      {
        InImage(y, x, width, height);
        var idx := y * width + x;
        var threshold := DrawThreshold(draws[idx], scale);
        var paletteIndex := Band(threshold, |palette|);
        var clampedIndex := if paletteIndex < |palette| - 1 then paletteIndex else |palette| - 1;
        PaletteIndexInRange(threshold, |palette|);
        buffer[idx] := palette[clampedIndex] as real;
        x := x + 1;
      }
      assert y * width + width == (y + 1) * width;
      y := y + 1;
    }
    assert y * width == width * height;
  }

  method ColorRandomWithPalette(data: array<int>, width: nat, height: nat, scale: real, levels: int, draws: seq<real>)
    requires data.Length == width * height * 4 && |draws| >= 3 * (width * height) && NonNegative(draws)
    requires scale >= 0.0 && levels >= 2
    modifies data
    ensures data[..] == ColorRandomPaletteDithered(old(data[..]), draws, scale, Palette(levels))
  {
    PixelCount(width * height);
    var n := width * height;
    var palette := BuildPalette(levels);
    var red, green, blue := ExtractChannels(data, width, height);
    DitherChannelRandomWithPalette(red, width, height, scale, palette, ChannelDraws(draws, n, 0));
    DitherChannelRandomWithPalette(green, width, height, scale, palette, ChannelDraws(draws, n, 1));
    DitherChannelRandomWithPalette(blue, width, height, scale, palette, ChannelDraws(draws, n, 2));
    WriteBack(data, width, height, red, green, blue);
  }
}
