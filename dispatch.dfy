/** applyDithering of imageProcessing.js: "none" returns at once; the four
    colour algorithms run on the RGBA image directly; every other name first
    turns the image gray (R = G = B = the luminance, stored as a byte),
    copies the red bytes into a scalar buffer, runs the named grayscale
    algorithm on that buffer (a name it does not know runs none), and stores
    the buffer back into R, G and B. */
module Dispatch {
  import opened Pixels
  import Tone
  import Diffusion
  import Bayer
  import Dithering
  import Channels
  import ColorDithering
  import ColorRandom

  datatype Algorithm =
    | NoDithering | FloydSteinberg | Ordered | Random | Atkinson | JarvisJudiceNinke | Stucki | Burkes | Sierra
    | ColorFloydSteinberg | ColorFloydSteinbergPalette | ColorRandomThreshold | ColorRandomPalette
    | Unrecognized

  /** The algorithm a dithering-type name selects. */
  function Parse(name: string): Algorithm
  {
    if name == "none" then NoDithering
    else if name == "color-floyd-steinberg" then ColorFloydSteinberg
    else if name == "color-floyd-steinberg-palette" then ColorFloydSteinbergPalette
    else if name == "color-random" then ColorRandomThreshold
    else if name == "color-random-palette" then ColorRandomPalette
    else if name == "floyd-steinberg" then FloydSteinberg
    else if name == "bayer" then Ordered
    else if name == "random" then Random
    else if name == "atkinson" then Atkinson
    else if name == "jarvis-judice-ninke" then JarvisJudiceNinke
    else if name == "stucki" then Stucki
    else if name == "burkes" then Burkes
    else if name == "sierra" then Sierra
    else Unrecognized
  }

  /** The name each known algorithm is selected by. */
  function Name(a: Algorithm): (name: string)
    requires !a.Unrecognized?
    ensures |name| > 0
  {
    match a
    case NoDithering => "none"
    case ColorFloydSteinberg => "color-floyd-steinberg"
    case ColorFloydSteinbergPalette => "color-floyd-steinberg-palette"
    case ColorRandomThreshold => "color-random"
    case ColorRandomPalette => "color-random-palette"
    case FloydSteinberg => "floyd-steinberg"
    case Ordered => "bayer"
    case Random => "random"
    case Atkinson => "atkinson"
    case JarvisJudiceNinke => "jarvis-judice-ninke"
    case Stucki => "stucki"
    case Burkes => "burkes"
    case Sierra => "sierra"
  }

  /** Every known algorithm is selected by its own name. */
  lemma ParseOfName(a: Algorithm)
    requires !a.Unrecognized?
    ensures Parse(Name(a)) == a
  {
    match a
    case NoDithering =>
    case ColorFloydSteinberg =>
    case ColorFloydSteinbergPalette =>
    case ColorRandomThreshold =>
    case ColorRandomPalette =>
    case FloydSteinberg =>
    case Ordered =>
    case Random =>
    case Atkinson =>
    case JarvisJudiceNinke =>
    case Stucki =>
    case Burkes =>
    case Sierra =>
  }

  /** A name that selects a known algorithm is that algorithm's name: no two
      names select the same algorithm. */
  lemma NameOfParse(name: string)
    requires !Parse(name).Unrecognized?
    ensures Name(Parse(name)) == name
  {
    match Parse(name)
    case NoDithering =>
    case ColorFloydSteinberg =>
    case ColorFloydSteinbergPalette =>
    case ColorRandomThreshold =>
    case ColorRandomPalette =>
    case FloydSteinberg =>
    case Ordered =>
    case Random =>
    case Atkinson =>
    case JarvisJudiceNinke =>
    case Stucki =>
    case Burkes =>
    case Sierra =>
  }

  predicate IsColor(a: Algorithm)
  {
    a.ColorFloydSteinberg? || a.ColorFloydSteinbergPalette? || a.ColorRandomThreshold? || a.ColorRandomPalette?
  }

  /** The algorithms that run on the grayscale buffer (including the names it does not know). */
  predicate IsGrayPath(a: Algorithm)
  {
    !a.NoDithering? && !IsColor(a)
  }

  /** The palette size applyDithering passes to both palette variants. */
  const PaletteLevels := 4

  /** Byte j after the grayscale conversion: R, G and B all receive the luminance. */
  function GrayAt(s: seq<int>, j: int): int
    requires |s| % 4 == 0 && 0 <= j < |s|
  {
    if j % 4 == 3 then s[j] else ToByteClamped(Tone.Luminance(s, j - j % 4))
  }

  function Grayed(s: seq<int>): (r: seq<int>)
    requires |s| % 4 == 0
    ensures |r| == |s| && AlphaUnchanged(s, r)
  {
    seq(|s|, j requires 0 <= j < |s| => GrayAt(s, j))
  }

  /** The grayscale conversion leaves R = G = B in every pixel, all bytes when the input was. */
  lemma GrayedIsGray(s: seq<int>)
    requires |s| % 4 == 0
    ensures IsGray(Grayed(s))
    ensures AllBytes(s) ==> AllBytes(Grayed(s))
  {
    var g := Grayed(s);
    forall j | 0 <= j < |s| && j % 4 == 0
      ensures g[j + 1] == g[j] && g[j + 2] == g[j]
    {
      PixelBytes(j);
    }
  }

  /** The four names whose algorithm is error diffusion on the scalar buffer. */
  predicate IsGrayDiffusion(a: Algorithm)
  {
    a.FloydSteinberg? || a.Atkinson? || a.JarvisJudiceNinke? || a.Stucki?
  }

  /** The kernel of an error-diffusion name. */
  function GrayKernel(a: Algorithm): (taps: seq<Diffusion.Tap>)
    requires IsGrayDiffusion(a)
    ensures Diffusion.AllForward(taps) && 0.0 < Diffusion.WeightSum(taps) <= 1.0
  {
    match a
    case FloydSteinberg => Diffusion.FloydSteinbergKernel()
    case Atkinson => Diffusion.AtkinsonKernel()
    case JarvisJudiceNinke => Diffusion.JarvisJudiceNinkeKernel()
    case Stucki => Diffusion.StuckiKernel()
  }

  /** The algorithm's result on the scalar buffer; Burkes (whose fresh result
      is dropped), Sierra and unknown names leave the buffer as it was. */
  function GrayResult(buffer: seq<real>, width: nat, height: nat, a: Algorithm, scale: real, size: int, draws: seq<real>): (r: seq<real>)
    requires |buffer| == width * height && scale != 0.0 && |draws| >= |buffer|
    requires a.Ordered? ==> size >= 1
    ensures |r| == |buffer|
  {
    if IsGrayDiffusion(a) then Diffusion.Diffused(buffer, width, height, scale, GrayKernel(a), Diffusion.Threshold128, width * height)
    else if a.Ordered? then Dithering.OrderedDithered(buffer, width, height, scale, Bayer.Log2Floor(size))
    else if a.Random? then Dithering.RandomDithered(buffer, draws, scale)
    else buffer
  }

  /** What applyDithering's callers must provide: a positive scale, one draw
      per channel sample, and a power-of-two Bayer size for "bayer". */
  predicate Ready(s: seq<int>, width: nat, height: nat, a: Algorithm, scale: real, size: int, draws: seq<real>)
  {
    |s| == width * height * 4 && scale > 0.0 && |draws| >= 3 * (width * height) && ColorRandom.NonNegative(draws)
    && (a.Ordered? ==> size >= 2 && Bayer.IsPowerOfTwo(size))
  }

  /** The image applyDithering leaves behind. */
  function Dithered(s: seq<int>, width: nat, height: nat, a: Algorithm, scale: real, size: int, draws: seq<real>): (r: seq<int>)
    requires Ready(s, width, height, a, scale, size, draws)
    ensures |r| == |s| && AlphaUnchanged(s, r)
  {
    PixelCount(width * height);
    match a
    case NoDithering => s
    case ColorFloydSteinberg => ColorDithering.ColorDiffused(s, width, height, scale, ColorDithering.TwoLevels())
    case ColorFloydSteinbergPalette => ColorDithering.ColorDiffused(s, width, height, scale, ColorDithering.Palette(PaletteLevels))
    case ColorRandomThreshold => ColorRandom.ColorRandomDithered(s, draws, scale)
    case ColorRandomPalette => ColorRandom.ColorRandomPaletteDithered(s, draws, scale, ColorDithering.Palette(PaletteLevels))
    case _ =>
      var g := Grayed(s);
      var out := GrayResult(Channels.Channel(g, 0), width, height, a, scale, size, draws);
      Channels.Merged(g, out, out, out)
  }

  /** "none" changes nothing. */
  lemma NoneIsIdentity(s: seq<int>, width: nat, height: nat, scale: real, size: int, draws: seq<real>)
    requires Ready(s, width, height, NoDithering, scale, size, draws)
    ensures Dithered(s, width, height, NoDithering, scale, size, draws) == s
  {
  }

  /** Storing one buffer into R, G and B gives a gray image. */
  lemma BroadcastIsGray(g: seq<int>, out: seq<real>)
    requires |g| % 4 == 0 && |out| == |g| / 4
    ensures IsGray(Channels.Merged(g, out, out, out))
  {
    var m := Channels.Merged(g, out, out, out);
    forall j | 0 <= j < |g| && j % 4 == 0
      ensures m[j + 1] == m[j] && m[j + 2] == m[j]
    {
      PixelBytes(j);
    }
  }

  /** On the grayscale path every pixel ends with R = G = B. */
  lemma GrayPathIsGray(s: seq<int>, width: nat, height: nat, a: Algorithm, scale: real, size: int, draws: seq<real>)
    requires Ready(s, width, height, a, scale, size, draws) && IsGrayPath(a)
    ensures IsGray(Dithered(s, width, height, a, scale, size, draws))
  {
    PixelCount(width * height);
    var g := Grayed(s);
    var out := GrayResult(Channels.Channel(g, 0), width, height, a, scale, size, draws);
    BroadcastIsGray(g, out);
  }

  /** The grayscale dithers other than Burkes and Sierra leave every R, G and B byte at 0 or 255. */
  lemma GrayPathBinary(s: seq<int>, width: nat, height: nat, a: Algorithm, scale: real, size: int, draws: seq<real>, j: int)
    requires Ready(s, width, height, a, scale, size, draws)
    requires a in {FloydSteinberg, Ordered, Random, Atkinson, JarvisJudiceNinke, Stucki}
    requires 0 <= j < |s| && j % 4 != 3
    ensures Dithered(s, width, height, a, scale, size, draws)[j] in {0, 255}
  {
    GrayPathResult(s, width, height, a, scale, size, draws);
    GrayMergedBinary(s, width, height, a, scale, size, draws, j);
  }

  /** The copy back of a binary grayscale dither holds only 0 and 255 in R, G and B. */
  lemma GrayMergedBinary(s: seq<int>, width: nat, height: nat, a: Algorithm, scale: real, size: int, draws: seq<real>, j: int)
    requires Ready(s, width, height, a, scale, size, draws)
    requires a in {FloydSteinberg, Ordered, Random, Atkinson, JarvisJudiceNinke, Stucki}
    requires 0 <= j < |s| && j % 4 != 3
    ensures |Grayed(s)| % 4 == 0 && |Grayed(s)| / 4 == width * height
    ensures var g := Grayed(s);
      var out := GrayResult(Channels.Channel(g, 0), width, height, a, scale, size, draws);
      Channels.Merged(g, out, out, out)[j] in {0, 255}
  {
    PixelCount(width * height);
    var g := Grayed(s);
    var buffer := Channels.Channel(g, 0);
    var out := GrayResult(buffer, width, height, a, scale, size, draws);
    var p := j / 4;
    assert j == 4 * p + j % 4;
    GrayResultBinary(buffer, width, height, a, scale, size, draws, p);
    Channels.MergedByte(g, out, out, out, p, j % 4);
  }

  /** The binary grayscale dithers leave every sample of the buffer at 0 or 255. */
  lemma GrayResultBinary(buffer: seq<real>, width: nat, height: nat, a: Algorithm, scale: real, size: int, draws: seq<real>, p: int)
    requires |buffer| == width * height && scale > 0.0 && |draws| >= |buffer|
    requires a in {FloydSteinberg, Ordered, Random, Atkinson, JarvisJudiceNinke, Stucki}
    requires a.Ordered? ==> size >= 2 && Bayer.IsPowerOfTwo(size)
    requires 0 <= p < |buffer|
    ensures GrayResult(buffer, width, height, a, scale, size, draws)[p] in {0.0, 255.0}
  {
    if IsGrayDiffusion(a) {
      Dithering.GrayDiffusionBinary(buffer, width, height, scale, GrayKernel(a));
    } else if a.Random? {
      Dithering.RandomThreshold(buffer, draws, scale, p);
    } else {
      assert GrayResult(buffer, width, height, a, scale, size, draws)[p]
        == Dithering.OrderedAt(buffer, Dithering.RowLength(width), scale, Bayer.Log2Floor(size), p);
    }
  }

  /** The result of a grayscale-path name, as the copy back of the processed buffer. */
  lemma GrayPathResult(s: seq<int>, width: nat, height: nat, a: Algorithm, scale: real, size: int, draws: seq<real>)
    requires Ready(s, width, height, a, scale, size, draws) && IsGrayPath(a)
    ensures |Grayed(s)| % 4 == 0 && |Grayed(s)| / 4 == width * height
    ensures Dithered(s, width, height, a, scale, size, draws)
      == var g := Grayed(s);
         var out := GrayResult(Channels.Channel(g, 0), width, height, a, scale, size, draws);
         Channels.Merged(g, out, out, out)
  {
    PixelCount(width * height);
  }

  /** Storing the red buffer of a gray image back into R, G and B restores it. */
  lemma BroadcastOfGray(g: seq<int>)
    requires |g| % 4 == 0 && IsGray(g) && AllBytes(g)
    ensures Channels.Merged(g, Channels.Channel(g, 0), Channels.Channel(g, 0), Channels.Channel(g, 0)) == g
  {
    var buffer := Channels.Channel(g, 0);
    var m := Channels.Merged(g, buffer, buffer, buffer);
    forall j | 0 <= j < |g|
      ensures m[j] == g[j]
    {
      if j % 4 != 3 {
        var p := j / 4;
        assert j == 4 * p + j % 4;
        Channels.MergedByte(g, buffer, buffer, buffer, p, j % 4);
        StoreByte(g[4 * p]);
      }
    }
  }

  /** Burkes, Sierra and names applyDithering does not know only turn the image gray. */
  lemma PassThroughOnlyGrays(s: seq<int>, width: nat, height: nat, a: Algorithm, scale: real, size: int, draws: seq<real>)
    requires Ready(s, width, height, a, scale, size, draws) && AllBytes(s)
    requires a in {Burkes, Sierra, Unrecognized}
    ensures Dithered(s, width, height, a, scale, size, draws) == Grayed(s)
  {
    GrayPathResult(s, width, height, a, scale, size, draws);
    PassThroughBuffer(Channels.Channel(Grayed(s), 0), width, height, a, scale, size, draws);
    GrayedBroadcast(s);
  }

  /** Burkes, Sierra and unknown names leave the scalar buffer as it was. */
  lemma PassThroughBuffer(buffer: seq<real>, width: nat, height: nat, a: Algorithm, scale: real, size: int, draws: seq<real>)
    requires |buffer| == width * height && scale > 0.0 && |draws| >= |buffer|
    requires a in {Burkes, Sierra, Unrecognized}
    ensures GrayResult(buffer, width, height, a, scale, size, draws) == buffer
  {
  }

  /** Copying the red buffer of the converted image back restores it. */
  lemma GrayedBroadcast(s: seq<int>)
    requires |s| % 4 == 0 && AllBytes(s)
    ensures Channels.Merged(Grayed(s), Channels.Channel(Grayed(s), 0), Channels.Channel(Grayed(s), 0), Channels.Channel(Grayed(s), 0)) == Grayed(s)
  {
    GrayedIsGray(s);
    BroadcastOfGray(Grayed(s));
  }

  /** The palette variants quantize every R, G and B byte to one of 0, 85, 170 and 255. */
  lemma PaletteVariantsFourLevels(s: seq<int>, width: nat, height: nat, a: Algorithm, scale: real, size: int, draws: seq<real>, j: int)
    requires Ready(s, width, height, a, scale, size, draws)
    requires a in {ColorFloydSteinbergPalette, ColorRandomPalette}
    requires 0 <= j < |s| && j % 4 != 3
    ensures Dithered(s, width, height, a, scale, size, draws)[j] in [0, 85, 170, 255]
  {
    PixelCount(width * height);
    ColorDithering.PaletteRange(PaletteLevels);
    if a.ColorFloydSteinbergPalette? {
      PaletteDiffusionResult(s, width, height, scale, size, draws);
      ColorDithering.ColorDiffusedInPalette(s, width, height, scale, ColorDithering.Palette(PaletteLevels), j);
    } else {
      PaletteRandomInPalette(s, width, height, scale, size, draws, j);
    }
    ColorDithering.InPaletteOfFour(Dithered(s, width, height, a, scale, size, draws)[j]);
  }

  lemma PaletteDiffusionResult(s: seq<int>, width: nat, height: nat, scale: real, size: int, draws: seq<real>)
    requires Ready(s, width, height, ColorFloydSteinbergPalette, scale, size, draws)
    ensures Dithered(s, width, height, ColorFloydSteinbergPalette, scale, size, draws)
      == ColorDithering.ColorDiffused(s, width, height, scale, ColorDithering.Palette(PaletteLevels))
  {
  }

  lemma PaletteRandomInPalette(s: seq<int>, width: nat, height: nat, scale: real, size: int, draws: seq<real>, j: int)
    requires Ready(s, width, height, ColorRandomPalette, scale, size, draws)
    requires 0 <= j < |s| && j % 4 != 3
    ensures Dithered(s, width, height, ColorRandomPalette, scale, size, draws)[j] in ColorDithering.Palette(PaletteLevels)
  {
    PixelCount(width * height);
    ColorDithering.PaletteRange(PaletteLevels);
    ColorRandom.ColorRandomPaletteInPalette(s, draws, scale, ColorDithering.Palette(PaletteLevels), j);
  }

  /** The grayscale conversion loop. */
  method GrayConvert(data: array<int>)
    requires data.Length % 4 == 0
    modifies data
    ensures data[..] == Grayed(old(data[..]))
  {
    ghost var s0 := data[..];
    var i := 0;
    while i < data.Length
      invariant 0 <= i <= data.Length && i % 4 == 0
      invariant forall j :: 0 <= j < i ==> data[j] == GrayAt(s0, j)
      invariant forall j :: i <= j < data.Length ==> data[j] == s0[j]
    {
      var gray := 0.299 * data[i] as real + 0.587 * data[i + 1] as real + 0.114 * data[i + 2] as real;
      assert gray == Tone.Luminance(s0, i);
      data[i], data[i + 1], data[i + 2] := ToByteClamped(gray), ToByteClamped(gray), ToByteClamped(gray);
      PixelBytes(i);
      i := i + 4;
    }
  }

  /** The buffer loop: a fresh array holding the red byte of every pixel. */
  method GrayBuffer(data: array<int>, width: nat, height: nat) returns (buffer: array<real>)
    requires data.Length == width * height * 4
    ensures fresh(buffer)
    ensures buffer[..] == Channels.Channel(data[..], 0)
  {
    buffer := new real[width * height];
    var y := 0;
    while y < height
      invariant 0 <= y <= height && y * width <= width * height
      invariant forall p :: 0 <= p < y * width ==> buffer[p] == data[4 * p] as real
    {
      MulMono(y + 1, height, width);
      var x := 0;
      while x < width
        invariant 0 <= x <= width && y * width + x <= width * height
        invariant forall p :: 0 <= p < y * width + x ==> buffer[p] == data[4 * p] as real
      {
        InImage(y, x, width, height);
        var idx := (y * width + x) * 4;
        buffer[y * width + x] := data[idx] as real;
        x := x + 1;
      }
      assert y * width + width == (y + 1) * width;
      y := y + 1;
    }
    assert y * width == width * height;
  }

  /** The grayscale path after the conversion: fill the buffer, run the algorithm, store it back. */
  method DitherGray(data: array<int>, width: nat, height: nat, a: Algorithm, scale: real, bayerMatrixSize: int, draws: seq<real>)
    requires data.Length == width * height * 4 && scale > 0.0 && |draws| >= width * height
    requires a.Ordered? ==> bayerMatrixSize >= 2 && Bayer.IsPowerOfTwo(bayerMatrixSize)
    modifies data
    ensures width * height == |old(data[..])| / 4
    ensures data[..] == Channels.Merged(old(data[..]), GrayResult(Channels.Channel(old(data[..]), 0), width, height, a, scale, bayerMatrixSize, draws),
      GrayResult(Channels.Channel(old(data[..]), 0), width, height, a, scale, bayerMatrixSize, draws),
      GrayResult(Channels.Channel(old(data[..]), 0), width, height, a, scale, bayerMatrixSize, draws))
  {
    PixelCount(width * height);
    var buffer := GrayBuffer(data, width, height);
    RunGray(buffer, width, height, a, scale, bayerMatrixSize, draws);
    Channels.WriteBack(data, width, height, buffer, buffer, buffer);
  }

  /** The algorithm switch of applyDithering on the grayscale buffer. */
  method RunGray(buffer: array<real>, width: nat, height: nat, a: Algorithm, scale: real, bayerMatrixSize: int, draws: seq<real>)
    requires buffer.Length == width * height && scale > 0.0 && |draws| >= width * height
    requires a.Ordered? ==> bayerMatrixSize >= 2 && Bayer.IsPowerOfTwo(bayerMatrixSize)
    modifies buffer
    ensures buffer[..] == GrayResult(old(buffer[..]), width, height, a, scale, bayerMatrixSize, draws)
  {
    if IsGrayDiffusion(a) {
      RunGrayDiffusion(buffer, width, height, a, scale, bayerMatrixSize, draws);
    } else if a.Ordered? {
      Dithering.BayerDithering(buffer, width, height, scale, bayerMatrixSize);
    } else if a.Random? {
      Dithering.RandomDithering(buffer, width, height, scale, draws);
    } else if a.Burkes? {
      var discarded := Dithering.BurkesDithering(buffer, width, height, scale);
    } else if a.Sierra? {
      Dithering.SierraDithering(buffer, width, height, scale);
    }
  }

  /** The four error-diffusion branches of the switch, which dither the buffer in place. */
  method RunGrayDiffusion(buffer: array<real>, width: nat, height: nat, a: Algorithm, scale: real, bayerMatrixSize: int, draws: seq<real>)
    requires buffer.Length == width * height && scale > 0.0 && |draws| >= width * height
    requires IsGrayDiffusion(a)
    modifies buffer
    ensures buffer[..] == GrayResult(old(buffer[..]), width, height, a, scale, bayerMatrixSize, draws)
  {
    if a.FloydSteinberg? {
      Dithering.FloydSteinbergDithering(buffer, width, height, scale);
    } else if a.Atkinson? {
      Dithering.AtkinsonDithering(buffer, width, height, scale);
    } else if a.JarvisJudiceNinke? {
      Dithering.JarvisJudiceNinkeDithering(buffer, width, height, scale);
    } else {
      Dithering.StuckiDithering(buffer, width, height, scale);
    }
  }

  method ApplyDithering(data: array<int>, width: nat, height: nat, name: string, scale: real, bayerMatrixSize: int, draws: seq<real>)
    requires Ready(data[..], width, height, Parse(name), scale, bayerMatrixSize, draws)
    modifies data
    ensures data[..] == Dithered(old(data[..]), width, height, Parse(name), scale, bayerMatrixSize, draws)
  {
    PixelCount(width * height);
    var a := Parse(name);
    if a.NoDithering? {
      return;
    }
    if a.ColorFloydSteinberg? {
      ColorDithering.ColorFloydSteinbergDithering(data, width, height, scale);
      return;
    } else if a.ColorFloydSteinbergPalette? {
      ColorDithering.ColorFloydSteinbergWithPalette(data, width, height, scale, PaletteLevels);
      return;
    } else if a.ColorRandomThreshold? {
      ColorRandom.ColorRandomDithering(data, width, height, scale, draws);
      return;
    } else if a.ColorRandomPalette? {
      ColorRandom.ColorRandomWithPalette(data, width, height, scale, PaletteLevels, draws);
      return;
    }
    GrayConvert(data);
    DitherGray(data, width, height, a, scale, bayerMatrixSize, draws);
  }
}
