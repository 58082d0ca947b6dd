/** applyFilters of app.js: every render starts from a copy of the original
    image and runs the stages in a fixed order (contrast, midtone,
    highlights, luminance threshold; then the noise or filter pass when its
    intensity is positive and a type is chosen; then inversion; then
    dithering; then the border), and finally saves a snapshot to the
    history unless it is replaying one. The control values are given as a
    record; the canvas is left out. */
module Pipeline {
  import opened Pixels
  import Tone
  import Filters
  import Bayer
  import ColorRandom
  import Dispatch
  import Border
  import ApplyBorder
  import UndoHistory

  /** The control values applyFilters reads. `contrast` is the slider value
      (divided by 100 before use); `midtoneTable` is the 256-entry table
      applyMidtone computes from its slider with Math.pow. */
  datatype Settings = Settings(
    contrast: real, midtoneTable: seq<real>, highlights: real, luminanceThreshold: real,
    noiseFilter: string, filterIntensity: real, invertColors: bool,
    ditheringType: string, ditheringScale: real, bayerMatrixSize: int,
    enableBorder: bool, border: ApplyBorder.BorderOptions)

  /** One history entry: the rendered image and the settings that made it. */
  datatype Snapshot = Snapshot(imageData: seq<int>, settings: Settings)

  /** The matrix size applyDithering uses when it is not passed one. */
  const DefaultBayerMatrixSize: int := 8

  /** Only "bayer" passes the matrix-size control on. */
  function MatrixSize(settings: Settings): int
  {
    if settings.ditheringType == "bayer" then settings.bayerMatrixSize else DefaultBayerMatrixSize
  }

  /** The noise passes take three (gaussian) or two (salt and pepper) draws per pixel. */
  predicate NoiseReady(width: nat, height: nat, settings: Settings, noiseDraws: seq<real>)
  {
    (settings.noiseFilter == "gaussian" ==> 3 * (width * height) <= |noiseDraws|)
    && (settings.noiseFilter == "salt-pepper" ==> 2 * (width * height) <= |noiseDraws|)
  }

  /** What applyDithering demands: a positive scale, enough non-negative
      draws, and a power-of-two matrix size for "bayer". */
  predicate DitherReady(width: nat, height: nat, settings: Settings, ditherDraws: seq<real>)
  {
    (settings.ditheringType != "none" ==>
       settings.ditheringScale > 0.0 && |ditherDraws| >= 3 * (width * height) && ColorRandom.NonNegative(ditherDraws))
    && (settings.ditheringType == "bayer" ==> settings.bayerMatrixSize >= 2 && Bayer.IsPowerOfTwo(settings.bayerMatrixSize))
  }

  /** What the stages demand of the settings and of the injected random draws. */
  predicate Runnable(width: nat, height: nat, settings: Settings, noiseDraws: seq<real>, ditherDraws: seq<real>)
  {
    |settings.midtoneTable| == 256 && NoiseReady(width, height, settings, noiseDraws) && DitherReady(width, height, settings, ditherDraws)
  }

  lemma DefaultSizeIsPowerOfTwo()
    ensures Bayer.IsPowerOfTwo(DefaultBayerMatrixSize)
  {
    assert Bayer.IsPowerOfTwo(2);
    assert Bayer.IsPowerOfTwo(4);
  }

  /** The contrast slider is a percentage; applyContrast takes it as a factor. */
  function ContrastFactor(settings: Settings): real
  {
    settings.contrast / 100.0
  }

  /** Contrast, midtone, highlights and the luminance threshold, in that order. */
  function Adjusted(s: seq<int>, settings: Settings): (r: seq<int>)
    requires |s| % 4 == 0 && AllBytes(s) && |settings.midtoneTable| == 256
    ensures |r| == |s| && AlphaUnchanged(s, r)
  {
    var contrasted := Tone.Contrast(s, ContrastFactor(settings));
    var midtoned := Tone.Midtone(contrasted, settings.midtoneTable);
    var highlighted := Tone.Highlights(midtoned, settings.highlights);
    Tone.LuminanceClip(highlighted, settings.luminanceThreshold)
  }

  /** The noise or filter pass chosen by name, skipped at intensity 0 or for "none". */
  function Noised(s: seq<int>, width: nat, height: nat, settings: Settings, noiseDraws: seq<real>): (r: seq<int>)
    requires |s| == width * height * 4 && NoiseReady(width, height, settings, noiseDraws)
    ensures |r| == |s| && AlphaUnchanged(s, r)
  {
    PixelCount(width * height);
    var intensity := settings.filterIntensity;
    if intensity > 0.0 && settings.noiseFilter != "none" then
      if settings.noiseFilter == "gaussian" then
        Filters.GaussianShape(s, noiseDraws, intensity);
        Filters.GaussianNoise(s, noiseDraws, intensity)
      else if settings.noiseFilter == "salt-pepper" then
        Filters.SaltPepperShape(s, noiseDraws, intensity);
        Filters.SaltPepper(s, noiseDraws, intensity)
      else if settings.noiseFilter == "blur" then Filters.Blurred(s, width, height, Filters.HalfKernel(intensity))
      else if settings.noiseFilter == "pixelate" then Filters.Pixelated(s, width, height, Filters.BlockSize(intensity))
      else s
    else s
  }

  function Inverted(s: seq<int>, settings: Settings): (r: seq<int>)
    ensures |r| == |s| && AlphaUnchanged(s, r)
  {
    if settings.invertColors then Tone.Invert(s) else s
  }

  /** applyDithering with the chosen name, skipped for "none". */
  function DitherStage(s: seq<int>, width: nat, height: nat, settings: Settings, ditherDraws: seq<real>): (r: seq<int>)
    requires |s| == width * height * 4 && DitherReady(width, height, settings, ditherDraws)
    ensures |r| == |s| && AlphaUnchanged(s, r)
  {
    DefaultSizeIsPowerOfTwo();
    if settings.ditheringType != "none" then
      Dispatch.Dithered(s, width, height, Dispatch.Parse(settings.ditheringType), settings.ditheringScale, MatrixSize(settings), ditherDraws)
    else s
  }

  function BorderStage(s: seq<int>, width: nat, height: nat, settings: Settings): (r: seq<int>)
    requires |s| % 4 == 0
    ensures |r| == |s| && AlphaUnchanged(s, r)
  {
    if settings.enableBorder then ApplyBorder.Bordered(s, width, height, settings.border) else s
  }

  /** The image applyFilters renders; no stage writes an alpha byte. */
  function Filtered(s: seq<int>, width: nat, height: nat, settings: Settings, noiseDraws: seq<real>, ditherDraws: seq<real>): (r: seq<int>)
    requires |s| == width * height * 4 && AllBytes(s) && Runnable(width, height, settings, noiseDraws, ditherDraws)
    ensures |r| == |s| && AlphaUnchanged(s, r)
  {
    PixelCount(width * height);
    var adjusted := Adjusted(s, settings);
    var noised := Noised(adjusted, width, height, settings, noiseDraws);
    var inverted := Inverted(noised, settings);
    var dithered := DitherStage(inverted, width, height, settings, ditherDraws);
    BorderStage(dithered, width, height, settings)
  }

  /** The four tone adjustments, in order. */
  method RunAdjustments(imageData: array<int>, settings: Settings)
    requires imageData.Length % 4 == 0 && AllBytes(imageData[..]) && |settings.midtoneTable| == 256
    modifies imageData
    ensures imageData[..] == Adjusted(old(imageData[..]), settings)
  {
    Tone.ApplyContrast(imageData, ContrastFactor(settings));
    Tone.ApplyMidtone(imageData, settings.midtoneTable);
    Tone.ApplyHighlights(imageData, settings.highlights);
    Tone.ApplyLuminanceThreshold(imageData, settings.luminanceThreshold);
  }

  /** The switch over the noise or filter type. */
  method RunNoiseFilter(imageData: array<int>, width: nat, height: nat, settings: Settings, noiseDraws: seq<real>)
    requires imageData.Length == width * height * 4 && NoiseReady(width, height, settings, noiseDraws)
    modifies imageData
    ensures imageData[..] == Noised(old(imageData[..]), width, height, settings, noiseDraws)
  {
    PixelCount(width * height);
    var selectedNoiseFilter := settings.noiseFilter;
    var filterIntensity := settings.filterIntensity;
    if filterIntensity > 0.0 && selectedNoiseFilter != "none" {
      if selectedNoiseFilter == "gaussian" {
        Filters.ApplyGaussianNoise(imageData, filterIntensity, noiseDraws);
      } else if selectedNoiseFilter == "salt-pepper" {
        Filters.ApplySaltPepperNoise(imageData, filterIntensity, noiseDraws);
      } else if selectedNoiseFilter == "blur" {
        Filters.ApplyBlur(imageData, width, height, filterIntensity);
      } else if selectedNoiseFilter == "pixelate" {
        Filters.ApplyPixelate(imageData, width, height, filterIntensity);
      }
    }
  }

  /** The dithering call; only "bayer" passes the matrix-size control on. */
  method RunDithering(imageData: array<int>, width: nat, height: nat, settings: Settings, ditherDraws: seq<real>)
    requires imageData.Length == width * height * 4 && DitherReady(width, height, settings, ditherDraws)
    modifies imageData
    ensures imageData[..] == DitherStage(old(imageData[..]), width, height, settings, ditherDraws)
  {
    DefaultSizeIsPowerOfTwo();
    var selectedDitheringType := settings.ditheringType;
    if selectedDitheringType != "none" {
      var scale := settings.ditheringScale;
      if selectedDitheringType == "bayer" {
        Dispatch.ApplyDithering(imageData, width, height, selectedDitheringType, scale, settings.bayerMatrixSize, ditherDraws);
      } else {
        Dispatch.ApplyDithering(imageData, width, height, selectedDitheringType, scale, DefaultBayerMatrixSize, ditherDraws);
      }
    }
  }

  method ApplyFilters(originalImageData: array<int>, width: nat, height: nat, settings: Settings,
                      noiseDraws: seq<real>, ditherDraws: seq<real>,
                      history: UndoHistory.History<Snapshot>, isApplyingHistoryState: bool)
    returns (imageData: array<int>)
    requires originalImageData.Length == width * height * 4 && AllBytes(originalImageData[..])
    requires Runnable(width, height, settings, noiseDraws, ditherDraws)
    modifies history
    ensures fresh(imageData)
    ensures imageData[..] == Filtered(originalImageData[..], width, height, settings, noiseDraws, ditherDraws)
    ensures history.State() ==
      if isApplyingHistoryState then old(history.State())
      else UndoHistory.Saved(old(history.State()), Snapshot(imageData[..], settings))
  {
    PixelCount(width * height);
    imageData := new int[originalImageData.Length](i requires 0 <= i < originalImageData.Length reads originalImageData => originalImageData[i]);
    assert imageData[..] == originalImageData[..];
    RunAdjustments(imageData, settings);
    RunNoiseFilter(imageData, width, height, settings, noiseDraws);
    if settings.invertColors {
      Tone.ApplyColorInversion(imageData);
    }
    RunDithering(imageData, width, height, settings, ditherDraws);
    if settings.enableBorder {
      ApplyBorder.ApplyBorder(imageData, width, height, settings.border);
    }
    if !isApplyingHistoryState {
      history.Save(Snapshot(imageData[..], settings));
    }
  }

  /** The neutral controls (contrast 100, the identity midtone table,
      highlights 100, a luminance threshold of at least 100, no filter, no
      inversion, no dithering, no border) render the original image. */
  lemma NeutralSettingsKeepImage(s: seq<int>, width: nat, height: nat, settings: Settings, noiseDraws: seq<real>, ditherDraws: seq<real>)
    requires |s| == width * height * 4 && AllBytes(s) && Runnable(width, height, settings, noiseDraws, ditherDraws)
    requires settings.contrast == 100.0 && settings.highlights == 100.0 && settings.luminanceThreshold >= 100.0
    requires forall i :: 0 <= i < 256 ==> settings.midtoneTable[i] == i as real
    requires settings.filterIntensity <= 0.0 || settings.noiseFilter == "none"
    requires !settings.invertColors && settings.ditheringType == "none" && !settings.enableBorder
    ensures Filtered(s, width, height, settings, noiseDraws, ditherDraws) == s
  {
    PixelCount(width * height);
    Tone.ContrastUnitFactor(s);
    Tone.MidtoneIdentityTable(s, settings.midtoneTable);
    Tone.HighlightsFullValue(s);
    Tone.LuminanceClipFullValue(s, settings.luminanceThreshold);
  }

  /** The border is drawn last: every pixel it takes, found from the alpha
      of the original image, ends in the border colour whatever the earlier
      stages did (the second colour where the second border reaches). */
  lemma BorderDrawnLast(s: seq<int>, width: nat, height: nat, settings: Settings, noiseDraws: seq<real>, ditherDraws: seq<real>, p: int, c: int)
    requires |s| == width * height * 4 && AllBytes(s) && Runnable(width, height, settings, noiseDraws, ditherDraws)
    requires settings.enableBorder && 0 <= p < width * height && 0 <= c < 3
    requires p in ApplyBorder.FirstBorderPixels(s, width, height, settings.border)
      || (ApplyBorder.HasSecondBorder(settings.border) && p in ApplyBorder.SecondBorderPixels(s, width, height, settings.border))
    ensures 4 * p + c < |s|
    ensures Filtered(s, width, height, settings, noiseDraws, ditherDraws)[4 * p + c] ==
      if ApplyBorder.HasSecondBorder(settings.border) && p in ApplyBorder.SecondBorderPixels(s, width, height, settings.border)
      then Border.Component(Border.HexToRgb(settings.border.secondColor), c)
      else Border.Component(Border.HexToRgb(settings.border.color), c)
  {
    PixelCount(width * height);
    var adjusted := Adjusted(s, settings);
    var noised := Noised(adjusted, width, height, settings, noiseDraws);
    var inverted := Inverted(noised, settings);
    var dithered := DitherStage(inverted, width, height, settings, ditherDraws);
    assert AlphaUnchanged(s, dithered);
    ApplyBorder.BorderPixelsReadAlphaOnly(s, dithered, width, height, settings.border);
    ApplyBorder.BorderedByte(dithered, width, height, settings.border, p, c);
  }

  /** With a two-level grayscale dither chosen and no border, every R, G and
      B byte of the rendered image is 0 or 255. */
  lemma BinaryDitherLeavesBlackAndWhite(s: seq<int>, width: nat, height: nat, settings: Settings, noiseDraws: seq<real>, ditherDraws: seq<real>, j: int)
    requires |s| == width * height * 4 && AllBytes(s) && Runnable(width, height, settings, noiseDraws, ditherDraws)
    requires settings.ditheringType in ["floyd-steinberg", "bayer", "random", "atkinson", "jarvis-judice-ninke", "stucki"]
    requires !settings.enableBorder && 0 <= j < |s| && j % 4 != 3
    ensures Filtered(s, width, height, settings, noiseDraws, ditherDraws)[j] in {0, 255}
  {
    PixelCount(width * height);
    DefaultSizeIsPowerOfTwo();
    var adjusted := Adjusted(s, settings);
    var noised := Noised(adjusted, width, height, settings, noiseDraws);
    var inverted := Inverted(noised, settings);
    Dispatch.GrayPathBinary(inverted, width, height, Dispatch.Parse(settings.ditheringType), settings.ditheringScale, MatrixSize(settings), ditherDraws, j);
  }
}
