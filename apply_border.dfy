/** applyBorder of border.js: the border stage of the pipeline. An image
    with any alpha byte below 255 gets its borders around its transparent
    areas; any other image gets rectangular frames. The first border has
    `thickness` and `color`; a second one, inside the first (offset
    `thickness`), is added only when `doubleBorder` is set and
    `secondThickness` is positive. The transparency test is made once, on
    the image as it comes in. */
module ApplyBorder {
  import opened Pixels
  import opened Border
  import opened Frame
  import opened Silhouette

  /** The options object of applyBorder; the colours are hex strings. */
  datatype BorderOptions = BorderOptions(thickness: int, color: string, doubleBorder: bool, secondColor: string, secondThickness: int)

  predicate HasSecondBorder(options: BorderOptions)
  {
    options.doubleBorder && options.secondThickness > 0
  }

  /** The pixels the first border recolours. */
  function FirstBorderPixels(s: seq<int>, width: nat, height: nat, options: BorderOptions): set<int>
  {
    if HasTransparency(s) then SilhouettePixels(s, width, options.thickness)
    else FramePixels(width, height, options.thickness)
  }

  /** The pixels the second border recolours, found from the incoming image's alpha. */
  function SecondBorderPixels(s: seq<int>, width: nat, height: nat, options: BorderOptions): set<int>
  {
    if HasTransparency(s) then InnerSilhouettePixels(s, width, options.secondThickness, options.thickness)
    else InnerFramePixels(width, height, options.secondThickness, options.thickness)
  }

  /** The image after applyBorder. */
  function Bordered(s: seq<int>, width: nat, height: nat, options: BorderOptions): (r: seq<int>)
    requires |s| % 4 == 0
    ensures |r| == |s| && AlphaUnchanged(s, r)
  {
    var first := Recolored(s, HexToRgb(options.color), FirstBorderPixels(s, width, height, options));
    if HasSecondBorder(options) then Recolored(first, HexToRgb(options.secondColor), SecondBorderPixels(s, width, height, options))
    else first
  }

  method ApplyBorder(data: array<int>, width: nat, height: nat, options: BorderOptions)
    requires data.Length == width * height * 4
    modifies data
    ensures data[..] == Bordered(old(data[..]), width, height, options)
  {
    ghost var s0 := data[..];
    var borderRgb := HexToRgb(options.color);
    var hasTransparency := CheckForTransparency(data);
    if hasTransparency {
      ApplyBorderAroundTransparentAreas(data, width, height, options.thickness, borderRgb);
    } else {
      ApplyBorderToImageData(data, width, height, options.thickness, borderRgb);
    }
    if options.doubleBorder && options.secondThickness > 0 {
      var secondBorderRgb := HexToRgb(options.secondColor);
      var innerOffset := options.thickness;
      if hasTransparency {
        SilhouettesReadAlphaOnly(s0, data[..], width, options.secondThickness, innerOffset);
        ApplyInnerBorderAroundTransparentAreas(data, width, height, options.secondThickness, secondBorderRgb, innerOffset);
      } else {
        ApplyInnerBorderToImageData(data, width, height, options.secondThickness, secondBorderRgb, innerOffset);
      }
    }
  }

  /** Which pixels the borders take depends on the alpha bytes alone, so the
      stages before the border (which never write alpha) do not move it. */
  lemma BorderPixelsReadAlphaOnly(s: seq<int>, s': seq<int>, width: nat, height: nat, options: BorderOptions)
    requires AlphaUnchanged(s, s')
    ensures HasTransparency(s') == HasTransparency(s)
    ensures FirstBorderPixels(s', width, height, options) == FirstBorderPixels(s, width, height, options)
    ensures SecondBorderPixels(s', width, height, options) == SecondBorderPixels(s, width, height, options)
  {
    if HasTransparency(s) {
      var i :| 0 <= i < |s| && i % 4 == 3 && s[i] < 255;
      assert s'[i] < 255;
    }
    if HasTransparency(s') {
      var i :| 0 <= i < |s'| && i % 4 == 3 && s'[i] < 255;
      assert s[i] < 255;
    }
    SilhouettesReadAlphaOnly(s, s', width, options.thickness, options.thickness);
    SilhouettesReadAlphaOnly(s, s', width, options.secondThickness, options.thickness);
  }

  /** Each colour byte after applyBorder: the second colour where the second
      border reaches, else the first colour where the first one does, else
      the byte as it was; alpha is never written. */
  lemma BorderedByte(s: seq<int>, width: nat, height: nat, options: BorderOptions, p: int, c: int)
    requires |s| == width * height * 4 && 0 <= p < width * height && 0 <= c < 4
    ensures 4 * p + c < |s|
    ensures Bordered(s, width, height, options)[4 * p + c] ==
      if c == 3 then s[4 * p + c]
      else if HasSecondBorder(options) && p in SecondBorderPixels(s, width, height, options) then Component(HexToRgb(options.secondColor), c)
      else if p in FirstBorderPixels(s, width, height, options) then Component(HexToRgb(options.color), c)
      else s[4 * p + c]
  {
    assert (4 * p + c) % 4 == c && (4 * p + c) / 4 == p;
  }

  /** A fully transparent pixel is never recoloured: it makes the image
      count as transparent, and both silhouettes hold visible pixels only. */
  lemma ClearPixelsKept(s: seq<int>, width: nat, height: nat, options: BorderOptions, p: int, c: int)
    requires |s| == width * height * 4 && 0 <= p < width * height && 0 <= c < 4
    requires s[4 * p + 3] == 0
    ensures Bordered(s, width, height, options)[4 * p + c] == s[4 * p + c]
  {
    assert HasTransparency(s) by {
      assert (4 * p + 3) % 4 == 3;
    }
    BorderedByte(s, width, height, options, p, c);
  }

  /** An image whose alpha dips below 255 but never reaches 0 gets no border
      at all: it takes the transparent-area path, which has nothing to grow from. */
  lemma PartialTransparencyGetsNoBorder(s: seq<int>, width: nat, height: nat, options: BorderOptions)
    requires |s| == width * height * 4
    requires HasTransparency(s) && forall j :: 0 <= j < |s| && j % 4 == 3 ==> s[j] != 0
    ensures Bordered(s, width, height, options) == s
  {
    NoPixelIsClear(s);
    NoClearPixelNoSilhouette(s, width, options.thickness, options.thickness);
    NoClearPixelNoSilhouette(s, width, options.secondThickness, options.thickness);
    RecoloredNothing(s, HexToRgb(options.color));
    if HasSecondBorder(options) {
      RecoloredNothing(s, HexToRgb(options.secondColor));
    }
  }

  lemma NoPixelIsClear(s: seq<int>)
    requires |s| % 4 == 0
    requires forall j :: 0 <= j < |s| && j % 4 == 3 ==> s[j] != 0
    ensures forall p :: 0 <= p < |s| / 4 ==> !IsClear(s, p)
  {
    forall p | 0 <= p < |s| / 4
      ensures !IsClear(s, p)
    {
      assert (4 * p + 3) % 4 == 3;
    }
  }

  lemma RecoloredNothing(s: seq<int>, color: Rgb)
    requires |s| % 4 == 0
    ensures Recolored(s, color, {}) == s
  {
  }

  /** On a fully opaque image the first border is the rectangular frame of
      `thickness` pixels, and with the second border disabled nothing else changes. */
  lemma OpaqueImageGetsFrame(s: seq<int>, width: nat, height: nat, options: BorderOptions)
    requires |s| == width * height * 4
    requires forall j :: 0 <= j < |s| && j % 4 == 3 ==> s[j] == 255
    requires !HasSecondBorder(options)
    ensures Bordered(s, width, height, options) == Recolored(s, HexToRgb(options.color), FramePixels(width, height, options.thickness))
  {
  }

  /** With transparency, the second border never repaints a pixel whose
      nearest transparent pixel is within `thickness` steps. */
  lemma SecondSilhouetteOutsideFirstRing(s: seq<int>, width: nat, height: nat, options: BorderOptions)
    requires |s| == width * height * 4 && HasTransparency(s)
    ensures SecondBorderPixels(s, width, height, options) * InnerSilhouettePixels(s, width, options.thickness, 0) == {}
  {
    RingsDisjoint(s, width, options.thickness, options.secondThickness, 0);
  }
}
