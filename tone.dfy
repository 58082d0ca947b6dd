/** The tone stages of imageProcessing.js and the colour inversion: passes
    that rewrite the R, G and B bytes of every pixel in place and never
    write its alpha byte. */
module Tone {
  import opened Pixels

  /** Contrast of one channel value: v * factor + 128 * (1 - factor), stored. */
  function ContrastByte(v: int, factor: real): int
  {
    ToByteClamped(v as real * factor + 128.0 * (1.0 - factor))
  }

  function ContrastAt(s: seq<int>, factor: real, j: int): int
    requires 0 <= j < |s|
  {
    if j % 4 == 3 then s[j] else ContrastByte(s[j], factor)
  }

  /** The image applyContrast leaves behind. */
  function Contrast(s: seq<int>, factor: real): (r: seq<int>)
    ensures AlphaUnchanged(s, r) && (AllBytes(s) ==> AllBytes(r))
  {
    seq(|s|, j requires 0 <= j < |s| => ContrastAt(s, factor, j))
  }

  /** Every colour byte goes through ContrastByte. */
  lemma ContrastColour(s: seq<int>, factor: real, j: int)
    requires 0 <= j < |s| && j % 4 != 3
    ensures Contrast(s, factor)[j] == ContrastByte(s[j], factor)
  {
  }

  /** A factor of 1 (a contrast slider at 100 %) changes nothing. */
  lemma ContrastUnitFactor(s: seq<int>)
    requires AllBytes(s)
    ensures Contrast(s, 1.0) == s
  {
    forall j | 0 <= j < |s| ensures Contrast(s, 1.0)[j] == s[j] {
      if j % 4 != 3 {
        StoreByte(s[j]);
      }
    }
  }

  /** Contrast is an affine map around 128: a value at 128 stays there for every factor. */
  lemma ContrastFixesMidGray(factor: real)
    ensures ContrastByte(128, factor) == 128
  {
    assert 128.0 * factor + 128.0 * (1.0 - factor) == 128.0;
    StoreByte(128);
  }

  method ApplyContrast(data: array<int>, factor: real)
    requires data.Length % 4 == 0
    modifies data
    ensures data[..] == Contrast(old(data[..]), factor)
  {
    ghost var s0 := data[..];
    var i := 0;
    while i < data.Length
      invariant 0 <= i <= data.Length && i % 4 == 0
      invariant forall j :: 0 <= j < i ==> data[j] == ContrastAt(s0, factor, j)
      invariant forall j :: i <= j < data.Length ==> data[j] == s0[j]
    {
      PixelBytes(i);
      data[i] := ContrastByte(data[i], factor);
      data[i + 1] := ContrastByte(data[i + 1], factor);
      data[i + 2] := ContrastByte(data[i + 2], factor);
      assert data[i] == ContrastAt(s0, factor, i) && data[i + 1] == ContrastAt(s0, factor, i + 1);
      assert data[i + 2] == ContrastAt(s0, factor, i + 2) && data[i + 3] == ContrastAt(s0, factor, i + 3);
      i := i + 4;
    }
  }

  /** applyMidtone maps every channel value through a 256-entry table
      (lut[i] = (i / 255) ^ (1 / gamma) * 255, computed outside the model). */
  function MidtoneAt(s: seq<int>, lut: seq<real>, j: int): int
    requires 0 <= j < |s| && 0 <= s[j] < |lut|
  {
    if j % 4 == 3 then s[j] else ToByteClamped(lut[s[j]])
  }

  function Midtone(s: seq<int>, lut: seq<real>): (r: seq<int>)
    requires AllBytes(s) && |lut| == 256
    ensures AlphaUnchanged(s, r) && AllBytes(r)
  {
    seq(|s|, j requires 0 <= j < |s| => MidtoneAt(s, lut, j))
  }

  /** Every colour byte is looked up in the table and stored. */
  lemma MidtoneColour(s: seq<int>, lut: seq<real>, j: int)
    requires AllBytes(s) && |lut| == 256 && 0 <= j < |s| && j % 4 != 3
    ensures Midtone(s, lut)[j] == ToByteClamped(lut[s[j]])
  {
  }

  /** With the identity table (gamma = 1) midtone changes nothing. */
  lemma MidtoneIdentityTable(s: seq<int>, lut: seq<real>)
    requires AllBytes(s) && |lut| == 256
    requires forall i :: 0 <= i < 256 ==> lut[i] == i as real
    ensures Midtone(s, lut) == s
  {
    forall j | 0 <= j < |s| ensures Midtone(s, lut)[j] == s[j] {
      if j % 4 != 3 {
        StoreByte(s[j]);
      }
    }
  }

  method ApplyMidtone(data: array<int>, lut: seq<real>)
    requires data.Length % 4 == 0 && AllBytes(data[..]) && |lut| == 256
    modifies data
    ensures data[..] == Midtone(old(data[..]), lut)
  {
    ghost var s0 := data[..];
    var i := 0;
    while i < data.Length
      invariant 0 <= i <= data.Length && i % 4 == 0
      invariant forall j :: 0 <= j < i ==> data[j] == MidtoneAt(s0, lut, j)
      invariant forall j :: i <= j < data.Length ==> data[j] == s0[j]
    {
      PixelBytes(i);
      data[i] := ToByteClamped(lut[data[i]]);
      data[i + 1] := ToByteClamped(lut[data[i + 1]]);
      data[i + 2] := ToByteClamped(lut[data[i + 2]]);
      assert data[i] == MidtoneAt(s0, lut, i) && data[i + 1] == MidtoneAt(s0, lut, i + 1);
      assert data[i + 2] == MidtoneAt(s0, lut, i + 2) && data[i + 3] == MidtoneAt(s0, lut, i + 3);
      i := i + 4;
    }
  }

  const HighlightThreshold: int := 192

  /** The excess of v above 192, scaled by factor, put back on top of 192 and stored. */
  function CompressHighlight(v: int, factor: real): int
  {
    ToByteClamped(HighlightThreshold as real + (v - HighlightThreshold) as real * factor)
  }

  /** applyHighlights on one channel value: only a value above 192 is rewritten. */
  function HighlightByte(v: int, value: real): int
  {
    if v > HighlightThreshold then CompressHighlight(v, value / 100.0) else v
  }

  function HighlightsAt(s: seq<int>, value: real, j: int): int
    requires 0 <= j < |s|
  {
    if j % 4 == 3 then s[j] else HighlightByte(s[j], value)
  }

  function Highlights(s: seq<int>, value: real): (r: seq<int>)
    ensures AlphaUnchanged(s, r)
  {
    seq(|s|, j requires 0 <= j < |s| => HighlightsAt(s, value, j))
  }

  /** Only a colour byte above 192 is rewritten, through HighlightByte. */
  lemma HighlightsColour(s: seq<int>, value: real, j: int)
    requires 0 <= j < |s|
    ensures s[j] <= HighlightThreshold ==> Highlights(s, value)[j] == s[j]
    ensures j % 4 != 3 ==> Highlights(s, value)[j] == HighlightByte(s[j], value)
  {
  }

  /** Rounding to a byte keeps a value between two byte bounds. */
  lemma StoreBetween(r: real, lo: int, hi: int)
    requires 0 <= lo <= hi <= 255 && lo as real <= r <= hi as real
    ensures lo <= ToByteClamped(r) <= hi
  {
  }

  /** The compressed value lies between 192 and the value it came from. */
  lemma CompressedBetween(v: int, f: real)
    requires HighlightThreshold < v && 0.0 <= f <= 1.0
    ensures HighlightThreshold as real <= HighlightThreshold as real + (v - HighlightThreshold) as real * f <= v as real
  {
  }

  /** One channel value under highlights with a value in [0, 100]. */
  lemma HighlightByteBounds(v: int, value: real)
    requires 0 <= v <= 255 && 0.0 <= value <= 100.0
    ensures 0 <= HighlightByte(v, value) <= 255
    ensures v > HighlightThreshold ==> HighlightThreshold <= HighlightByte(v, value) <= v
  {
    if v > HighlightThreshold {
      CompressedBetween(v, value / 100.0);
      StoreBetween(HighlightThreshold as real + (v - HighlightThreshold) as real * (value / 100.0), HighlightThreshold, v);
    }
  }

  /** For a value in [0, 100] the highlights stage only compresses: a channel
      above 192 ends between 192 and where it was, and nothing leaves the byte range. */
  lemma HighlightsCompress(s: seq<int>, value: real)
    requires AllBytes(s) && 0.0 <= value <= 100.0
    ensures AllBytes(Highlights(s, value))
    ensures forall j :: 0 <= j < |s| && s[j] > HighlightThreshold ==>
      HighlightThreshold <= Highlights(s, value)[j] <= s[j]
  {
    forall j | 0 <= j < |s| && j % 4 != 3 {
      HighlightByteBounds(s[j], value);
    }
  }

  /** A value of 100 (factor 1) changes nothing. */
  lemma HighlightsFullValue(s: seq<int>)
    requires AllBytes(s)
    ensures Highlights(s, 100.0) == s
  {
    forall j | 0 <= j < |s| && j % 4 != 3 && s[j] > HighlightThreshold
      ensures Highlights(s, 100.0)[j] == s[j]
    {
      assert HighlightThreshold as real + (s[j] - HighlightThreshold) as real * (100.0 / 100.0) == s[j] as real;
      StoreByte(s[j]);
    }
  }

  method ApplyHighlights(data: array<int>, value: real)
    requires data.Length % 4 == 0
    modifies data
    ensures data[..] == Highlights(old(data[..]), value)
  {
    ghost var s0 := data[..];
    var factor := value / 100.0;
    var i := 0;
    while i < data.Length
      invariant 0 <= i <= data.Length && i % 4 == 0
      invariant forall j :: 0 <= j < i ==> data[j] == HighlightsAt(s0, value, j)
      invariant forall j :: i <= j < data.Length ==> data[j] == s0[j]
    {
      PixelBytes(i);
      var c := 0;
      while c < 3
        invariant 0 <= c <= 3
        invariant forall j :: 0 <= j < i + c ==> data[j] == HighlightsAt(s0, value, j)
        invariant forall j :: i + c <= j < data.Length ==> data[j] == s0[j]
      {
        assert (i + c) % 4 == c;
        ghost var expected := HighlightsAt(s0, value, i + c);
        if data[i + c] > HighlightThreshold {
          data[i + c] := CompressHighlight(data[i + c], factor);
        }
        assert data[i + c] == expected;
        c := c + 1;
      }
      i := i + 4;
    }
  }

  /** Luminance of the pixel whose red byte is at index i. */
  function Luminance(s: seq<int>, i: int): real
    requires 0 <= i && i + 2 < |s|
  {
    0.299 * s[i] as real + 0.587 * s[i + 1] as real + 0.114 * s[i + 2] as real
  }

  /** The image applyLuminanceThreshold leaves behind: a pixel whose luminance
      exceeds value * 2.55 turns white, every other pixel keeps its bytes. */
  function LuminanceClipAt(s: seq<int>, value: real, j: int): int
    requires |s| % 4 == 0 && 0 <= j < |s|
  {
    if j % 4 != 3 && Luminance(s, j - j % 4) > value * 2.55 then 255 else s[j]
  }

  function LuminanceClip(s: seq<int>, value: real): (r: seq<int>)
    requires |s| % 4 == 0
    ensures AlphaUnchanged(s, r)
  {
    seq(|s|, j requires 0 <= j < |s| => LuminanceClipAt(s, value, j))
  }

  /** A pixel brighter than value * 2.55 turns white; any other keeps its colour. */
  lemma LuminanceClipPixel(s: seq<int>, value: real, i: int)
    requires |s| % 4 == 0 && 0 <= i < |s| && i % 4 == 0
    ensures i + 2 < |s|
    ensures var r := LuminanceClip(s, value);
      if Luminance(s, i) > value * 2.55 then r[i] == r[i + 1] == r[i + 2] == 255
      else r[i] == s[i] && r[i + 1] == s[i + 1] && r[i + 2] == s[i + 2]
  {
    PixelBytes(i);
    assert i + 1 - (i + 1) % 4 == i && i + 2 - (i + 2) % 4 == i;
  }

  /** The luminance of byte-valued channels never exceeds 255. */
  lemma LuminanceAtMost255(s: seq<int>, i: int)
    requires 0 <= i && i + 2 < |s| && 0 <= s[i] <= 255 && 0 <= s[i + 1] <= 255 && 0 <= s[i + 2] <= 255
    ensures Luminance(s, i) <= 255.0
  {
  }

  /** With a threshold of 100 % or more no pixel is bright enough to be clipped. */
  lemma LuminanceClipFullValue(s: seq<int>, value: real)
    requires |s| % 4 == 0 && AllBytes(s) && value >= 100.0
    ensures LuminanceClip(s, value) == s
  {
    assert value * 2.55 >= 255.0;
    forall j | 0 <= j < |s|
      ensures LuminanceClipAt(s, value, j) == s[j]
    {
      if j % 4 != 3 {
        var i := j - j % 4;
        assert 0 <= i && i + 2 < |s|;
        LuminanceAtMost255(s, i);
      }
    }
  }

  method ApplyLuminanceThreshold(data: array<int>, value: real)
    requires data.Length % 4 == 0
    modifies data
    ensures data[..] == LuminanceClip(old(data[..]), value)
  {
    ghost var s0 := data[..];
    var threshold := value * 2.55;
    var i := 0;
    while i < data.Length
      invariant 0 <= i <= data.Length && i % 4 == 0
      invariant forall j :: 0 <= j < i ==> data[j] == LuminanceClipAt(s0, value, j)
      invariant forall j :: i <= j < data.Length ==> data[j] == s0[j]
    {
      var luminance := 0.299 * data[i] as real + 0.587 * data[i + 1] as real + 0.114 * data[i + 2] as real;
      assert luminance == Luminance(s0, i);
      PixelBytes(i);
      assert i + 1 - (i + 1) % 4 == i && i + 2 - (i + 2) % 4 == i;
      if luminance > threshold {
        data[i], data[i + 1], data[i + 2] := 255, 255, 255;
      }
      assert data[i] == LuminanceClipAt(s0, value, i) && data[i + 1] == LuminanceClipAt(s0, value, i + 1);
      assert data[i + 2] == LuminanceClipAt(s0, value, i + 2) && data[i + 3] == LuminanceClipAt(s0, value, i + 3);
      i := i + 4;
    }
  }

  /** The image applyColorInversion leaves behind: 255 - v in R, G and B. */
  function InvertByte(v: int): int
  {
    ToByteClamped(255.0 - v as real)
  }

  function InvertAt(s: seq<int>, j: int): int
    requires 0 <= j < |s|
  {
    if j % 4 == 3 then s[j] else InvertByte(s[j])
  }

  function Invert(s: seq<int>): (r: seq<int>)
    ensures AlphaUnchanged(s, r) && (AllBytes(s) ==> AllBytes(r))
    ensures forall j :: 0 <= j < |s| && j % 4 != 3 && 0 <= s[j] <= 255 ==> r[j] == 255 - s[j]
  {
    seq(|s|, j requires 0 <= j < |s| => InvertAt(s, j))
  }

  /** Inverting twice restores every byte. */
  lemma InvertInvolution(s: seq<int>)
    requires AllBytes(s)
    ensures Invert(Invert(s)) == s
  {
    forall j | 0 <= j < |s| && j % 4 != 3 ensures Invert(s)[j] == 255 - s[j] {
      StoreByte(255 - s[j]);
    }
  }

  method ApplyColorInversion(data: array<int>)
    requires data.Length % 4 == 0
    modifies data
    ensures data[..] == Invert(old(data[..]))
  {
    ghost var s0 := data[..];
    var i := 0;
    while i < data.Length
      invariant 0 <= i <= data.Length && i % 4 == 0
      invariant forall j :: 0 <= j < i ==> data[j] == InvertAt(s0, j)
      invariant forall j :: i <= j < data.Length ==> data[j] == s0[j]
    {
      PixelBytes(i);
      data[i] := InvertByte(data[i]);
      data[i + 1] := InvertByte(data[i + 1]);
      data[i + 2] := InvertByte(data[i + 2]);
      assert data[i] == InvertAt(s0, i) && data[i + 1] == InvertAt(s0, i + 1);
      assert data[i + 2] == InvertAt(s0, i + 2) && data[i + 3] == InvertAt(s0, i + 3);
      i := i + 4;
    }
  }
}
