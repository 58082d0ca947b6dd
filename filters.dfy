/** The noise and filter stages of imageProcessing.js: salt-and-pepper and
    gaussian noise (Math.random's results given as a sequence of draws),
    the edge-clamped box blur and the block pixelation. Each rewrites R, G
    and B of the ImageData in place and never writes alpha. */
module Filters {
  import opened Pixels

  // Salt and pepper noise

  /** The second draw of a hit: below 0.5 is pepper (0), otherwise salt (255). */
  function Speck(d: real): (v: int)
    ensures v == 0 || v == 255
  {
    if d < 0.5 then 0 else 255
  }

  /** The three colour bytes of the pixel at i were kept. */
  predicate Kept(s: seq<int>, r: seq<int>, i: int)
    requires 0 <= i && i + 2 < |s| && |r| == |s|
  {
    r[i] == s[i] && r[i + 1] == s[i + 1] && r[i + 2] == s[i + 2]
  }

  /** The pixel at i is pure black or pure white. */
  predicate Speckled(r: seq<int>, i: int)
    requires 0 <= i && i + 2 < |r|
  {
    (r[i] == 0 || r[i] == 255) && r[i + 1] == r[i] && r[i + 2] == r[i]
  }

  /** applySaltPepperNoise from the pixel whose red byte is at i on, with the
      next unused draw at d: one draw decides a hit, and only a hit consumes
      a second draw for its colour. */
  function SaltPepperFrom(s: seq<int>, draws: seq<real>, intensity: real, i: int, d: nat): (r: seq<int>)
    requires |s| % 4 == 0 && 0 <= i <= |s| && i % 4 == 0
    requires 2 * d + (|s| - i) <= 2 * |draws|
    ensures |r| == |s|
    decreases |s| - i
  {
    if i == |s| then s
    else if draws[d] < intensity then
      var v := Speck(draws[d + 1]);
      SaltPepperFrom(s[i := v][i + 1 := v][i + 2 := v], draws, intensity, i + 4, d + 2)
    else SaltPepperFrom(s, draws, intensity, i + 4, d + 1)
  }

  /** The whole pass; two draws per pixel are always enough. */
  function SaltPepper(s: seq<int>, draws: seq<real>, intensity: real): (r: seq<int>)
    requires |s| % 4 == 0 && 2 * (|s| / 4) <= |draws|
    ensures |r| == |s|
  {
    SaltPepperFrom(s, draws, intensity, 0, 0)
  }

  /** Bytes before i are never written. */
  lemma {:induction false} SaltPepperFromPrefix(s: seq<int>, draws: seq<real>, intensity: real, i: int, d: nat)
    requires |s| % 4 == 0 && 0 <= i <= |s| && i % 4 == 0
    requires 2 * d + (|s| - i) <= 2 * |draws|
    ensures forall j :: 0 <= j < i ==> SaltPepperFrom(s, draws, intensity, i, d)[j] == s[j]
    decreases |s| - i
  {
    if i < |s| {
      if draws[d] < intensity {
        var v := Speck(draws[d + 1]);
        SaltPepperFromPrefix(s[i := v][i + 1 := v][i + 2 := v], draws, intensity, i + 4, d + 2);
      } else {
        SaltPepperFromPrefix(s, draws, intensity, i + 4, d + 1);
      }
    }
  }

  /** Alpha is never written. */
  lemma {:induction false} SaltPepperFromAlpha(s: seq<int>, draws: seq<real>, intensity: real, i: int, d: nat)
    requires |s| % 4 == 0 && 0 <= i <= |s| && i % 4 == 0
    requires 2 * d + (|s| - i) <= 2 * |draws|
    ensures AlphaUnchanged(s, SaltPepperFrom(s, draws, intensity, i, d))
    decreases |s| - i
  {
    if i < |s| {
      if draws[d] < intensity {
        var v := Speck(draws[d + 1]);
        var s' := s[i := v][i + 1 := v][i + 2 := v];
        PixelBytes(i);
        assert AlphaUnchanged(s, s');
        SaltPepperFromAlpha(s', draws, intensity, i + 4, d + 2);
      } else {
        SaltPepperFromAlpha(s, draws, intensity, i + 4, d + 1);
      }
    }
  }

  /** The index of the draw that decides the pixel whose red byte is at q, for
      a pass that reaches pixel i with the next unused draw at d: every pixel
      in between consumes one draw, and a second one when it is hit. */
  function DrawIndexFrom(draws: seq<real>, intensity: real, i: int, d: nat, q: int): (k: nat)
    requires 0 <= i <= q && i % 4 == 0 && q % 4 == 0
    requires 2 * d + (q - i) + 4 <= 2 * |draws|
    ensures 4 * d + (q - i) <= 4 * k <= 4 * d + 2 * (q - i)
    decreases q - i
  {
    if i == q then d
    else
      QuarterStep(q, i);
      if draws[d] < intensity then DrawIndexFrom(draws, intensity, i + 4, d + 2, q)
      else DrawIndexFrom(draws, intensity, i + 4, d + 1, q)
  }

  /** The draw that decides pixel q in the whole pass: at least one and at most
      two draws were consumed by each earlier pixel. */
  function DrawIndex(draws: seq<real>, intensity: real, q: int): (k: nat)
    requires 0 <= q && q % 4 == 0 && q + 4 <= 2 * |draws|
    ensures q <= 4 * k <= 2 * q && k + 1 < |draws|
  {
    DrawIndexFrom(draws, intensity, 0, 0, q)
  }

  /** Pixel q of r is what draw k decides for it: R, G and B set to the speck
      of the next draw when draw k is below the intensity, s's bytes otherwise. */
  predicate Decided(s: seq<int>, r: seq<int>, draws: seq<real>, intensity: real, k: nat, q: int)
    requires |r| == |s| && 0 <= q && q + 2 < |s| && k + 1 < |draws|
  {
    if draws[k] < intensity then r[q] == Speck(draws[k + 1]) && r[q + 1] == r[q] && r[q + 2] == r[q]
    else Kept(s, r, q)
  }

  /** Pixel q of the pass from i on is decided by the draw DrawIndexFrom names. */
  lemma {:induction false} SaltPepperFromPixel(s: seq<int>, draws: seq<real>, intensity: real, i: int, d: nat, q: int)
    requires |s| % 4 == 0 && 0 <= i <= q < |s| && i % 4 == 0 && q % 4 == 0
    requires 2 * d + (|s| - i) <= 2 * |draws|
    ensures 2 * d + (q - i) + 4 <= 2 * |draws|
    ensures Decided(s, SaltPepperFrom(s, draws, intensity, i, d), draws, intensity, DrawIndexFrom(draws, intensity, i, d, q), q)
    decreases |s| - i
  {
    if i == q {
      SaltPepperFromStart(s, draws, intensity, i, d);
    } else {
      var s', d' := SaltPepperFromSkip(s, draws, intensity, i, d, q);
      SaltPepperFromPixel(s', draws, intensity, i + 4, d', q);
      DecidedTransfer(s, s', SaltPepperFrom(s', draws, intensity, i + 4, d'), draws, intensity, DrawIndexFrom(draws, intensity, i + 4, d', q), q);
    }
  }

  /** Whether pixel q was decided depends only on q's own bytes of the image before. */
  lemma DecidedTransfer(s: seq<int>, s': seq<int>, r: seq<int>, draws: seq<real>, intensity: real, k: nat, q: int)
    requires |s| == |s'| == |r| && 0 <= q && q + 2 < |s| && k + 1 < |draws|
    requires s'[q] == s[q] && s'[q + 1] == s[q + 1] && s'[q + 2] == s[q + 2]
    requires Decided(s', r, draws, intensity, k, q)
    ensures Decided(s, r, draws, intensity, k, q)
  {
  }

  /** The pixel the pass starts at is decided by the next unused draw. */
  lemma SaltPepperFromStart(s: seq<int>, draws: seq<real>, intensity: real, i: int, d: nat)
    requires |s| % 4 == 0 && 0 <= i < |s| && i % 4 == 0
    requires 2 * d + (|s| - i) <= 2 * |draws|
    ensures d + 2 <= |draws|
    ensures Decided(s, SaltPepperFrom(s, draws, intensity, i, d), draws, intensity, d, i)
  {
    QuarterStep(|s|, i);
    if draws[d] < intensity {
      var v := Speck(draws[d + 1]);
      SaltPepperFromPrefix(s[i := v][i + 1 := v][i + 2 := v], draws, intensity, i + 4, d + 2);
    } else {
      SaltPepperFromPrefix(s, draws, intensity, i + 4, d + 1);
    }
  }

  /** One step of the pass before pixel q: the pass from i is the pass from i + 4
      on the image after pixel i, which still holds q's bytes, with the draws
      pixel i consumed skipped. */
  lemma SaltPepperFromSkip(s: seq<int>, draws: seq<real>, intensity: real, i: int, d: nat, q: int) returns (s': seq<int>, d': nat)
    requires |s| % 4 == 0 && 0 <= i < q < |s| && i % 4 == 0 && q % 4 == 0
    requires 2 * d + (|s| - i) <= 2 * |draws|
    ensures |s'| == |s| && i + 4 <= q && (i + 4) % 4 == 0 && d + 1 <= d' <= d + 2
    ensures |s'| % 4 == 0 && i + 4 <= q < |s'| && 2 * d' + (|s'| - (i + 4)) <= 2 * |draws|
    ensures 2 * d + (q - i) + 4 <= 2 * |draws| && 2 * d' + (q - (i + 4)) + 4 <= 2 * |draws|
    ensures SaltPepperFrom(s, draws, intensity, i, d) == SaltPepperFrom(s', draws, intensity, i + 4, d')
    ensures DrawIndexFrom(draws, intensity, i, d, q) == DrawIndexFrom(draws, intensity, i + 4, d', q)
    ensures s'[q] == s[q] && s'[q + 1] == s[q + 1] && s'[q + 2] == s[q + 2]
  {
    QuarterStep(|s|, i);
    QuarterStep(q, i);
    if draws[d] < intensity {
      var v := Speck(draws[d + 1]);
      s', d' := s[i := v][i + 1 := v][i + 2 := v], d + 2;
    } else {
      s', d' := s, d + 1;
    }
  }

  /** The per-pixel promise of applySaltPepperNoise: a pixel changes only when
      its deciding draw is below the intensity, and such a pixel becomes pure
      black or pure white as the following draw says. */
  lemma SaltPepperPixel(s: seq<int>, draws: seq<real>, intensity: real, q: int)
    requires |s| % 4 == 0 && 2 * (|s| / 4) <= |draws|
    requires 0 <= q < |s| && q % 4 == 0
    ensures q + 4 <= 2 * |draws|
    ensures !Kept(s, SaltPepper(s, draws, intensity), q) ==> draws[DrawIndex(draws, intensity, q)] < intensity
    ensures draws[DrawIndex(draws, intensity, q)] < intensity ==>
      var r := SaltPepper(s, draws, intensity);
      var v := Speck(draws[DrawIndex(draws, intensity, q) + 1]);
      r[q] == v && r[q + 1] == v && r[q + 2] == v
  {
    SaltPepperFromPixel(s, draws, intensity, 0, 0, q);
  }

  /** Every pixel is decided by its own draw, so it is kept or turned pure black
      or white, and alpha is never written. */
  lemma SaltPepperShape(s: seq<int>, draws: seq<real>, intensity: real)
    requires |s| % 4 == 0 && 2 * (|s| / 4) <= |draws|
    ensures AlphaUnchanged(s, SaltPepper(s, draws, intensity))
    ensures forall q :: 0 <= q < |s| && q % 4 == 0 ==>
      Kept(s, SaltPepper(s, draws, intensity), q) || Speckled(SaltPepper(s, draws, intensity), q)
    ensures forall q :: 0 <= q < |s| && q % 4 == 0 ==>
      q + 4 <= 2 * |draws| && Decided(s, SaltPepper(s, draws, intensity), draws, intensity, DrawIndex(draws, intensity, q), q)
  {
    SaltPepperFromAlpha(s, draws, intensity, 0, 0);
    forall q | 0 <= q < |s| && q % 4 == 0
      ensures q + 4 <= 2 * |draws|
      ensures Decided(s, SaltPepper(s, draws, intensity), draws, intensity, DrawIndex(draws, intensity, q), q)
      ensures Kept(s, SaltPepper(s, draws, intensity), q) || Speckled(SaltPepper(s, draws, intensity), q)
    {
      SaltPepperFromPixel(s, draws, intensity, 0, 0, q);
    }
  }

  /** When no draw falls below the intensity, nothing changes. */
  lemma {:induction false} SaltPepperNoHit(s: seq<int>, draws: seq<real>, intensity: real, i: int, d: nat)
    requires |s| % 4 == 0 && 0 <= i <= |s| && i % 4 == 0
    requires 2 * d + (|s| - i) <= 2 * |draws|
    requires forall k :: 0 <= k < |draws| ==> intensity <= draws[k]
    ensures SaltPepperFrom(s, draws, intensity, i, d) == s
    decreases |s| - i
  {
    if i < |s| {
      SaltPepperNoHit(s, draws, intensity, i + 4, d + 1);
    }
  }

  /** When every draw falls below the intensity, every pixel is hit. */
  lemma {:induction false} SaltPepperAllHit(s: seq<int>, draws: seq<real>, intensity: real, i: int, d: nat)
    requires |s| % 4 == 0 && 0 <= i <= |s| && i % 4 == 0
    requires 2 * d + (|s| - i) <= 2 * |draws|
    requires forall k :: 0 <= k < |draws| ==> draws[k] < intensity
    ensures forall q :: i <= q < |s| && q % 4 == 0 ==> Speckled(SaltPepperFrom(s, draws, intensity, i, d), q)
    decreases |s| - i
  {
    if i < |s| {
      var v := Speck(draws[d + 1]);
      var s' := s[i := v][i + 1 := v][i + 2 := v];
      SaltPepperAllHit(s', draws, intensity, i + 4, d + 2);
      SaltPepperFromPrefix(s', draws, intensity, i + 4, d + 2);
    }
  }

  /** Stepping from one pixel to the next in a buffer of whole pixels. */
  lemma QuarterStep(n: int, i: int)
    requires i % 4 == 0 && n % 4 == 0 && 0 <= i < n
    ensures i + 4 <= n && (i + 4) % 4 == 0
    ensures (n - i) / 4 == (n - (i + 4)) / 4 + 1 && (i + 4) / 4 == i / 4 + 1 && i / 4 < n / 4
  {
  }

  method ApplySaltPepperNoise(data: array<int>, intensity: real, draws: seq<real>)
    requires data.Length % 4 == 0 && 2 * (data.Length / 4) <= |draws|
    modifies data
    ensures data[..] == SaltPepper(old(data[..]), draws, intensity)
  {
    ghost var s0 := data[..];
    var i := 0;
    var d := 0;
    while i < data.Length
      invariant 0 <= i <= data.Length && i % 4 == 0
      invariant 2 * d + (data.Length - i) <= 2 * |draws|
      invariant SaltPepperFrom(data[..], draws, intensity, i, d) == SaltPepper(s0, draws, intensity)
    {
      QuarterStep(data.Length, i);
      if draws[d] < intensity {
        var value := if draws[d + 1] < 0.5 then 0 else 255;
        ghost var before := data[..];
        data[i], data[i + 1], data[i + 2] := value, value, value;
        assert data[..] == before[i := value][i + 1 := value][i + 2 := value];
        d := d + 2;
      } else {
        d := d + 1;
      }
      i := i + 4;
    }
  }

  // Gaussian noise

  /** (draw - 0.5) * 2 * 255 * intensity. */
  function Noise(draw: real, intensity: real): real
  {
    (draw - 0.5) * 2.0 * 255.0 * intensity
  }

  /** One channel value with its noise added, clamped and stored. */
  function Noisy(v: int, draw: real, intensity: real): int
  {
    ToByteClamped(Clamp(v as real + Noise(draw, intensity)))
  }

  /** Channel c of pixel p takes draw 3p + c. */
  function GaussianAt(s: seq<int>, draws: seq<real>, intensity: real, j: int): int
    requires 0 <= j < |s| && 3 * (|s| / 4) <= |draws| && |s| % 4 == 0
  {
    if j % 4 == 3 then s[j] else Noisy(s[j], draws[3 * (j / 4) + j % 4], intensity)
  }

  function GaussianNoise(s: seq<int>, draws: seq<real>, intensity: real): (r: seq<int>)
    requires |s| % 4 == 0 && 3 * (|s| / 4) <= |draws|
    ensures |r| == |s|
  {
    seq(|s|, j requires 0 <= j < |s| => GaussianAt(s, draws, intensity, j))
  }

  /** The four bytes of the pixel whose red byte is at i, each with its own draw. */
  lemma GaussianPixel(s: seq<int>, draws: seq<real>, intensity: real, i: int)
    requires |s| % 4 == 0 && 3 * (|s| / 4) <= |draws| && 0 <= i && i + 3 < |s| && i % 4 == 0
    ensures 3 * (i / 4) + 2 < |draws|
    ensures GaussianAt(s, draws, intensity, i) == Noisy(s[i], draws[3 * (i / 4)], intensity)
    ensures GaussianAt(s, draws, intensity, i + 1) == Noisy(s[i + 1], draws[3 * (i / 4) + 1], intensity)
    ensures GaussianAt(s, draws, intensity, i + 2) == Noisy(s[i + 2], draws[3 * (i / 4) + 2], intensity)
    ensures GaussianAt(s, draws, intensity, i + 3) == s[i + 3]
  {
    PixelBytes(i);
    QuarterStep(|s|, i);
  }

  /** Alpha is kept, every result is a byte, and with intensity 0 the image is unchanged. */
  lemma GaussianShape(s: seq<int>, draws: seq<real>, intensity: real)
    requires |s| % 4 == 0 && 3 * (|s| / 4) <= |draws|
    ensures AlphaUnchanged(s, GaussianNoise(s, draws, intensity))
    ensures AllBytes(s) ==> AllBytes(GaussianNoise(s, draws, intensity))
    ensures intensity == 0.0 && AllBytes(s) ==> GaussianNoise(s, draws, intensity) == s
  {
    if intensity == 0.0 && AllBytes(s) {
      forall j | 0 <= j < |s| && j % 4 != 3 ensures GaussianNoise(s, draws, intensity)[j] == s[j] {
        StoreByte(s[j]);
      }
    }
  }

  method ApplyGaussianNoise(data: array<int>, intensity: real, draws: seq<real>)
    requires data.Length % 4 == 0 && 3 * (data.Length / 4) <= |draws|
    modifies data
    ensures data[..] == GaussianNoise(old(data[..]), draws, intensity)
  {
    ghost var s0 := data[..];
    var i := 0;
    var d := 0;
    while i < data.Length
      invariant 0 <= i <= data.Length && i % 4 == 0 && d == 3 * (i / 4)
      invariant forall j :: 0 <= j < i ==> data[j] == GaussianAt(s0, draws, intensity, j)
      invariant forall j :: i <= j < data.Length ==> data[j] == s0[j]
    {
      QuarterStep(data.Length, i);
      GaussianPixel(s0, draws, intensity, i);
      data[i] := Noisy(data[i], draws[d], intensity);
      data[i + 1] := Noisy(data[i + 1], draws[d + 1], intensity);
      data[i + 2] := Noisy(data[i + 2], draws[d + 2], intensity);
      assert data[i] == GaussianAt(s0, draws, intensity, i) && data[i + 1] == GaussianAt(s0, draws, intensity, i + 1);
      assert data[i + 2] == GaussianAt(s0, draws, intensity, i + 2) && data[i + 3] == GaussianAt(s0, draws, intensity, i + 3);
      i := i + 4;
      d := d + 3;
    }
  }

  // Box blur

  /** Math.max(3, Math.min(11, Math.floor(intensity * 10) + 1)). */
  function KernelSize(intensity: real): (k: int)
    ensures 3 <= k <= 11
  {
    var raw := (intensity * 10.0).Floor + 1;
    if raw > 11 then 11 else if raw < 3 then 3 else raw
  }

  /** Math.floor(kernelSize / 2): the window reaches this far on each side. */
  function HalfKernel(intensity: real): (h: nat)
    ensures 1 <= h <= 5 && (KernelSize(intensity) == 2 * h || KernelSize(intensity) == 2 * h + 1)
  {
    KernelSize(intensity) / 2
  }

  /** Math.min(n - 1, Math.max(0, v)): the edge-clamped coordinate. */
  function ClampCoord(v: int, n: int): (r: int)
    requires n > 0
    ensures 0 <= r < n
    ensures 0 <= v < n ==> r == v
  {
    if v < 0 then 0 else if v > n - 1 then n - 1 else v
  }

  /** The index of the red byte of the pixel at row y, column x. */
  function PixelIndex(width: int, y: int, x: int): int
  {
    (y * width + x) * 4
  }

  lemma PixelInImage(y: int, x: int, width: int, height: int)
    requires 0 <= y < height && 0 <= x < width
    ensures 0 <= PixelIndex(width, y, x) && PixelIndex(width, y, x) + 3 < width * height * 4
    ensures PixelIndex(width, y, x) % 4 == 0
  {
    InImage(y, x, width, height);
  }

  /** A byte index inside a width x height image means both sides are positive. */
  lemma PositiveSides(j: int, width: nat, height: nat)
    requires 0 <= j < width * height * 4
    ensures width > 0 && height > 0
  {
  }

  /** Channel c of the pixel at the edge-clamped position (y, x), read from the copy. */
  function Sample(o: seq<int>, width: nat, height: nat, y: int, x: int, c: int): int
    requires |o| == width * height * 4 && width > 0 && height > 0 && 0 <= c < 4
  {
    var py := ClampCoord(y, height);
    var px := ClampCoord(x, width);
    PixelInImage(py, px, width, height);
    o[PixelIndex(width, py, px) + c]
  }

  /** The first n samples of the window row at y, from column x - half on. */
  function RowSum(o: seq<int>, width: nat, height: nat, half: nat, y: int, x: int, c: int, n: nat): int
    requires |o| == width * height * 4 && width > 0 && height > 0 && 0 <= c < 4
  {
    if n == 0 then 0 else RowSum(o, width, height, half, y, x, c, n - 1) + Sample(o, width, height, y, x - half + (n - 1), c)
  }

  /** The first m rows of the window, from row y - half on. */
  function WindowSum(o: seq<int>, width: nat, height: nat, half: nat, y: int, x: int, c: int, m: nat): int
    requires |o| == width * height * 4 && width > 0 && height > 0 && 0 <= c < 4
  {
    if m == 0 then 0
    else WindowSum(o, width, height, half, y, x, c, m - 1) + RowSum(o, width, height, half, y - half + (m - 1), x, c, 2 * half + 1)
  }

  /** The mean of samples adding up to total, before it is stored. */
  function Mean(total: int, count: int): real
    requires count > 0
  {
    total as real / count as real
  }

  /** The stored mean of the (2 half + 1)^2 samples around (y, x). */
  function BlurValue(o: seq<int>, width: nat, height: nat, half: nat, y: int, x: int, c: int): int
    requires |o| == width * height * 4 && width > 0 && height > 0 && 0 <= c < 4
  {
    var k := 2 * half + 1;
    ToByteClamped(Mean(WindowSum(o, width, height, half, y, x, c, k), k * k))
  }

  function BlurAt(o: seq<int>, width: nat, height: nat, half: nat, j: int): int
    requires |o| == width * height * 4 && 0 <= j < |o|
  {
    if j % 4 == 3 then o[j]
    else
      PositiveSides(j, width, height);
      BlurValue(o, width, height, half, (j / 4) / width, (j / 4) % width, j % 4)
  }

  /** The image applyBlur leaves behind, reading every sample from the unmodified copy o. */
  function Blurred(o: seq<int>, width: nat, height: nat, half: nat): (r: seq<int>)
    requires |o| == width * height * 4
    ensures AlphaUnchanged(o, r)
  {
    seq(|o|, j requires 0 <= j < |o| => BlurAt(o, width, height, half, j))
  }

  /** Channel c holds v in every pixel. */
  predicate ChannelIs(o: seq<int>, c: int, v: int)
  {
    forall j :: 0 <= j < |o| && j % 4 == c ==> o[j] == v
  }

  lemma {:induction false} RowSumOfConstant(o: seq<int>, width: nat, height: nat, half: nat, y: int, x: int, c: int, v: int, n: nat)
    requires |o| == width * height * 4 && width > 0 && height > 0 && 0 <= c < 4 && ChannelIs(o, c, v)
    ensures RowSum(o, width, height, half, y, x, c, n) == n * v
  {
    if n > 0 {
      RowSumOfConstant(o, width, height, half, y, x, c, v, n - 1);
      SampleOfConstant(o, width, height, y, x - half + (n - 1), c, v);
      assert n * v == (n - 1) * v + v;
    }
  }

  lemma SampleOfConstant(o: seq<int>, width: nat, height: nat, y: int, x: int, c: int, v: int)
    requires |o| == width * height * 4 && width > 0 && height > 0 && 0 <= c < 4 && ChannelIs(o, c, v)
    ensures Sample(o, width, height, y, x, c) == v
  {
    ByteOfConstant(o, width, height, ClampCoord(y, height), ClampCoord(x, width), c, v);
  }

  lemma ByteOfConstant(o: seq<int>, width: nat, height: nat, y: int, x: int, c: int, v: int)
    requires |o| == width * height * 4 && 0 <= y < height && 0 <= x < width && 0 <= c < 4 && ChannelIs(o, c, v)
    ensures 0 <= PixelIndex(width, y, x) + c < |o| && o[PixelIndex(width, y, x) + c] == v
  {
    PixelInImage(y, x, width, height);
    assert (PixelIndex(width, y, x) + c) % 4 == c;
  }

  lemma {:induction false} WindowSumOfConstant(o: seq<int>, width: nat, height: nat, half: nat, y: int, x: int, c: int, v: int, m: nat)
    requires |o| == width * height * 4 && width > 0 && height > 0 && 0 <= c < 4 && ChannelIs(o, c, v)
    ensures WindowSum(o, width, height, half, y, x, c, m) == m * ((2 * half + 1) * v)
  {
    if m > 0 {
      WindowSumOfConstant(o, width, height, half, y, x, c, v, m - 1);
      RowSumOfConstant(o, width, height, half, y - half + (m - 1), x, c, v, 2 * half + 1);
      assert m * ((2 * half + 1) * v) == (m - 1) * ((2 * half + 1) * v) + (2 * half + 1) * v;
    }
  }

  lemma SquarePositive(k: int)
    requires k > 0
    ensures k * k > 0
  {
    MulMono(1, k, k);
  }

  /** The mean of n copies of v is v. */
  lemma MeanOfCopies(n: int, v: int)
    requires n > 0
    ensures Mean(n * v, n) == v as real
  {
    assert (n * v) as real == n as real * v as real;
  }

  /** A channel that holds one byte value everywhere is left as it is: the
      window always averages exactly (2 half + 1)^2 samples. */
  lemma BlurOfConstant(o: seq<int>, width: nat, height: nat, half: nat, c: int, v: int)
    requires |o| == width * height * 4 && 0 <= c < 3 && 0 <= v <= 255 && ChannelIs(o, c, v)
    ensures ChannelIs(Blurred(o, width, height, half), c, v)
  {
    forall j | 0 <= j < |o| && j % 4 == c ensures Blurred(o, width, height, half)[j] == v {
      PositiveSides(j, width, height);
      BlurValueOfConstant(o, width, height, half, (j / 4) / width, (j / 4) % width, c, v);
    }
  }

  lemma BlurValueOfConstant(o: seq<int>, width: nat, height: nat, half: nat, y: int, x: int, c: int, v: int)
    requires |o| == width * height * 4 && width > 0 && height > 0 && 0 <= c < 3 && 0 <= v <= 255 && ChannelIs(o, c, v)
    ensures BlurValue(o, width, height, half, y, x, c) == v
  {
    var k := 2 * half + 1;
    WindowTotalOfConstant(o, width, height, half, y, x, c, v);
    MeanOfCopies(k * k, v);
    StoreByte(v);
  }

  lemma WindowTotalOfConstant(o: seq<int>, width: nat, height: nat, half: nat, y: int, x: int, c: int, v: int)
    requires |o| == width * height * 4 && width > 0 && height > 0 && 0 <= c < 4 && ChannelIs(o, c, v)
    ensures WindowSum(o, width, height, half, y, x, c, 2 * half + 1) == ((2 * half + 1) * (2 * half + 1)) * v
  {
    var k := 2 * half + 1;
    WindowSumOfConstant(o, width, height, half, y, x, c, v, k);
    MulAssoc(k, k, v);
  }

  /** The inner window loop: the samples of window row y + ky are added to the running sums. */
  method WindowRow(o: seq<int>, width: nat, height: nat, halfKernel: nat, y: int, x: int, ky: int, r0: int, g0: int, b0: int, count0: int)
    returns (r: int, g: int, b: int, count: int)
    requires |o| == width * height * 4 && width > 0 && height > 0
    ensures r == r0 + RowSum(o, width, height, halfKernel, y + ky, x, 0, 2 * halfKernel + 1)
    ensures g == g0 + RowSum(o, width, height, halfKernel, y + ky, x, 1, 2 * halfKernel + 1)
    ensures b == b0 + RowSum(o, width, height, halfKernel, y + ky, x, 2, 2 * halfKernel + 1)
    ensures count == count0 + (2 * halfKernel + 1)
  {
    r, g, b, count := r0, g0, b0, count0;
    var kx: int := -(halfKernel as int);
    while kx <= halfKernel
      invariant -(halfKernel as int) <= kx <= halfKernel + 1
      invariant r == r0 + RowSum(o, width, height, halfKernel, y + ky, x, 0, kx + halfKernel)
      invariant g == g0 + RowSum(o, width, height, halfKernel, y + ky, x, 1, kx + halfKernel)
      invariant b == b0 + RowSum(o, width, height, halfKernel, y + ky, x, 2, kx + halfKernel)
      invariant count == count0 + (kx + halfKernel)
    {
      var posX := if width - 1 < (if 0 < x + kx then x + kx else 0) then width - 1 else (if 0 < x + kx then x + kx else 0);
      var posY := if height - 1 < (if 0 < y + ky then y + ky else 0) then height - 1 else (if 0 < y + ky then y + ky else 0);
      assert posX == ClampCoord(x + kx, width) && posY == ClampCoord(y + ky, height);
      PixelInImage(posY, posX, width, height);
      var idx := (posY * width + posX) * 4;
      r := r + o[idx];
      g := g + o[idx + 1];
      b := b + o[idx + 2];
      count := count + 1;
      kx := kx + 1;
    }
  }

  /** The window loops for one pixel: the sums and the sample count. */
  method WindowSums(o: seq<int>, width: nat, height: nat, halfKernel: nat, y: int, x: int) returns (r: int, g: int, b: int, count: int)
    requires |o| == width * height * 4 && width > 0 && height > 0
    ensures r == WindowSum(o, width, height, halfKernel, y, x, 0, 2 * halfKernel + 1)
    ensures g == WindowSum(o, width, height, halfKernel, y, x, 1, 2 * halfKernel + 1)
    ensures b == WindowSum(o, width, height, halfKernel, y, x, 2, 2 * halfKernel + 1)
    ensures count == (2 * halfKernel + 1) * (2 * halfKernel + 1) && count > 0
  {
    var k := 2 * halfKernel + 1;
    r, g, b, count := 0, 0, 0, 0;
    var ky: int := -(halfKernel as int);
    while ky <= halfKernel
      invariant -(halfKernel as int) <= ky <= halfKernel + 1
      invariant r == WindowSum(o, width, height, halfKernel, y, x, 0, ky + halfKernel)
      invariant g == WindowSum(o, width, height, halfKernel, y, x, 1, ky + halfKernel)
      invariant b == WindowSum(o, width, height, halfKernel, y, x, 2, ky + halfKernel)
      invariant count == (ky + halfKernel) * k
    {
      r, g, b, count := WindowRow(o, width, height, halfKernel, y, x, ky, r, g, b, count);
      assert (ky + halfKernel) * k + k == (ky + 1 + halfKernel) * k;
      ky := ky + 1;
    }
    SquarePositive(k);
  }

  /** The three colour bytes of pixel (y, x) in the blurred image. */
  lemma BlurAtPixel(o: seq<int>, width: nat, height: nat, half: nat, y: int, x: int)
    requires |o| == width * height * 4 && 0 <= y < height && 0 <= x < width
    ensures PixelIndex(width, y, x) + 3 < |o|
    ensures BlurAt(o, width, height, half, PixelIndex(width, y, x)) == BlurValue(o, width, height, half, y, x, 0)
    ensures BlurAt(o, width, height, half, PixelIndex(width, y, x) + 1) == BlurValue(o, width, height, half, y, x, 1)
    ensures BlurAt(o, width, height, half, PixelIndex(width, y, x) + 2) == BlurValue(o, width, height, half, y, x, 2)
    ensures BlurAt(o, width, height, half, PixelIndex(width, y, x) + 3) == o[PixelIndex(width, y, x) + 3]
  {
    BlurAtByte(o, width, height, half, y, x, 0);
    BlurAtByte(o, width, height, half, y, x, 1);
    BlurAtByte(o, width, height, half, y, x, 2);
    BlurAtByte(o, width, height, half, y, x, 3);
  }

  lemma BlurAtByte(o: seq<int>, width: nat, height: nat, half: nat, y: int, x: int, c: int)
    requires |o| == width * height * 4 && 0 <= y < height && 0 <= x < width && 0 <= c < 4
    ensures 0 <= PixelIndex(width, y, x) + c < |o|
    ensures BlurAt(o, width, height, half, PixelIndex(width, y, x) + c)
      == if c == 3 then o[PixelIndex(width, y, x) + c] else BlurValue(o, width, height, half, y, x, c)
  {
    var p := y * width + x;
    RowMajor(y, x, width, height);
    PixelInImage(y, x, width, height);
    var j := PixelIndex(width, y, x) + c;
    assert j == 4 * p + c;
    assert j % 4 == c && j / 4 == p;
  }

  /** The body of the x loop: the blurred colour of pixel (y, x), written over its three colour bytes. */
  method BlurPixel(data: array<int>, o: seq<int>, width: nat, height: nat, halfKernel: nat, y: int, x: int)
    requires data.Length == |o| == width * height * 4 && 0 <= y < height && 0 <= x < width
    requires PixelIndex(width, y, x) + 3 < |o| && data[PixelIndex(width, y, x) + 3] == o[PixelIndex(width, y, x) + 3]
    modifies data
    ensures forall j :: 0 <= j < data.Length ==>
      data[j] == if PixelIndex(width, y, x) <= j < PixelIndex(width, y, x) + 4 then BlurAt(o, width, height, halfKernel, j) else old(data[j])
  {
    var r, g, b := BlurColor(o, width, height, halfKernel, y, x);
    BlurAtPixel(o, width, height, halfKernel, y, x);
    PixelInImage(y, x, width, height);
    var idx := PixelIndex(width, y, x);
    data[idx] := r;
    data[idx + 1] := g;
    data[idx + 2] := b;
  }

  /** The three stored means of the window around (y, x). */
  method BlurColor(o: seq<int>, width: nat, height: nat, halfKernel: nat, y: int, x: int) returns (r: int, g: int, b: int)
    requires |o| == width * height * 4 && 0 <= y < height && 0 <= x < width
    ensures r == BlurValue(o, width, height, halfKernel, y, x, 0)
    ensures g == BlurValue(o, width, height, halfKernel, y, x, 1)
    ensures b == BlurValue(o, width, height, halfKernel, y, x, 2)
  {
    var red, green, blue, count := WindowSums(o, width, height, halfKernel, y, x);
    r, g, b := ToByteClamped(Mean(red, count)), ToByteClamped(Mean(green, count)), ToByteClamped(Mean(blue, count));
  }

  method ApplyBlur(data: array<int>, width: nat, height: nat, intensity: real)
    requires data.Length == width * height * 4
    modifies data
    ensures data[..] == Blurred(old(data[..]), width, height, HalfKernel(intensity))
  {
    var originalData := data[..];
    var kernelSize := KernelSize(intensity);
    var halfKernel := kernelSize / 2;
    var y := 0;
    while y < height
      invariant 0 <= y <= height && y * width <= width * height
      invariant forall j :: 0 <= j < y * width * 4 ==> data[j] == BlurAt(originalData, width, height, halfKernel, j)
      invariant forall j :: y * width * 4 <= j < data.Length ==> data[j] == originalData[j]
    {
      MulMono(y + 1, height, width);
      var x := 0;
      while x < width
        invariant 0 <= x <= width && y * width + x <= width * height
        invariant forall j :: 0 <= j < (y * width + x) * 4 ==> data[j] == BlurAt(originalData, width, height, halfKernel, j)
        invariant forall j :: (y * width + x) * 4 <= j < data.Length ==> data[j] == originalData[j]
      {
        PixelInImage(y, x, width, height);
        BlurPixel(data, originalData, width, height, halfKernel, y, x);
        x := x + 1;
      }
      assert y * width + width == (y + 1) * width;
      y := y + 1;
    }
    assert y * width == width * height;
  }

  // Pixelation

  /** Math.max(1, Math.min(100, Math.floor(intensity * 100))). */
  function BlockSize(intensity: real): (b: int)
    ensures 1 <= b <= 100
  {
    var raw := (intensity * 100.0).Floor;
    if raw > 100 then 100 else if raw < 1 then 1 else raw
  }

  /** How many rows (or columns) of a block starting at start lie inside a side of n. */
  function Extent(start: int, b: int, n: int): int
  {
    if n - start < b then n - start else b
  }

  /** The first n pixels of row y from column x0 on, channel c. */
  function BlockRowSum(o: seq<int>, width: nat, height: nat, y: int, x0: int, c: int, n: nat): int
    requires |o| == width * height * 4 && 0 <= y < height && 0 <= x0 && x0 + n <= width && 0 <= c < 4
  {
    if n == 0 then 0
    else
      PixelInImage(y, x0 + n - 1, width, height);
      BlockRowSum(o, width, height, y, x0, c, n - 1) + o[PixelIndex(width, y, x0 + n - 1) + c]
  }

  /** The first m rows of the block at (y0, x0), each cols pixels wide. */
  function BlockSum(o: seq<int>, width: nat, height: nat, y0: int, x0: int, c: int, m: nat, cols: nat): int
    requires |o| == width * height * 4 && 0 <= y0 && y0 + m <= height && 0 <= x0 && x0 + cols <= width && 0 <= c < 4
  {
    if m == 0 then 0 else BlockSum(o, width, height, y0, x0, c, m - 1, cols) + BlockRowSum(o, width, height, y0 + m - 1, x0, c, cols)
  }

  /** Math.round of the mean of channel c over the in-bounds pixels of the block at (y0, x0). */
  function BlockMean(o: seq<int>, width: nat, height: nat, b: int, y0: int, x0: int, c: int): int
    requires |o| == width * height * 4 && 0 <= y0 < height && 0 <= x0 < width && b >= 1 && 0 <= c < 4
  {
    var rows, cols := Extent(y0, b, height), Extent(x0, b, width);
    MathRound(BlockSum(o, width, height, y0, x0, c, rows, cols) as real / (rows * cols) as real)
  }

  /** Row and column of the pixel that byte j belongs to. */
  function RowOf(j: int, width: int): int
  {
    if width > 0 then (j / 4) / width else 0
  }

  function ColOf(j: int, width: int): int
  {
    if width > 0 then (j / 4) % width else 0
  }

  /** Byte j lies in the pixel at row y, column x exactly when it lies in that pixel's four bytes. */
  lemma PixelOf(j: int, width: nat, height: nat, y: int, x: int)
    requires 0 <= j < width * height * 4 && 0 <= y < height && 0 <= x < width
    ensures 0 <= RowOf(j, width) < height && 0 <= ColOf(j, width) < width
    ensures RowOf(j, width) == y && ColOf(j, width) == x <==> PixelIndex(width, y, x) <= j < PixelIndex(width, y, x) + 4
  {
    FlatIndex(j / 4, width, height);
    RowMajor(y, x, width, height);
  }

  lemma PixelBounds(j: int, width: nat, height: nat)
    requires 0 <= j < width * height * 4
    ensures width > 0 && height > 0
    ensures 0 <= RowOf(j, width) < height && 0 <= ColOf(j, width) < width
  {
    PositiveSides(j, width, height);
    FlatIndex(j / 4, width, height);
  }

  /** The first row (or column) of the block holding row (or column) v. */
  function Origin(v: int, b: int): int
    requires b >= 1
  {
    v - v % b
  }

  lemma OriginBounds(v: int, b: int)
    requires b >= 1 && v >= 0
    ensures 0 <= Origin(v, b) <= v
  {
  }

  lemma OriginOf(y: int, dy: int, b: int)
    requires b >= 1 && y % b == 0 && 0 <= dy < b
    ensures Origin(y + dy, b) == y
  {
    DivModUnique(y + dy, b, y / b + 0, dy);
  }

  function PixelateAt(o: seq<int>, width: nat, height: nat, b: int, j: int): int
    requires |o| == width * height * 4 && 0 <= j < |o| && b >= 1
  {
    if j % 4 == 3 then o[j]
    else
      PixelBounds(j, width, height);
      OriginBounds(RowOf(j, width), b);
      OriginBounds(ColOf(j, width), b);
      ToByteClamped(BlockMean(o, width, height, b, Origin(RowOf(j, width), b), Origin(ColOf(j, width), b), j % 4) as real)
  }

  /** The image applyPixelate leaves behind: every colour byte is the rounded
      mean of its block in the unmodified copy o. */
  function Pixelated(o: seq<int>, width: nat, height: nat, b: int): (r: seq<int>)
    requires |o| == width * height * 4 && b >= 1
    ensures AlphaUnchanged(o, r)
  {
    seq(|o|, j requires 0 <= j < |o| => PixelateAt(o, width, height, b, j))
  }

  /** Two pixels of the same block get the same colour. */
  lemma PixelateBlockUniform(o: seq<int>, width: nat, height: nat, b: int, j1: int, j2: int)
    requires |o| == width * height * 4 && b >= 1 && 0 <= j1 < |o| && 0 <= j2 < |o|
    requires j1 % 4 == j2 % 4 != 3
    requires Origin(RowOf(j1, width), b) == Origin(RowOf(j2, width), b) && Origin(ColOf(j1, width), b) == Origin(ColOf(j2, width), b)
    ensures Pixelated(o, width, height, b)[j1] == Pixelated(o, width, height, b)[j2]
  {
  }

  /** With blocks of one pixel every byte stays as it was. */
  lemma PixelateUnitBlock(o: seq<int>, width: nat, height: nat)
    requires |o| == width * height * 4 && AllBytes(o)
    ensures Pixelated(o, width, height, 1) == o
  {
    forall j | 0 <= j < |o| ensures Pixelated(o, width, height, 1)[j] == o[j] {
      UnitBlockAt(o, width, height, j);
    }
  }

  lemma UnitBlockAt(o: seq<int>, width: nat, height: nat, j: int)
    requires |o| == width * height * 4 && AllBytes(o) && 0 <= j < |o|
    ensures PixelateAt(o, width, height, 1, j) == o[j]
  {
    if j % 4 != 3 {
      ByteOfPixel(j, width, height);
      var y, x := RowOf(j, width), ColOf(j, width);
      assert BlockRowSum(o, width, height, y, x, j % 4, 1) == o[PixelIndex(width, y, x) + j % 4];
      assert BlockSum(o, width, height, y, x, j % 4, 1, 1) == BlockRowSum(o, width, height, y, x, j % 4, 1);
      StoreByte(o[j]);
    }
  }

  /** Byte j is channel j % 4 of the pixel at (RowOf(j), ColOf(j)). */
  lemma ByteOfPixel(j: int, width: nat, height: nat)
    requires 0 <= j < width * height * 4
    ensures width > 0 && height > 0
    ensures 0 <= RowOf(j, width) < height && 0 <= ColOf(j, width) < width
    ensures j == PixelIndex(width, RowOf(j, width), ColOf(j, width)) + j % 4
  {
    PixelBounds(j, width, height);
  }

  lemma {:induction false} BlockRowSumOfConstant(o: seq<int>, width: nat, height: nat, y: int, x0: int, c: int, v: int, n: nat)
    requires |o| == width * height * 4 && 0 <= y < height && 0 <= x0 && x0 + n <= width && 0 <= c < 4 && ChannelIs(o, c, v)
    ensures BlockRowSum(o, width, height, y, x0, c, n) == n * v
  {
    if n > 0 {
      BlockRowSumOfConstant(o, width, height, y, x0, c, v, n - 1);
      ByteOfConstant(o, width, height, y, x0 + n - 1, c, v);
      assert n * v == (n - 1) * v + v;
    }
  }

  lemma {:induction false} BlockSumOfConstant(o: seq<int>, width: nat, height: nat, y0: int, x0: int, c: int, v: int, m: nat, cols: nat)
    requires |o| == width * height * 4 && 0 <= y0 && y0 + m <= height && 0 <= x0 && x0 + cols <= width && 0 <= c < 4
    requires ChannelIs(o, c, v)
    ensures BlockSum(o, width, height, y0, x0, c, m, cols) == m * (cols * v)
  {
    if m > 0 {
      BlockSumOfConstant(o, width, height, y0, x0, c, v, m - 1, cols);
      BlockRowSumOfConstant(o, width, height, y0 + m - 1, x0, c, v, cols);
      assert m * (cols * v) == (m - 1) * (cols * v) + cols * v;
    }
  }

  /** A channel that holds one byte value everywhere is left as it is. */
  lemma PixelateOfConstant(o: seq<int>, width: nat, height: nat, b: int, c: int, v: int)
    requires |o| == width * height * 4 && b >= 1 && 0 <= c < 3 && 0 <= v <= 255 && ChannelIs(o, c, v)
    ensures ChannelIs(Pixelated(o, width, height, b), c, v)
  {
    forall j | 0 <= j < |o| && j % 4 == c ensures Pixelated(o, width, height, b)[j] == v {
      PixelateAtOfConstant(o, width, height, b, c, v, j);
    }
  }

  lemma PixelateAtOfConstant(o: seq<int>, width: nat, height: nat, b: int, c: int, v: int, j: int)
    requires |o| == width * height * 4 && b >= 1 && 0 <= c < 3 && 0 <= v <= 255 && ChannelIs(o, c, v)
    requires 0 <= j < |o| && j % 4 == c
    ensures PixelateAt(o, width, height, b, j) == v
  {
    PixelBounds(j, width, height);
    var y0, x0 := Origin(RowOf(j, width), b), Origin(ColOf(j, width), b);
    OriginBounds(RowOf(j, width), b);
    OriginBounds(ColOf(j, width), b);
    BlockMeanOfConstant(o, width, height, b, y0, x0, c, v);
    assert PixelateAt(o, width, height, b, j) == ToByteClamped(BlockMean(o, width, height, b, y0, x0, c) as real);
  }

  lemma BlockMeanOfConstant(o: seq<int>, width: nat, height: nat, b: int, y0: int, x0: int, c: int, v: int)
    requires |o| == width * height * 4 && 0 <= y0 < height && 0 <= x0 < width && b >= 1 && 0 <= c < 3 && 0 <= v <= 255
    requires ChannelIs(o, c, v)
    ensures ToByteClamped(BlockMean(o, width, height, b, y0, x0, c) as real) == v
  {
    var rows, cols := Extent(y0, b, height), Extent(x0, b, width);
    BlockSumOfConstant(o, width, height, y0, x0, c, v, rows, cols);
    MulMono(1, rows, cols);
    RoundedMeanOfCopies(BlockSum(o, width, height, y0, x0, c, rows, cols), rows, cols, v);
    StoreByte(v);
  }

  lemma RoundedMeanOfCopies(sum: int, rows: int, cols: int, v: int)
    requires rows * cols > 0 && sum == rows * (cols * v)
    ensures MathRound(sum as real / (rows * cols) as real) == v
  {
    assert sum == (rows * cols) * v;
    MeanOfCopies(rows * cols, v);
  }

  /** The inner sampling loop: the pixels of block row y + dy are added to the running sums. */
  method BlockRow(o: seq<int>, width: nat, height: nat, blockSize: int, y: int, x: int, dy: int, rs0: int, gs0: int, bs0: int, count0: int)
    returns (rs: int, gs: int, bs: int, count: int)
    requires |o| == width * height * 4 && 0 <= y && 0 <= dy && y + dy < height && 0 <= x < width && blockSize >= 1
    ensures Extent(x, blockSize, width) >= 0 && x + Extent(x, blockSize, width) <= width
    ensures rs == rs0 + BlockRowSum(o, width, height, y + dy, x, 0, Extent(x, blockSize, width))
    ensures gs == gs0 + BlockRowSum(o, width, height, y + dy, x, 1, Extent(x, blockSize, width))
    ensures bs == bs0 + BlockRowSum(o, width, height, y + dy, x, 2, Extent(x, blockSize, width))
    ensures count == count0 + Extent(x, blockSize, width)
  {
    var cols := Extent(x, blockSize, width);
    rs, gs, bs, count := rs0, gs0, bs0, count0;
    var dx := 0;
    while dx < blockSize && x + dx < width
      invariant 0 <= dx <= cols
      invariant rs == rs0 + BlockRowSum(o, width, height, y + dy, x, 0, dx)
      invariant gs == gs0 + BlockRowSum(o, width, height, y + dy, x, 1, dx)
      invariant bs == bs0 + BlockRowSum(o, width, height, y + dy, x, 2, dx)
      invariant count == count0 + dx
    {
      PixelInImage(y + dy, x + dx, width, height);
      var idx := ((y + dy) * width + (x + dx)) * 4;
      rs := rs + o[idx];
      gs := gs + o[idx + 1];
      bs := bs + o[idx + 2];
      count := count + 1;
      dx := dx + 1;
    }
  }

  /** The sampling loops of one block: the three rounded means. */
  method BlockAverage(o: seq<int>, width: nat, height: nat, blockSize: int, y: int, x: int) returns (r: int, g: int, b: int)
    requires |o| == width * height * 4 && 0 <= y < height && 0 <= x < width && blockSize >= 1
    ensures r == BlockMean(o, width, height, blockSize, y, x, 0)
    ensures g == BlockMean(o, width, height, blockSize, y, x, 1)
    ensures b == BlockMean(o, width, height, blockSize, y, x, 2)
  {
    var cols := Extent(x, blockSize, width);
    var rs, gs, bs, count := 0, 0, 0, 0;
    var dy := 0;
    while dy < blockSize && y + dy < height
      invariant 0 <= dy <= Extent(y, blockSize, height)
      invariant rs == BlockSum(o, width, height, y, x, 0, dy, cols)
      invariant gs == BlockSum(o, width, height, y, x, 1, dy, cols)
      invariant bs == BlockSum(o, width, height, y, x, 2, dy, cols)
      invariant count == dy * cols
    {
      rs, gs, bs, count := BlockRow(o, width, height, blockSize, y, x, dy, rs, gs, bs, count);
      assert dy * cols + cols == (dy + 1) * cols;
      dy := dy + 1;
    }
    r := MathRound(rs as real / count as real);
    g := MathRound(gs as real / count as real);
    b := MathRound(bs as real / count as real);
  }

  /** Byte j belongs to a pixel written before the pixel at row y + dy,
      column x + dx of the block at (y, x): blocks are visited one row of blocks
      after the other, and each block row after row. */
  predicate Written(j: int, width: nat, b: int, y: int, x: int, dy: int, dx: int)
  {
    var row, col := RowOf(j, width), ColOf(j, width);
    row < y || (row < y + b && col < x) || (y <= row < y + dy && x <= col < x + b) || (row == y + dy && x <= col < x + dx)
  }

  /** The written bytes hold their pixelated value, the others their original one. */
  predicate PartlyPixelated(s: seq<int>, o: seq<int>, width: nat, height: nat, b: int, y: int, x: int, dy: int, dx: int)
    requires |o| == width * height * 4 && b >= 1
  {
    |s| == |o| && forall j :: 0 <= j < |s| ==> s[j] == if Written(j, width, b, y, x, dy, dx) then PixelateAt(o, width, height, b, j) else o[j]
  }

  /** The colour byte of channel c among the three stored values. */
  function Pick(c: int, rv: int, gv: int, bv: int): int
  {
    if c == 0 then rv else if c == 1 then gv else bv
  }

  /** Every colour byte of the block at (y, x) pixelates to the stored values rv, gv, bv. */
  predicate BlockColoured(o: seq<int>, width: nat, height: nat, b: int, y: int, x: int, rv: int, gv: int, bv: int)
    requires |o| == width * height * 4 && b >= 1
  {
    forall j :: 0 <= j < |o| && j % 4 != 3 && Origin(RowOf(j, width), b) == y && Origin(ColOf(j, width), b) == x ==>
      PixelateAt(o, width, height, b, j) == Pick(j % 4, rv, gv, bv)
  }

  /** The rounded block means, stored as bytes, are the block's colour. */
  lemma MeansColourBlock(o: seq<int>, width: nat, height: nat, b: int, y: int, x: int, r: int, g: int, bl: int)
    requires |o| == width * height * 4 && b >= 1 && 0 <= y < height && 0 <= x < width
    requires r == BlockMean(o, width, height, b, y, x, 0) && g == BlockMean(o, width, height, b, y, x, 1) && bl == BlockMean(o, width, height, b, y, x, 2)
    ensures BlockColoured(o, width, height, b, y, x, ToByteClamped(r as real), ToByteClamped(g as real), ToByteClamped(bl as real))
  {
  }

  /** Writing the block's colour into its pixel at (y + dy, x + dx) adds that pixel to the written region. */
  lemma FillStep(s: seq<int>, o: seq<int>, width: nat, height: nat, b: int, y: int, x: int, dy: int, dx: int, rv: int, gv: int, bv: int)
    requires |o| == width * height * 4 && b >= 1 && y % b == 0 && x % b == 0
    requires 0 <= y && 0 <= x && 0 <= dy < b && 0 <= dx < b && y + dy < height && x + dx < width
    requires BlockColoured(o, width, height, b, y, x, rv, gv, bv)
    requires PartlyPixelated(s, o, width, height, b, y, x, dy, dx)
    ensures PixelIndex(width, y + dy, x + dx) + 3 < |s|
    ensures PartlyPixelated(s[PixelIndex(width, y + dy, x + dx) := rv][PixelIndex(width, y + dy, x + dx) + 1 := gv][PixelIndex(width, y + dy, x + dx) + 2 := bv],
                            o, width, height, b, y, x, dy, dx + 1)
  {
    var idx := PixelIndex(width, y + dy, x + dx);
    PixelInImage(y + dy, x + dx, width, height);
    var t := s[idx := rv][idx + 1 := gv][idx + 2 := bv];
    forall j | 0 <= j < |t|
      ensures t[j] == if Written(j, width, b, y, x, dy, dx + 1) then PixelateAt(o, width, height, b, j) else o[j]
    {
      FillStepAt(o, width, height, b, y, x, dy, dx, rv, gv, bv, j, s[j]);
    }
  }

  /** FillStep for one byte j, whose value before the step is sj. */
  lemma FillStepAt(o: seq<int>, width: nat, height: nat, b: int, y: int, x: int, dy: int, dx: int, rv: int, gv: int, bv: int, j: int, sj: int)
    requires |o| == width * height * 4 && b >= 1 && y % b == 0 && x % b == 0
    requires 0 <= y && 0 <= x && 0 <= dy < b && 0 <= dx < b && y + dy < height && x + dx < width
    requires BlockColoured(o, width, height, b, y, x, rv, gv, bv)
    requires 0 <= j < |o| && sj == if Written(j, width, b, y, x, dy, dx) then PixelateAt(o, width, height, b, j) else o[j]
    ensures (if j == PixelIndex(width, y + dy, x + dx) then rv
             else if j == PixelIndex(width, y + dy, x + dx) + 1 then gv
             else if j == PixelIndex(width, y + dy, x + dx) + 2 then bv
             else sj)
            == if Written(j, width, b, y, x, dy, dx + 1) then PixelateAt(o, width, height, b, j) else o[j]
  {
    PixelOf(j, width, height, y + dy, x + dx);
    PixelInImage(y + dy, x + dx, width, height);
    if PixelIndex(width, y + dy, x + dx) <= j < PixelIndex(width, y + dy, x + dx) + 4 {
      OriginOf(y, dy, b);
      OriginOf(x, dx, b);
    }
  }

  /** The end of a block row: once every in-bounds column of row y + dy is written, the next row starts. */
  lemma NextBlockRow(s: seq<int>, o: seq<int>, width: nat, height: nat, b: int, y: int, x: int, dy: int, dx: int)
    requires |o| == width * height * 4 && b >= 1 && 0 <= x && dx == Extent(x, b, width)
    requires PartlyPixelated(s, o, width, height, b, y, x, dy, dx)
    ensures PartlyPixelated(s, o, width, height, b, y, x, dy + 1, 0)
  {
    forall j | 0 <= j < |s|
      ensures Written(j, width, b, y, x, dy, dx) == Written(j, width, b, y, x, dy + 1, 0)
    {
      PixelBounds(j, width, height);
    }
  }

  /** The end of a block: once its in-bounds rows are written, the written region reaches column x + b. */
  lemma NextBlock(s: seq<int>, o: seq<int>, width: nat, height: nat, b: int, y: int, x: int, dy: int)
    requires |o| == width * height * 4 && b >= 1 && 0 <= y && dy == Extent(y, b, height)
    requires PartlyPixelated(s, o, width, height, b, y, x, dy, 0)
    ensures PartlyPixelated(s, o, width, height, b, y, x + b, 0, 0)
  {
    forall j | 0 <= j < |s|
      ensures Written(j, width, b, y, x, dy, 0) == Written(j, width, b, y, x + b, 0, 0)
    {
      PixelBounds(j, width, height);
    }
  }

  /** The end of a row of blocks: once x has passed the right edge, the region is every row above y + b. */
  lemma NextRowOfBlocks(s: seq<int>, o: seq<int>, width: nat, height: nat, b: int, y: int, x: int)
    requires |o| == width * height * 4 && b >= 1 && x >= width
    requires PartlyPixelated(s, o, width, height, b, y, x, 0, 0)
    ensures PartlyPixelated(s, o, width, height, b, y + b, 0, 0, 0)
  {
    forall j | 0 <= j < |s|
      ensures Written(j, width, b, y, x, 0, 0) == Written(j, width, b, y + b, 0, 0, 0)
    {
      PixelBounds(j, width, height);
    }
  }

  /** Before the first block nothing is written. */
  lemma NothingWritten(o: seq<int>, width: nat, height: nat, b: int)
    requires |o| == width * height * 4 && b >= 1
    ensures PartlyPixelated(o, o, width, height, b, 0, 0, 0, 0)
  {
    forall j | 0 <= j < |o|
      ensures !Written(j, width, b, 0, 0, 0, 0)
    {
      PixelBounds(j, width, height);
    }
  }

  /** Once y has passed the bottom edge, every byte holds its pixelated value. */
  lemma AllBlocks(s: seq<int>, o: seq<int>, width: nat, height: nat, b: int, y: int)
    requires |o| == width * height * 4 && b >= 1 && y >= height
    requires PartlyPixelated(s, o, width, height, b, y, 0, 0, 0)
    ensures s == Pixelated(o, width, height, b)
  {
    forall j | 0 <= j < |s|
      ensures s[j] == PixelateAt(o, width, height, b, j)
    {
      PixelBounds(j, width, height);
    }
  }

  lemma NextMultiple(x: int, b: int)
    requires b >= 1 && x % b == 0
    ensures (x + b) % b == 0
  {
    DivModUnique(x + b, b, x / b + 1, 0);
  }

  /** The writing loops of one block: every in-bounds pixel of the block at (y, x) gets the stored means. */
  method FillBlock(data: array<int>, ghost o: seq<int>, width: nat, height: nat, blockSize: int, y: int, x: int, r: int, g: int, b: int)
    requires data.Length == |o| == width * height * 4 && blockSize >= 1
    requires 0 <= y < height && 0 <= x < width && y % blockSize == 0 && x % blockSize == 0
    requires BlockColoured(o, width, height, blockSize, y, x, ToByteClamped(r as real), ToByteClamped(g as real), ToByteClamped(b as real))
    requires PartlyPixelated(data[..], o, width, height, blockSize, y, x, 0, 0)
    modifies data
    ensures PartlyPixelated(data[..], o, width, height, blockSize, y, x + blockSize, 0, 0)
  {
    var dy := 0;
    while dy < blockSize && y + dy < height
      invariant 0 <= dy <= Extent(y, blockSize, height)
      invariant PartlyPixelated(data[..], o, width, height, blockSize, y, x, dy, 0)
    {
      FillBlockRow(data, o, width, height, blockSize, y, x, dy, r, g, b);
      dy := dy + 1;
    }
    NextBlock(data[..], o, width, height, blockSize, y, x, dy);
  }

  /** The inner writing loop: row y + dy of the block at (y, x). */
  method FillBlockRow(data: array<int>, ghost o: seq<int>, width: nat, height: nat, blockSize: int, y: int, x: int, dy: int, r: int, g: int, b: int)
    requires data.Length == |o| == width * height * 4 && blockSize >= 1
    requires 0 <= y && 0 <= x < width && y % blockSize == 0 && x % blockSize == 0 && 0 <= dy < blockSize && y + dy < height
    requires BlockColoured(o, width, height, blockSize, y, x, ToByteClamped(r as real), ToByteClamped(g as real), ToByteClamped(b as real))
    requires PartlyPixelated(data[..], o, width, height, blockSize, y, x, dy, 0)
    modifies data
    ensures PartlyPixelated(data[..], o, width, height, blockSize, y, x, dy + 1, 0)
  {
    var dx := 0;
    while dx < blockSize && x + dx < width
      invariant 0 <= dx <= Extent(x, blockSize, width)
      invariant PartlyPixelated(data[..], o, width, height, blockSize, y, x, dy, dx)
    {
      FillStep(data[..], o, width, height, blockSize, y, x, dy, dx, ToByteClamped(r as real), ToByteClamped(g as real), ToByteClamped(b as real));
      PixelInImage(y + dy, x + dx, width, height);
      var idx := ((y + dy) * width + (x + dx)) * 4;
      data[idx] := ToByteClamped(r as real);
      data[idx + 1] := ToByteClamped(g as real);
      data[idx + 2] := ToByteClamped(b as real);
      dx := dx + 1;
    }
    NextBlockRow(data[..], o, width, height, blockSize, y, x, dy, dx);
  }

  method ApplyPixelate(data: array<int>, width: nat, height: nat, intensity: real)
    requires data.Length == width * height * 4
    modifies data
    ensures data[..] == Pixelated(old(data[..]), width, height, BlockSize(intensity))
  {
    var blockSize := BlockSize(intensity);
    var originalData := data[..];
    NothingWritten(originalData, width, height, blockSize);
    var y := 0;
    while y < height
      invariant 0 <= y && y % blockSize == 0
      invariant PartlyPixelated(data[..], originalData, width, height, blockSize, y, 0, 0, 0)
    {
      PixelateRowOfBlocks(data, originalData, width, height, blockSize, y);
      NextMultiple(y, blockSize);
      y := y + blockSize;
    }
    AllBlocks(data[..], originalData, width, height, blockSize, y);
  }

  /** The x loop of applyPixelate: the blocks whose top row is y, left to right. */
  method PixelateRowOfBlocks(data: array<int>, originalData: seq<int>, width: nat, height: nat, blockSize: int, y: int)
    requires data.Length == |originalData| == width * height * 4 && blockSize >= 1
    requires 0 <= y < height && y % blockSize == 0
    requires PartlyPixelated(data[..], originalData, width, height, blockSize, y, 0, 0, 0)
    modifies data
    ensures PartlyPixelated(data[..], originalData, width, height, blockSize, y + blockSize, 0, 0, 0)
  {
    var x := 0;
    while x < width
      invariant 0 <= x && x % blockSize == 0
      invariant PartlyPixelated(data[..], originalData, width, height, blockSize, y, x, 0, 0)
    {
      var r, g, b := BlockAverage(originalData, width, height, blockSize, y, x);
      MeansColourBlock(originalData, width, height, blockSize, y, x, r, g, b);
      FillBlock(data, originalData, width, height, blockSize, y, x, r, g, b);
      NextMultiple(x, blockSize);
      x := x + blockSize;
    }
    NextRowOfBlocks(data[..], originalData, width, height, blockSize, y, x);
  }
}
