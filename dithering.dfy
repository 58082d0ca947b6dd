/** The grayscale dithers of dithering.js. Each works on a row-major buffer
    of width * height numbers (one gray sample per pixel) and leaves 0 or 255
    in it, except burkesDithering, which returns a fresh Uint8Array, and
    sierraDithering, which has an empty body. */
module Dithering {
  import opened Pixels
  import opened Diffusion
  import opened ByteDiffusion
  import opened Bayer

  method FloydSteinbergDithering(buffer: array<real>, width: nat, height: nat, scale: real)
    requires buffer.Length == width * height && scale != 0.0
    modifies buffer
    ensures buffer[..] == Diffused(old(buffer[..]), width, height, scale, FloydSteinbergKernel(), Threshold128, width * height)
  {
    Diffuse(buffer, width, height, scale, FloydSteinbergKernel(), Threshold128);
  }

  method AtkinsonDithering(buffer: array<real>, width: nat, height: nat, scale: real)
    requires buffer.Length == width * height && scale != 0.0
    modifies buffer
    ensures buffer[..] == Diffused(old(buffer[..]), width, height, scale, AtkinsonKernel(), Threshold128, width * height)
  {
    Diffuse(buffer, width, height, scale, AtkinsonKernel(), Threshold128);
  }

  method JarvisJudiceNinkeDithering(buffer: array<real>, width: nat, height: nat, scale: real)
    requires buffer.Length == width * height && scale != 0.0
    modifies buffer
    ensures buffer[..] == Diffused(old(buffer[..]), width, height, scale, JarvisJudiceNinkeKernel(), Threshold128, width * height)
  {
    Diffuse(buffer, width, height, scale, JarvisJudiceNinkeKernel(), Threshold128);
  }

  method StuckiDithering(buffer: array<real>, width: nat, height: nat, scale: real)
    requires buffer.Length == width * height && scale != 0.0
    modifies buffer
    ensures buffer[..] == Diffused(old(buffer[..]), width, height, scale, StuckiKernel(), Threshold128, width * height)
  {
    Diffuse(buffer, width, height, scale, StuckiKernel(), Threshold128);
  }

  /** The four in-place error-diffusion dithers leave only 0 and 255, for any
      input buffer and any non-zero scale. */
  lemma GrayDiffusionBinary(s: seq<real>, width: nat, height: nat, scale: real, taps: seq<Tap>)
    requires |s| == width * height && scale != 0.0
    requires taps in {FloydSteinbergKernel(), AtkinsonKernel(), JarvisJudiceNinkeKernel(), StuckiKernel()}
    ensures forall j :: 0 <= j < |s| ==> Diffused(s, width, height, scale, taps, Threshold128, |s|)[j] in {0.0, 255.0}
  {
    DiffusedQuantized(s, width, height, scale, taps, Threshold128);
  }

  /** Math.max(0.1, Math.min(2.0, scale)). */
  function BurkesScale(scale: real): (a: real)
    ensures 0.1 <= a <= 2.0
    ensures 0.1 <= scale <= 2.0 ==> a == scale
  {
    if scale > 2.0 then 2.0 else if scale < 0.1 then 0.1 else scale
  }

  /** The Burkes matrix in thirty-seconds, every weight multiplied by the clamped scale. */
  function BurkesKernel(scale: real): (k: seq<Tap>)
    ensures AllForward(k) && WeightSum(k) == BurkesScale(scale)
  {
    var a := BurkesScale(scale);
    BurkesWeights(a);
    [Tap(1, 0, (8.0 / 32.0) * a), Tap(2, 0, (4.0 / 32.0) * a),
     Tap(-2, 1, (2.0 / 32.0) * a), Tap(-1, 1, (4.0 / 32.0) * a), Tap(0, 1, (8.0 / 32.0) * a),
     Tap(1, 1, (4.0 / 32.0) * a), Tap(2, 1, (2.0 / 32.0) * a)]
  }

  lemma BurkesWeights(a: real)
    ensures WeightSum([Tap(1, 0, (8.0 / 32.0) * a), Tap(2, 0, (4.0 / 32.0) * a),
     Tap(-2, 1, (2.0 / 32.0) * a), Tap(-1, 1, (4.0 / 32.0) * a), Tap(0, 1, (8.0 / 32.0) * a),
     Tap(1, 1, (4.0 / 32.0) * a), Tap(2, 1, (2.0 / 32.0) * a)]) == a
  {
    var k := [Tap(1, 0, (8.0 / 32.0) * a), Tap(2, 0, (4.0 / 32.0) * a),
     Tap(-2, 1, (2.0 / 32.0) * a), Tap(-1, 1, (4.0 / 32.0) * a), Tap(0, 1, (8.0 / 32.0) * a),
     Tap(1, 1, (4.0 / 32.0) * a), Tap(2, 1, (2.0 / 32.0) * a)];
    assert WeightSum(k[6..]) == (2.0 / 32.0) * a;
    assert WeightSum(k[5..]) == (6.0 / 32.0) * a;
    assert WeightSum(k[4..]) == (14.0 / 32.0) * a;
    assert WeightSum(k[3..]) == (18.0 / 32.0) * a;
    assert WeightSum(k[2..]) == (20.0 / 32.0) * a;
    assert WeightSum(k[1..]) == (24.0 / 32.0) * a;
  }

  /** burkesDithering returns the dithered copy and leaves the buffer alone. */
  method BurkesDithering(buffer: array<real>, width: nat, height: nat, scale: real) returns (result: array<int>)
    requires buffer.Length == width * height
    ensures fresh(result)
    ensures result[..] == ByteDiffused(Uint8Copy(buffer[..]), width, height, BurkesKernel(scale), width * height)
  {
    result := ErrorDiffusionDithering(buffer, width, height, BurkesKernel(scale));
  }

  /** The Burkes copy holds only 0 and 255. */
  lemma BurkesBinary(s: seq<real>, width: nat, height: nat, scale: real)
    requires |s| == width * height
    ensures forall j :: 0 <= j < |s| ==> ByteDiffused(Uint8Copy(s), width, height, BurkesKernel(scale), |s|)[j] in {0, 255}
  {
    ByteDiffusedBinary(s, width, height, BurkesKernel(scale));
  }

  /** sierraDithering declares its threshold and nothing else. */
  method SierraDithering(buffer: array<real>, width: nat, height: nat, scale: real)
    modifies buffer
    ensures buffer[..] == old(buffer[..])
  {
  }

  // Random dithering

  /** The random threshold Math.random() * 255 * scale, for a draw of Math.random(). */
  function DrawThreshold(draw: real, scale: real): real
  {
    draw * 255.0 * scale
  }

  /** The sample at p turns black when it is below draw * 255 * scale. */
  function RandomAt(s: seq<real>, draws: seq<real>, scale: real, p: int): real
    requires 0 <= p < |s| && p < |draws|
  {
    if s[p] < DrawThreshold(draws[p], scale) then 0.0 else 255.0
  }

  /** randomDithering with Math.random's successive results given as draws, one per sample in row-major order. */
  function RandomDithered(s: seq<real>, draws: seq<real>, scale: real): (r: seq<real>)
    requires |s| <= |draws|
    ensures |r| == |s|
  {
    seq(|s|, p requires 0 <= p < |s| => RandomAt(s, draws, scale, p))
  }

  /** Output is black or white, and which one is decided by comparing the
      sample against its own draw only: black exactly when below the threshold. */
  lemma RandomThreshold(s: seq<real>, draws: seq<real>, scale: real, p: int)
    requires |s| <= |draws| && 0 <= p < |s|
    ensures RandomDithered(s, draws, scale)[p] in {0.0, 255.0}
    ensures RandomDithered(s, draws, scale)[p] == 0.0 <==> s[p] < DrawThreshold(draws[p], scale)
  {
  }

  /** With the same draws, a lighter input never gives a darker output. */
  lemma RandomMonotone(s: seq<real>, t: seq<real>, draws: seq<real>, scale: real)
    requires |s| == |t| <= |draws|
    requires forall p :: 0 <= p < |s| ==> s[p] <= t[p]
    ensures forall p :: 0 <= p < |s| ==> RandomDithered(s, draws, scale)[p] <= RandomDithered(t, draws, scale)[p]
  {
  }

  /** For draws in [0, 1) and a positive scale, a sample of at least 255 * scale is always white. */
  lemma RandomBrightIsWhite(s: seq<real>, draws: seq<real>, scale: real, p: int)
    requires |s| <= |draws| && 0 <= p < |s|
    requires 0.0 <= draws[p] < 1.0 && scale > 0.0 && s[p] >= 255.0 * scale
    ensures RandomDithered(s, draws, scale)[p] == 255.0
  {
    DrawBelowOne(draws[p], scale);
  }

  lemma DrawBelowOne(d: real, scale: real)
    requires 0.0 <= d < 1.0 && scale > 0.0
    ensures d * 255.0 * scale < 255.0 * scale
  {
  }

  method RandomDithering(buffer: array<real>, width: nat, height: nat, scale: real, draws: seq<real>)
    requires buffer.Length == width * height && |draws| >= buffer.Length
    modifies buffer
    ensures buffer[..] == RandomDithered(old(buffer[..]), draws, scale)
  {
    ghost var s0 := buffer[..];
    var y := 0;
    while y < height
      invariant 0 <= y <= height && y * width <= width * height
      invariant forall j :: 0 <= j < y * width ==> buffer[j] == RandomAt(s0, draws, scale, j)
      invariant forall j :: y * width <= j < buffer.Length ==> buffer[j] == s0[j]
    {
      MulMono(y + 1, height, width);
      var x := 0;
      while x < width
        invariant 0 <= x <= width && y * width + x <= width * height
        invariant forall j :: 0 <= j < y * width + x ==> buffer[j] == RandomAt(s0, draws, scale, j)
        invariant forall j :: y * width + x <= j < buffer.Length ==> buffer[j] == s0[j]
      {
        InImage(y, x, width, height);
        var idx := y * width + x;
        var threshold := draws[idx] * 255.0 * scale;
        buffer[idx] := if buffer[idx] < threshold then 0.0 else 255.0;
        x := x + 1;
      }
      assert y * width + width == (y + 1) * width;
      y := y + 1;
    }
    assert y * width == width * height;
  }

  // Ordered (Bayer) dithering

  /** The threshold of cell (y, x) for a matrix of side 2^n: the matrix entry
      normalized to [0, 255) and divided by the scale. */
  function OrderedThreshold(n: nat, y: nat, x: nat, scale: real): real
    requires scale != 0.0
  {
    var side := Pow2(n);
    Scaled(Normalized(BayerValue(n, y % side, x % side), Cells(n)) * 255.0, scale)
  }

  /** A matrix entry as a fraction of the number of cells. */
  function Normalized(v: int, cells: nat): real
    requires cells > 0
  {
    v as real / cells as real
  }

  function OrderedAt(s: seq<real>, width: nat, scale: real, n: nat, p: int): real
    requires 0 <= p < |s| && width > 0 && scale != 0.0
  {
    if s[p] < OrderedThreshold(n, p / width, p % width, scale) then 0.0 else 255.0
  }

  /** bayerDithering with a matrix of side 2^n. */
  function OrderedDithered(s: seq<real>, width: nat, height: nat, scale: real, n: nat): (r: seq<real>)
    requires |s| == width * height && scale != 0.0
    ensures |r| == |s|
  {
    seq(|s|, p requires 0 <= p < |s| => OrderedAt(s, RowLength(width), scale, n, p))
  }

  /** The row length the index arithmetic divides by; an image of width 0 has no pixels to divide. */
  function RowLength(width: nat): (w: nat)
    ensures w > 0 && (width > 0 ==> w == width)
  {
    if width > 0 then width else 1
  }

  /** With the same matrix, a lighter input never gives a darker output. */
  lemma OrderedMonotone(s: seq<real>, t: seq<real>, width: nat, height: nat, scale: real, n: nat)
    requires |s| == |t| == width * height && scale != 0.0
    requires forall p :: 0 <= p < |s| ==> s[p] <= t[p]
    ensures forall p :: 0 <= p < |s| ==> OrderedDithered(s, width, height, scale, n)[p] <= OrderedDithered(t, width, height, scale, n)[p]
  {
    var w := if width > 0 then width else 1;
    forall p | 0 <= p < |s|
      ensures OrderedDithered(s, width, height, scale, n)[p] <= OrderedDithered(t, width, height, scale, n)[p]
    {
      assert OrderedDithered(s, width, height, scale, n)[p] == OrderedAt(s, w, scale, n, p);
      assert OrderedDithered(t, width, height, scale, n)[p] == OrderedAt(t, w, scale, n, p);
    }
  }

  /** Thresholds lie in [0, 255 / scale): the cell holding 0 has threshold 0. */
  lemma ThresholdBounds(n: nat, y: nat, x: nat, scale: real)
    requires scale > 0.0
    ensures 0.0 <= OrderedThreshold(n, y, x, scale) < Scaled(255.0, scale)
    ensures OrderedThreshold(n, y, x, scale) == 0.0 <==> BayerValue(n, y % Pow2(n), x % Pow2(n)) == 0
  {
    var side := Pow2(n);
    BayerRange(n, y % side, x % side);
    var v := BayerValue(n, y % side, x % side);
    FractionBelowOne(v, Cells(n), scale);
  }

  lemma FractionBelowOne(v: int, c: nat, scale: real)
    requires 0 <= v < c && scale > 0.0
    ensures 0.0 <= Scaled(Normalized(v, c) * 255.0, scale) < Scaled(255.0, scale)
    ensures Scaled(Normalized(v, c) * 255.0, scale) == 0.0 <==> v == 0
  {
    var f := Normalized(v, c);
    assert 0.0 <= f < 1.0;
    assert f * 255.0 < 255.0;
    DivideMono(f * 255.0, 255.0, scale);
  }

  lemma DivideMono(a: real, b: real, d: real)
    requires 0.0 <= a < b && d > 0.0
    ensures 0.0 <= Scaled(a, d) < Scaled(b, d)
    ensures Scaled(a, d) == 0.0 <==> a == 0.0
  {
  }

  /** A black sample turns white exactly on the cells whose matrix entry is 0,
      one cell in every side x side tile: black stays black everywhere else. */
  lemma OrderedBlack(s: seq<real>, width: nat, height: nat, scale: real, n: nat, p: int)
    requires |s| == width * height && width > 0 && scale > 0.0 && 0 <= p < |s| && s[p] == 0.0
    ensures OrderedDithered(s, width, height, scale, n)[p] == 255.0
      <==> BayerValue(n, (p / width) % Pow2(n), (p % width) % Pow2(n)) == 0
  {
    assert OrderedDithered(s, width, height, scale, n)[p] == OrderedAt(s, width, scale, n, p);
    ThresholdBounds(n, p / width, p % width, scale);
  }

  /** With a scale of at least 1, a white sample stays white. */
  lemma OrderedWhite(s: seq<real>, width: nat, height: nat, scale: real, n: nat, p: int)
    requires |s| == width * height && width > 0 && scale >= 1.0 && 0 <= p < |s| && s[p] >= 255.0
    ensures OrderedDithered(s, width, height, scale, n)[p] == 255.0
  {
    assert OrderedDithered(s, width, height, scale, n)[p] == OrderedAt(s, width, scale, n, p);
    ThresholdBounds(n, p / width, p % width, scale);
    ShrinkingDivide(255.0, scale);
  }

  lemma ShrinkingDivide(b: real, d: real)
    requires b >= 0.0 && d >= 1.0
    ensures Scaled(b, d) <= b
  {
    assert Scaled(b, d) * d == b;
  }

  /** The inner step of bayerDithering: the sample at (y, x) against the scaled matrix entry. */
  method OrderedPixel(bayerMatrix: array2<int>, matrixSize: int, ghost n: nat, v: real, y: nat, x: nat, scale: real) returns (r: real)
    requires matrixSize == Pow2(n) && bayerMatrix.Length0 == matrixSize && bayerMatrix.Length1 == matrixSize && scale != 0.0
    requires forall i, j :: 0 <= i < matrixSize && 0 <= j < matrixSize ==> bayerMatrix[i, j] == BayerValue(n, i, j)
    ensures r == if v < OrderedThreshold(n, y, x, scale) then 0.0 else 255.0
  {
    var thresholdValue := bayerMatrix[y % matrixSize, x % matrixSize];
    var normalizedThreshold := Normalized(thresholdValue, matrixSize * matrixSize) * 255.0;
    var adjustedThreshold := Scaled(normalizedThreshold, scale);
    assert thresholdValue == BayerValue(n, y % Pow2(n), x % Pow2(n));
    r := if v < adjustedThreshold then 0.0 else 255.0;
  }

  /** One row of bayerDithering: row y is thresholded, the rows below it are untouched. */
  method OrderedRow(buffer: array<real>, width: nat, height: nat, scale: real, bayerMatrix: array2<int>, matrixSize: int, ghost n: nat, ghost s0: seq<real>, y: nat)
    requires buffer.Length == width * height == |s0| && scale != 0.0 && y < height && y * width + width <= width * height
    requires matrixSize == Pow2(n) && bayerMatrix.Length0 == matrixSize && bayerMatrix.Length1 == matrixSize
    requires forall i, j :: 0 <= i < matrixSize && 0 <= j < matrixSize ==> bayerMatrix[i, j] == BayerValue(n, i, j)
    requires forall j :: 0 <= j < y * width ==> buffer[j] == OrderedAt(s0, RowLength(width), scale, n, j)
    requires forall j :: y * width <= j < buffer.Length ==> buffer[j] == s0[j]
    modifies buffer
    ensures forall j :: 0 <= j < y * width + width ==> buffer[j] == OrderedAt(s0, RowLength(width), scale, n, j)
    ensures forall j :: y * width + width <= j < buffer.Length ==> buffer[j] == s0[j]
  {
    var x := 0;
    while x < width
      invariant 0 <= x <= width
      invariant forall j :: 0 <= j < y * width + x ==> buffer[j] == OrderedAt(s0, RowLength(width), scale, n, j)
      invariant forall j :: y * width + x <= j < buffer.Length ==> buffer[j] == s0[j]
    {
      RowMajor(y, x, width, height);
      var idx := y * width + x;
      buffer[idx] := OrderedPixel(bayerMatrix, matrixSize, n, buffer[idx], y, x, scale);
      x := x + 1;
    }
  }

  method BayerDithering(buffer: array<real>, width: nat, height: nat, scale: real, matrixSize: int)
    requires buffer.Length == width * height && scale != 0.0
    requires matrixSize >= 2 && IsPowerOfTwo(matrixSize)
    modifies buffer
    ensures buffer[..] == OrderedDithered(old(buffer[..]), width, height, scale, Log2Floor(matrixSize))
  {
    var bayerMatrix := CreateBayerMatrix(matrixSize);
    ghost var n := Log2Floor(matrixSize);
    assert matrixSize == Pow2(n);
    ghost var s0 := buffer[..];
    var y := 0;
    while y < height
      invariant 0 <= y <= height && y * width <= width * height
      invariant forall j :: 0 <= j < y * width ==> buffer[j] == OrderedAt(s0, RowLength(width), scale, n, j)
      invariant forall j :: y * width <= j < buffer.Length ==> buffer[j] == s0[j]
      modifies buffer
    {
      MulMono(y + 1, height, width);
      assert y * width + width == (y + 1) * width;
      OrderedRow(buffer, width, height, scale, bayerMatrix, matrixSize, n, s0, y);
      y := y + 1;
    }
    assert y * width == width * height;
  }
}
