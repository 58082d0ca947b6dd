/** The in-place error-diffusion pass shared by the grayscale dithers of
    dithering.js (Floyd-Steinberg, Atkinson, Jarvis-Judice-Ninke, Stucki)
    and the per-channel dithers of colorDithering.js: visit the samples in
    row-major order, quantize the visited sample, and add the scaled
    quantization error to the in-bounds neighbours named by a kernel. */
module Diffusion {
  import opened Pixels

  /** One kernel entry: the neighbour at (x + dx, y + dy) receives error * weight. */
  datatype Tap = Tap(dx: int, dy: int, weight: real)

  /** A tap that points to a sample later in row-major order. */
  predicate Forward(t: Tap)
  {
    t.dy > 0 || (t.dy == 0 && t.dx > 0)
  }

  predicate AllForward(taps: seq<Tap>)
  {
    forall i :: 0 <= i < |taps| ==> Forward(taps[i])
  }

  function WeightSum(taps: seq<Tap>): real
  {
    if taps == [] then 0.0 else taps[0].weight + WeightSum(taps[1..])
  }

  /** Floyd-Steinberg: 7/16 right, 3/16 down-left, 5/16 down, 1/16 down-right. */
  function FloydSteinbergKernel(): (k: seq<Tap>)
    ensures AllForward(k) && WeightSum(k) == 1.0
  {
    [Tap(1, 0, 7.0 / 16.0), Tap(-1, 1, 3.0 / 16.0), Tap(0, 1, 5.0 / 16.0), Tap(1, 1, 1.0 / 16.0)]
  }

  /** Atkinson: six neighbours of 1/8 each; the remaining 2/8 of the error is dropped. */
  function AtkinsonKernel(): (k: seq<Tap>)
    ensures AllForward(k) && WeightSum(k) == 0.75
  {
    [Tap(1, 0, 1.0 / 8.0), Tap(2, 0, 1.0 / 8.0), Tap(-1, 1, 1.0 / 8.0),
     Tap(0, 1, 1.0 / 8.0), Tap(1, 1, 1.0 / 8.0), Tap(0, 2, 1.0 / 8.0)]
  }

  /** Jarvis-Judice-Ninke: twelve neighbours in forty-eighths. */
  function JarvisJudiceNinkeKernel(): (k: seq<Tap>)
    ensures AllForward(k) && WeightSum(k) == 1.0
  {
    [Tap(1, 0, 7.0 / 48.0), Tap(2, 0, 5.0 / 48.0),
     Tap(-2, 1, 3.0 / 48.0), Tap(-1, 1, 5.0 / 48.0), Tap(0, 1, 7.0 / 48.0), Tap(1, 1, 5.0 / 48.0), Tap(2, 1, 3.0 / 48.0),
     Tap(-2, 2, 1.0 / 48.0), Tap(-1, 2, 3.0 / 48.0), Tap(0, 2, 5.0 / 48.0), Tap(1, 2, 3.0 / 48.0), Tap(2, 2, 1.0 / 48.0)]
  }

  /** Stucki: the JJN footprint with weights in forty-seconds. */
  function StuckiKernel(): (k: seq<Tap>)
    ensures AllForward(k) && WeightSum(k) == 1.0
  {
    [Tap(1, 0, 8.0 / 42.0), Tap(2, 0, 4.0 / 42.0),
     Tap(-2, 1, 2.0 / 42.0), Tap(-1, 1, 4.0 / 42.0), Tap(0, 1, 8.0 / 42.0), Tap(1, 1, 4.0 / 42.0), Tap(2, 1, 2.0 / 42.0),
     Tap(-2, 2, 1.0 / 42.0), Tap(-1, 2, 2.0 / 42.0), Tap(0, 2, 4.0 / 42.0), Tap(1, 2, 2.0 / 42.0), Tap(2, 2, 1.0 / 42.0)]
  }

  /** The palette scan of ditherChannel: start with entry 0 and move to a
      later entry only when it is strictly closer, so ties keep the lower index. */
  function ClosestFrom(palette: seq<int>, v: real, i: nat, best: nat): (k: nat)
    requires best < i <= |palette|
    ensures best <= k < |palette|
    decreases |palette| - i
  {
    if i == |palette| then best
    else if Abs(v - palette[i] as real) < Abs(v - palette[best] as real) then ClosestFrom(palette, v, i + 1, i)
    else ClosestFrom(palette, v, i + 1, best)
  }

  /** If best is the first nearest entry among the first i, the scan ends on
      the first nearest entry of the whole palette. */
  lemma {:induction false} ClosestFromNearest(palette: seq<int>, v: real, i: nat, best: nat)
    requires best < i <= |palette|
    requires forall j :: 0 <= j < i ==> Abs(v - palette[best] as real) <= Abs(v - palette[j] as real)
    requires forall j :: 0 <= j < best ==> Abs(v - palette[j] as real) > Abs(v - palette[best] as real)
    ensures forall j :: 0 <= j < |palette| ==> Abs(v - palette[ClosestFrom(palette, v, i, best)] as real) <= Abs(v - palette[j] as real)
    ensures forall j :: 0 <= j < ClosestFrom(palette, v, i, best) ==> Abs(v - palette[j] as real) > Abs(v - palette[ClosestFrom(palette, v, i, best)] as real)
    decreases |palette| - i
  {
    if i < |palette| {
      if Abs(v - palette[i] as real) < Abs(v - palette[best] as real) {
        ClosestFromNearest(palette, v, i + 1, i);
      } else {
        ClosestFromNearest(palette, v, i + 1, best);
      }
    }
  }

  /** Index of the palette entry nearest to v, the lowest such index on a tie. */
  function ClosestIndex(palette: seq<int>, v: real): (k: nat)
    requires |palette| > 0
    ensures k < |palette|
    ensures forall j :: 0 <= j < |palette| ==> Abs(v - palette[k] as real) <= Abs(v - palette[j] as real)
    ensures forall j :: 0 <= j < k ==> Abs(v - palette[j] as real) > Abs(v - palette[k] as real)
  {
    ClosestFromNearest(palette, v, 1, 0);
    ClosestFrom(palette, v, 1, 0)
  }

  /** The palette loop of ditherChannel and ditherChannelWithPalette. */
  method FindClosest(palette: seq<int>, v: real) returns (c: int)
    requires |palette| > 0
    ensures c == palette[ClosestIndex(palette, v)]
  {
    var best := 0;
    c := palette[0];
    var minDistance := Abs(v - palette[0] as real);
    var i := 1;
    while i < |palette|
      invariant 1 <= i <= |palette| && best < i
      invariant c == palette[best] && minDistance == Abs(v - palette[best] as real)
      invariant ClosestFrom(palette, v, i, best) == ClosestIndex(palette, v)
    {
      var distance := Abs(v - palette[i] as real);
      if distance < minDistance {
        minDistance := distance;
        c := palette[i];
        best := i;
      }
      i := i + 1;
    }
  }

  /** How a visited sample is quantized: the grayscale dithers compare with
      128; the colour dithers take the nearest palette entry. */
  datatype Quantizer = Threshold128 | Nearest(palette: seq<int>)

  predicate ValidQuantizer(q: Quantizer)
  {
    q.Nearest? ==> |q.palette| > 0
  }

  function Quantize(q: Quantizer, v: real): real
    requires ValidQuantizer(q)
  {
    match q
    case Threshold128 => if v < 128.0 then 0.0 else 255.0
    case Nearest(palette) => palette[ClosestIndex(palette, v)] as real
  }

  /** The values a quantizer can produce. */
  predicate IsLevel(q: Quantizer, v: real)
  {
    match q
    case Threshold128 => v == 0.0 || v == 255.0
    case Nearest(palette) => exists i :: 0 <= i < |palette| && v == palette[i] as real
  }

  /** The neighbour a tap names lies inside the image. */
  predicate Lands(x: int, y: int, t: Tap, width: nat, height: nat)
  {
    0 <= x + t.dx < width && 0 <= y + t.dy < height
  }

  /** Flat index of the neighbour a tap names. */
  function Target(x: int, y: int, t: Tap, width: nat): int
  {
    (y + t.dy) * width + (x + t.dx)
  }

  /** Adds err * weight to the neighbour a tap names, when it lies inside the image. */
  function Deposit(s: seq<real>, width: nat, height: nat, x: int, y: int, err: real, t: Tap): (r: seq<real>)
    requires |s| == width * height
    ensures |r| == |s|
  {
    if Lands(x, y, t, width, height) then
      InImage(y + t.dy, x + t.dx, width, height);
      s[Target(x, y, t, width) := s[Target(x, y, t, width)] + err * t.weight]
    else s
  }

  /** Deposits every tap's share in kernel order; the share of a tap that
      falls outside the image is dropped. */
  function Spread(s: seq<real>, width: nat, height: nat, x: int, y: int, err: real, taps: seq<Tap>): (r: seq<real>)
    requires |s| == width * height
    ensures |r| == |s|
    decreases |taps|
  {
    if taps == [] then s
    else Spread(Deposit(s, width, height, x, y, err, taps[0]), width, height, x, y, err, taps[1..])
  }

  /** The error a visit hands on: (old - new) / scale. */
  function Scaled(e: real, scale: real): real
    requires scale != 0.0
  {
    e / scale
  }

  /** Visiting the sample at (x, y): quantize it, then spread (old - new) / scale. */
  function Visit(s: seq<real>, width: nat, height: nat, scale: real, taps: seq<Tap>, q: Quantizer, x: int, y: int): (r: seq<real>)
    requires |s| == width * height && scale != 0.0 && ValidQuantizer(q)
    requires 0 <= x < width && 0 <= y < height
    ensures |r| == |s|
  {
    InImage(y, x, width, height);
    var idx := y * width + x;
    var error := Scaled(QuantError(s, width, height, q, x, y), scale);
    Spread(s[idx := Quantize(q, s[idx])], width, height, x, y, error, taps)
  }

  /** The buffer after the first k samples (in row-major order) were visited. */
  function Diffused(s: seq<real>, width: nat, height: nat, scale: real, taps: seq<Tap>, q: Quantizer, k: nat): (r: seq<real>)
    requires |s| == width * height && scale != 0.0 && ValidQuantizer(q) && k <= |s|
    ensures |r| == |s|
  {
    if k == 0 then s
    else
      FlatIndex(k - 1, width, height);
      Visit(Diffused(s, width, height, scale, taps, q, k - 1), width, height, scale, taps, q, (k - 1) % width, (k - 1) / width)
  }

  lemma DepositKeepsEarlier(s: seq<real>, width: nat, height: nat, x: int, y: int, err: real, t: Tap, j: int)
    requires |s| == width * height && Forward(t)
    requires 0 <= x < width && 0 <= y < height && 0 <= j < |s| && j <= y * width + x
    ensures Deposit(s, width, height, x, y, err, t)[j] == s[j]
  {
    if Lands(x, y, t, width, height) {
      ForwardIsLater(x, y, t, width);
      InImage(y + t.dy, x + t.dx, width, height);
    }
  }

  /** Spreading from (x, y) along forward taps leaves (x, y) and every earlier sample alone. */
  lemma {:induction false} SpreadKeepsEarlier(s: seq<real>, width: nat, height: nat, x: int, y: int, err: real, taps: seq<Tap>, j: int)
    requires |s| == width * height && AllForward(taps)
    requires 0 <= x < width && 0 <= y < height && 0 <= j < |s| && j <= y * width + x
    ensures Spread(s, width, height, x, y, err, taps)[j] == s[j]
    decreases |taps|
  {
    if taps != [] {
      DepositKeepsEarlier(s, width, height, x, y, err, taps[0], j);
      assert AllForward(taps[1..]);
      SpreadKeepsEarlier(Deposit(s, width, height, x, y, err, taps[0]), width, height, x, y, err, taps[1..], j);
    }
  }

  /** The target of a forward tap, when inside the image, comes later in row-major order. */
  lemma ForwardIsLater(x: int, y: int, t: Tap, width: nat)
    requires Forward(t) && 0 <= x < width && 0 <= x + t.dx < width
    ensures Target(x, y, t, width) > y * width + x
  {
    if t.dy > 0 {
      MulMono(y + 1, y + t.dy, width);
    }
  }

  /** Visiting (x, y) quantizes that sample and leaves every earlier one alone. */
  lemma VisitKeepsEarlier(s: seq<real>, width: nat, height: nat, scale: real, taps: seq<Tap>, q: Quantizer, x: int, y: int, j: int)
    requires |s| == width * height && scale != 0.0 && ValidQuantizer(q) && AllForward(taps)
    requires 0 <= x < width && 0 <= y < height && 0 <= j <= y * width + x
    ensures j < |s|
    ensures Visit(s, width, height, scale, taps, q, x, y)[j] == if j == y * width + x then Quantize(q, s[j]) else s[j]
  {
    VisitIsReplaceAndSpread(s, width, height, scale, taps, q, x, y);
    var idx := y * width + x;
    SpreadKeepsEarlier(s[idx := Quantize(q, s[idx])], width, height, x, y, Scaled(QuantError(s, width, height, q, x, y), scale), taps, j);
  }

  /** After k visits the first k samples are quantizer levels. */
  lemma {:induction false} DiffusedPrefixQuantized(s: seq<real>, width: nat, height: nat, scale: real, taps: seq<Tap>, q: Quantizer, k: nat)
    requires |s| == width * height && scale != 0.0 && ValidQuantizer(q) && k <= |s| && AllForward(taps)
    ensures forall j :: 0 <= j < k ==> IsLevel(q, Diffused(s, width, height, scale, taps, q, k)[j])
  {
    if k > 0 {
      var p := k - 1;
      DiffusedPrefixQuantized(s, width, height, scale, taps, q, p);
      var prev := Diffused(s, width, height, scale, taps, q, p);
      FlatIndex(p, width, height);
      var x, y := p % width, p / width;
      DiffusedStep(s, width, height, scale, taps, q, y, x, p, k);
      forall j | 0 <= j < k
        ensures IsLevel(q, Diffused(s, width, height, scale, taps, q, k)[j])
      {
        VisitKeepsEarlier(prev, width, height, scale, taps, q, x, y, j);
        if j == p {
          QuantizeIsLevel(q, prev[p]);
        }
      }
    }
  }

  lemma QuantizeIsLevel(q: Quantizer, v: real)
    requires ValidQuantizer(q)
    ensures IsLevel(q, Quantize(q, v))
  {
    if q.Nearest? {
      var i := ClosestIndex(q.palette, v);
      assert Quantize(q, v) == q.palette[i] as real;
    }
  }

  /** The whole pass leaves only quantizer levels: 0 or 255 for the grayscale
      dithers, palette entries for the palette dithers, for any input and any scale. */
  lemma DiffusedQuantized(s: seq<real>, width: nat, height: nat, scale: real, taps: seq<Tap>, q: Quantizer)
    requires |s| == width * height && scale != 0.0 && ValidQuantizer(q) && AllForward(taps)
    ensures forall j :: 0 <= j < |s| ==> IsLevel(q, Diffused(s, width, height, scale, taps, q, |s|)[j])
  {
    DiffusedPrefixQuantized(s, width, height, scale, taps, q, |s|);
  }

  function Sum(s: seq<real>): real
  {
    if s == [] then 0.0 else s[0] + Sum(s[1..])
  }

  lemma {:induction false} SumUpdate(s: seq<real>, k: int, v: real)
    requires 0 <= k < |s|
    ensures Sum(s[k := v]) == Sum(s) - s[k] + v
  {
    if k > 0 {
      assert s[k := v][1..] == s[1..][k - 1 := v];
      SumUpdate(s[1..], k - 1, v);
    } else {
      assert s[k := v][1..] == s[1..];
    }
  }

  /** Total weight of the taps from (x, y) that land inside the image. */
  function LandedWeight(x: int, y: int, taps: seq<Tap>, width: nat, height: nat): real
  {
    if taps == [] then 0.0
    else (if Lands(x, y, taps[0], width, height) then taps[0].weight else 0.0) + LandedWeight(x, y, taps[1..], width, height)
  }

  /** Weight a spread from (x, y) puts on the sample at flat index j. */
  function ShareAt(x: int, y: int, taps: seq<Tap>, width: nat, height: nat, j: int): real
  {
    if taps == [] then 0.0
    else
      var w := if Lands(x, y, taps[0], width, height) && Target(x, y, taps[0], width) == j then taps[0].weight else 0.0;
      w + ShareAt(x, y, taps[1..], width, height, j)
  }

  lemma Distribute(a: real, b: real, c: real)
    ensures a * b + a * c == a * (b + c)
  {
  }

  /** Every sample receives exactly err times the weights of the landing taps
      aimed at it; a sample no tap lands on is unchanged. */
  lemma {:induction false} SpreadAt(s: seq<real>, width: nat, height: nat, x: int, y: int, err: real, taps: seq<Tap>, j: int)
    requires |s| == width * height && 0 <= j < |s|
    ensures Spread(s, width, height, x, y, err, taps)[j] == s[j] + err * ShareAt(x, y, taps, width, height, j)
    decreases |taps|
  {
    if taps != [] {
      var d := Deposit(s, width, height, x, y, err, taps[0]);
      SpreadAt(d, width, height, x, y, err, taps[1..], j);
      var w := if Lands(x, y, taps[0], width, height) && Target(x, y, taps[0], width) == j then taps[0].weight else 0.0;
      DepositAt(s, width, height, x, y, err, taps[0], j);
      Distribute(err, w, ShareAt(x, y, taps[1..], width, height, j));
    }
  }

  /** One deposit adds err times the tap's weight to its target and nothing elsewhere. */
  lemma DepositAt(s: seq<real>, width: nat, height: nat, x: int, y: int, err: real, t: Tap, j: int)
    requires |s| == width * height && 0 <= j < |s|
    ensures Deposit(s, width, height, x, y, err, t)[j]
      == s[j] + err * (if Lands(x, y, t, width, height) && Target(x, y, t, width) == j then t.weight else 0.0)
  {
  }

  /** What a spread from (x, y) hands to samples inside the image: err times
      the weight of each tap that lands. */
  function Handed(x: int, y: int, err: real, taps: seq<Tap>, width: nat, height: nat): real
  {
    if taps == [] then 0.0
    else (if Lands(x, y, taps[0], width, height) then err * taps[0].weight else 0.0) + Handed(x, y, err, taps[1..], width, height)
  }

  /** The shares handed on add up to err times the landed weight. */
  lemma {:induction false} HandedIsLandedShare(x: int, y: int, err: real, taps: seq<Tap>, width: nat, height: nat)
    ensures Handed(x, y, err, taps, width, height) == err * LandedWeight(x, y, taps, width, height)
    decreases |taps|
  {
    if taps != [] {
      HandedIsLandedShare(x, y, err, taps[1..], width, height);
      var w := if Lands(x, y, taps[0], width, height) then taps[0].weight else 0.0;
      Distribute(err, w, LandedWeight(x, y, taps[1..], width, height));
    }
  }

  /** Spreading adds exactly the handed shares to the image total: shares
      that fall outside the image are lost, nothing else is created. */
  lemma {:induction false} SpreadSum(s: seq<real>, width: nat, height: nat, x: int, y: int, err: real, taps: seq<Tap>)
    requires |s| == width * height
    ensures Sum(Spread(s, width, height, x, y, err, taps)) == Sum(s) + Handed(x, y, err, taps, width, height)
    decreases |taps|
  {
    if taps != [] {
      var d := Deposit(s, width, height, x, y, err, taps[0]);
      SpreadSum(d, width, height, x, y, err, taps[1..]);
      if Lands(x, y, taps[0], width, height) {
        InImage(y + taps[0].dy, x + taps[0].dx, width, height);
        var k := Target(x, y, taps[0], width);
        SumUpdate(s, k, s[k] + err * taps[0].weight);
      }
    }
  }

  /** When every tap lands, the landed weight is the kernel's whole weight. */
  lemma {:induction false} AllLandedWeight(x: int, y: int, taps: seq<Tap>, width: nat, height: nat)
    requires forall i :: 0 <= i < |taps| ==> Lands(x, y, taps[i], width, height)
    ensures LandedWeight(x, y, taps, width, height) == WeightSum(taps)
    decreases |taps|
  {
    if taps != [] {
      assert Lands(x, y, taps[0], width, height);
      AllLandedWeight(x, y, taps[1..], width, height);
    }
  }

  /** The quantization error (old - new) of the sample at (x, y). */
  function QuantError(s: seq<real>, width: nat, height: nat, q: Quantizer, x: int, y: int): real
    requires |s| == width * height && ValidQuantizer(q)
    requires 0 <= x < width && 0 <= y < height
  {
    InImage(y, x, width, height);
    s[y * width + x] - Quantize(q, s[y * width + x])
  }

  lemma VisitIsReplaceAndSpread(s: seq<real>, width: nat, height: nat, scale: real, taps: seq<Tap>, q: Quantizer, x: int, y: int)
    requires |s| == width * height && scale != 0.0 && ValidQuantizer(q)
    requires 0 <= x < width && 0 <= y < height
    ensures 0 <= y * width + x < |s|
    ensures QuantError(s, width, height, q, x, y) == s[y * width + x] - Quantize(q, s[y * width + x])
    ensures Visit(s, width, height, scale, taps, q, x, y)
      == Spread(s[y * width + x := Quantize(q, s[y * width + x])], width, height, x, y, Scaled(QuantError(s, width, height, q, x, y), scale), taps)
  {
    InImage(y, x, width, height);
  }

  /** One visit removes its quantization error e from the image total and
      adds back the shares of e / scale that land. */
  lemma VisitSum(s: seq<real>, width: nat, height: nat, scale: real, taps: seq<Tap>, q: Quantizer, x: int, y: int)
    requires |s| == width * height && scale != 0.0 && ValidQuantizer(q)
    requires 0 <= x < width && 0 <= y < height
    ensures Sum(Visit(s, width, height, scale, taps, q, x, y))
      == Sum(s) - QuantError(s, width, height, q, x, y) + Handed(x, y, Scaled(QuantError(s, width, height, q, x, y), scale), taps, width, height)
  {
    VisitIsReplaceAndSpread(s, width, height, scale, taps, q, x, y);
    var idx := y * width + x;
    SpreadSum(s[idx := Quantize(q, s[idx])], width, height, x, y, Scaled(QuantError(s, width, height, q, x, y), scale), taps);
    SumUpdate(s, idx, Quantize(q, s[idx]));
  }

  /** Away from the borders, a unit-weight kernel at scale 1 (Floyd-Steinberg,
      Jarvis-Judice-Ninke, Stucki) hands on the whole quantization error: the
      image total is unchanged by the visit. */
  lemma InteriorVisitConserves(s: seq<real>, width: nat, height: nat, taps: seq<Tap>, q: Quantizer, x: int, y: int)
    requires |s| == width * height && ValidQuantizer(q) && WeightSum(taps) == 1.0
    requires 0 <= x < width && 0 <= y < height
    requires forall i :: 0 <= i < |taps| ==> Lands(x, y, taps[i], width, height)
    ensures Sum(Visit(s, width, height, 1.0, taps, q, x, y)) == Sum(s)
  {
    VisitSum(s, width, height, 1.0, taps, q, x, y);
    HandedIsLandedShare(x, y, Scaled(QuantError(s, width, height, q, x, y), 1.0), taps, width, height);
    AllLandedWeight(x, y, taps, width, height);
  }

  /** Atkinson, away from the borders at scale 1, drops a quarter of each error. */
  lemma InteriorAtkinsonLoses(s: seq<real>, width: nat, height: nat, q: Quantizer, x: int, y: int)
    requires |s| == width * height && ValidQuantizer(q)
    requires 0 <= x < width && 0 <= y < height
    requires forall i :: 0 <= i < |AtkinsonKernel()| ==> Lands(x, y, AtkinsonKernel()[i], width, height)
    ensures Sum(Visit(s, width, height, 1.0, AtkinsonKernel(), q, x, y)) == Sum(s) - 0.25 * QuantError(s, width, height, q, x, y)
  {
    VisitSum(s, width, height, 1.0, AtkinsonKernel(), q, x, y);
    HandedIsLandedShare(x, y, Scaled(QuantError(s, width, height, q, x, y), 1.0), AtkinsonKernel(), width, height);
    AllLandedWeight(x, y, AtkinsonKernel(), width, height);
  }

  /** The body of the tap loop: add error * weight to the neighbour when it lies inside the image. */
  method DepositInPlace(buffer: array<real>, width: nat, height: nat, x: int, y: int, error: real, t: Tap)
    requires buffer.Length == width * height
    modifies buffer
    ensures buffer[..] == Deposit(old(buffer[..]), width, height, x, y, error, t)
  {
    if Lands(x, y, t, width, height) {
      InImage(y + t.dy, x + t.dx, width, height);
      var k := Target(x, y, t, width);
      buffer[k] := buffer[k] + error * t.weight;
    }
  }

  /** The tap loop run after a sample was quantized. */
  method SpreadInPlace(buffer: array<real>, width: nat, height: nat, x: int, y: int, error: real, taps: seq<Tap>)
    requires buffer.Length == width * height
    modifies buffer
    ensures buffer[..] == Spread(old(buffer[..]), width, height, x, y, error, taps)
  {
    ghost var s0 := buffer[..];
    var t := 0;
    while t < |taps|
      invariant 0 <= t <= |taps|
      invariant Spread(buffer[..], width, height, x, y, error, taps[t..]) == Spread(s0, width, height, x, y, error, taps)
    {
      ghost var rest := taps[t..];
      assert rest[0] == taps[t] && rest[1..] == taps[t + 1..];
      DepositInPlace(buffer, width, height, x, y, error, taps[t]);
      t := t + 1;
    }
    assert taps[t..] == [];
  }

  /** One step of the scan: quantize the sample at (x, y) and diffuse its error. */
  method VisitInPlace(buffer: array<real>, width: nat, height: nat, scale: real, taps: seq<Tap>, q: Quantizer, x: int, y: int)
    requires buffer.Length == width * height && scale != 0.0 && ValidQuantizer(q)
    requires 0 <= x < width && 0 <= y < height
    modifies buffer
    ensures buffer[..] == Visit(old(buffer[..]), width, height, scale, taps, q, x, y)
  {
    InImage(y, x, width, height);
    var idx := y * width + x;
    var oldPixel := buffer[idx];
    var newPixel: real;
    if q.Threshold128? {
      newPixel := if oldPixel < 128.0 then 0.0 else 255.0;
    } else {
      var c := FindClosest(q.palette, oldPixel);
      newPixel := c as real;
    }
    buffer[idx] := newPixel;
    var error := Scaled(oldPixel - newPixel, scale);
    SpreadInPlace(buffer, width, height, x, y, error, taps);
  }

  /** Visiting (x, y), the sample at flat index k, is the step from k visits to next = k + 1. */
  lemma DiffusedStep(s: seq<real>, width: nat, height: nat, scale: real, taps: seq<Tap>, q: Quantizer, y: int, x: int, k: int, next: nat)
    requires |s| == width * height && scale != 0.0 && ValidQuantizer(q)
    requires 0 <= y < height && 0 <= x < width && k == y * width + x && next == k + 1
    ensures 0 <= k < next <= width * height
    ensures Diffused(s, width, height, scale, taps, q, next) == Visit(Diffused(s, width, height, scale, taps, q, k), width, height, scale, taps, q, x, y)
  {
    RowMajor(y, x, width, height);
    assert next - 1 == k && k % width == x && k / width == y;
    assert Diffused(s, width, height, scale, taps, q, next)
      == Visit(Diffused(s, width, height, scale, taps, q, next - 1), width, height, scale, taps, q, (next - 1) % width, (next - 1) / width);
  }

  /** The inner loop of the pass: visit every sample of row y, from flat index row up to end. */
  method DiffuseRow(buffer: array<real>, width: nat, height: nat, scale: real, taps: seq<Tap>, q: Quantizer, y: int, ghost row: int, ghost end: int, ghost s0: seq<real>)
    requires buffer.Length == width * height && |s0| == width * height && scale != 0.0 && ValidQuantizer(q)
    requires 0 <= y < height && row == y * width && 0 <= row && end == row + width && end <= width * height
    requires buffer[..] == Diffused(s0, width, height, scale, taps, q, row)
    modifies buffer
    ensures buffer[..] == Diffused(s0, width, height, scale, taps, q, end)
  {
    var x := 0;
    ghost var k := row;
    while x < width
      invariant 0 <= x <= width && k == row + x
      invariant buffer[..] == Diffused(s0, width, height, scale, taps, q, k)
    {
      ghost var next := k + 1;
      DiffusedStep(s0, width, height, scale, taps, q, y, x, k, next);
      VisitInPlace(buffer, width, height, scale, taps, q, x, y);
      x, k := x + 1, next;
    }
    assert k == end;
  }

  /** The in-place pass: floydSteinbergDithering, atkinsonDithering,
      jarvisJudiceNinkeDithering, stuckiDithering, ditherChannel and
      ditherChannelWithPalette are this loop with their own kernel and quantizer. */
  method Diffuse(buffer: array<real>, width: nat, height: nat, scale: real, taps: seq<Tap>, q: Quantizer)
    requires buffer.Length == width * height && scale != 0.0 && ValidQuantizer(q)
    modifies buffer
    ensures buffer[..] == Diffused(old(buffer[..]), width, height, scale, taps, q, width * height)
  {
    ghost var s0 := buffer[..];
    var y := 0;
    ghost var row := 0;
    while y < height
      invariant 0 <= y <= height && row == y * width && 0 <= row <= width * height
      invariant buffer[..] == Diffused(s0, width, height, scale, taps, q, row)
    {
      NextRow(y, width, height);
      ghost var end := row + width;
      DiffuseRow(buffer, width, height, scale, taps, q, y, row, end, s0);
      row, y := end, y + 1;
    }
    MulComm(y, width);
    assert row == width * height;
  }
}
