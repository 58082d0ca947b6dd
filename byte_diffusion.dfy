/** errorDiffusionDithering of dithering.js: the same row-major scan as the
    in-place engine, run on a Uint8Array copy of the buffer with a threshold
    of 128, an unscaled error, and every neighbour update clamped to
    [0, 255] before it is stored as a byte. */
module ByteDiffusion {
  import opened Pixels
  import opened Diffusion

  /** The Uint8Array copy made before the scan. */
  function Uint8Copy(s: seq<real>): (r: seq<int>)
    ensures |r| == |s| && AllBytes(r)
    ensures forall j :: 0 <= j < |s| && 0.0 <= s[j] < 256.0 ==> r[j] == s[j].Floor
  {
    seq(|s|, j requires 0 <= j < |s| => ToUint8(s[j]))
  }

  /** The byte stored into a neighbour: the old byte plus err * weight, clamped to [0, 255]. */
  function ByteShare(current: int, err: int, weight: real): (r: int)
    ensures 0 <= r <= 255
  {
    ToUint8(Clamp(current as real + err as real * weight))
  }

  /** Adds err * weight to the neighbour a tap names and stores the clamped sum as a byte. */
  function ByteDeposit(s: seq<int>, width: nat, height: nat, x: int, y: int, err: int, t: Tap): (r: seq<int>)
    requires |s| == width * height
    ensures |r| == |s|
  {
    if Lands(x, y, t, width, height) then
      InImage(y + t.dy, x + t.dx, width, height);
      s[Target(x, y, t, width) := ByteShare(s[Target(x, y, t, width)], err, t.weight)]
    else s
  }

  function ByteSpread(s: seq<int>, width: nat, height: nat, x: int, y: int, err: int, taps: seq<Tap>): (r: seq<int>)
    requires |s| == width * height
    ensures |r| == |s|
    decreases |taps|
  {
    if taps == [] then s
    else ByteSpread(ByteDeposit(s, width, height, x, y, err, taps[0]), width, height, x, y, err, taps[1..])
  }

  function ByteVisit(s: seq<int>, width: nat, height: nat, taps: seq<Tap>, x: int, y: int): (r: seq<int>)
    requires |s| == width * height
    requires 0 <= x < width && 0 <= y < height
    ensures |r| == |s|
  {
    InImage(y, x, width, height);
    var idx := y * width + x;
    var newPixel := if s[idx] < 128 then 0 else 255;
    ByteSpread(s[idx := newPixel], width, height, x, y, s[idx] - newPixel, taps)
  }

  /** The result after the first k samples were visited. */
  function ByteDiffused(s: seq<int>, width: nat, height: nat, taps: seq<Tap>, k: nat): (r: seq<int>)
    requires |s| == width * height && k <= |s|
    ensures |r| == |s|
  {
    if k == 0 then s
    else
      FlatIndex(k - 1, width, height);
      ByteVisit(ByteDiffused(s, width, height, taps, k - 1), width, height, taps, (k - 1) % width, (k - 1) / width)
  }

  lemma ByteDepositKeepsEarlier(s: seq<int>, width: nat, height: nat, x: int, y: int, err: int, t: Tap, j: int)
    requires |s| == width * height && Forward(t)
    requires 0 <= x < width && 0 <= y < height && 0 <= j < |s| && j <= y * width + x
    ensures ByteDeposit(s, width, height, x, y, err, t)[j] == s[j]
  {
    if Lands(x, y, t, width, height) {
      ForwardIsLater(x, y, t, width);
      InImage(y + t.dy, x + t.dx, width, height);
    }
  }

  lemma {:induction false} ByteSpreadKeepsEarlier(s: seq<int>, width: nat, height: nat, x: int, y: int, err: int, taps: seq<Tap>, j: int)
    requires |s| == width * height && AllForward(taps)
    requires 0 <= x < width && 0 <= y < height && 0 <= j < |s| && j <= y * width + x
    ensures ByteSpread(s, width, height, x, y, err, taps)[j] == s[j]
    decreases |taps|
  {
    if taps != [] {
      ByteDepositKeepsEarlier(s, width, height, x, y, err, taps[0], j);
      assert AllForward(taps[1..]);
      ByteSpreadKeepsEarlier(ByteDeposit(s, width, height, x, y, err, taps[0]), width, height, x, y, err, taps[1..], j);
    }
  }

  /** Neighbour updates never leave the byte range. */
  lemma {:induction false} ByteSpreadBytes(s: seq<int>, width: nat, height: nat, x: int, y: int, err: int, taps: seq<Tap>)
    requires |s| == width * height && AllBytes(s)
    ensures AllBytes(ByteSpread(s, width, height, x, y, err, taps))
    decreases |taps|
  {
    if taps != [] {
      var d := ByteDeposit(s, width, height, x, y, err, taps[0]);
      assert AllBytes(d);
      ByteSpreadBytes(d, width, height, x, y, err, taps[1..]);
    }
  }

  /** After k visits the first k samples are 0 or 255 and all are bytes. */
  lemma {:induction false} ByteDiffusedPrefix(s: seq<int>, width: nat, height: nat, taps: seq<Tap>, k: nat)
    requires |s| == width * height && k <= |s| && AllForward(taps) && AllBytes(s)
    ensures AllBytes(ByteDiffused(s, width, height, taps, k))
    ensures forall j :: 0 <= j < k ==> ByteDiffused(s, width, height, taps, k)[j] in {0, 255}
  {
    if k > 0 {
      ByteDiffusedPrefix(s, width, height, taps, k - 1);
      var prev := ByteDiffused(s, width, height, taps, k - 1);
      FlatIndex(k - 1, width, height);
      var x, y := (k - 1) % width, (k - 1) / width;
      var newPixel := if prev[k - 1] < 128 then 0 else 255;
      var err := prev[k - 1] - newPixel;
      assert ByteDiffused(s, width, height, taps, k) == ByteSpread(prev[k - 1 := newPixel], width, height, x, y, err, taps);
      ByteSpreadBytes(prev[k - 1 := newPixel], width, height, x, y, err, taps);
      forall j | 0 <= j < k
        ensures ByteDiffused(s, width, height, taps, k)[j] == prev[k - 1 := newPixel][j]
      {
        ByteSpreadKeepsEarlier(prev[k - 1 := newPixel], width, height, x, y, err, taps, j);
      }
    }
  }

  /** errorDiffusionDithering returns only black and white samples, whatever
      the kernel weights, as long as every tap points forward. */
  lemma ByteDiffusedBinary(s: seq<real>, width: nat, height: nat, taps: seq<Tap>)
    requires |s| == width * height && AllForward(taps)
    ensures forall j :: 0 <= j < |s| ==> ByteDiffused(Uint8Copy(s), width, height, taps, |s|)[j] in {0, 255}
  {
    ByteDiffusedPrefix(Uint8Copy(s), width, height, taps, |s|);
  }

  /** The body of the byte tap loop: the neighbour inside the image gets
      error * weight added, clamped and stored into the Uint8Array. */
  method ByteDepositInPlace(result: array<int>, width: nat, height: nat, x: int, y: int, error: int, t: Tap)
    requires result.Length == width * height
    modifies result
    ensures result[..] == ByteDeposit(old(result[..]), width, height, x, y, error, t)
  {
    if Lands(x, y, t, width, height) {
      InImage(y + t.dy, x + t.dx, width, height);
      var k := Target(x, y, t, width);
      result[k] := ByteShare(result[k], error, t.weight);
    }
  }

  method ByteSpreadInPlace(result: array<int>, width: nat, height: nat, x: int, y: int, error: int, taps: seq<Tap>)
    requires result.Length == width * height
    modifies result
    ensures result[..] == ByteSpread(old(result[..]), width, height, x, y, error, taps)
  {
    ghost var s0 := result[..];
    var t := 0;
    while t < |taps|
      invariant 0 <= t <= |taps|
      invariant ByteSpread(result[..], width, height, x, y, error, taps[t..]) == ByteSpread(s0, width, height, x, y, error, taps)
    {
      ghost var rest := taps[t..];
      assert rest[0] == taps[t] && rest[1..] == taps[t + 1..];
      ByteDepositInPlace(result, width, height, x, y, error, taps[t]);
      t := t + 1;
    }
    assert taps[t..] == [];
  }

  method ByteVisitInPlace(result: array<int>, width: nat, height: nat, taps: seq<Tap>, x: int, y: int)
    requires result.Length == width * height
    requires 0 <= x < width && 0 <= y < height
    modifies result
    ensures result[..] == ByteVisit(old(result[..]), width, height, taps, x, y)
  {
    InImage(y, x, width, height);
    var idx := y * width + x;
    var oldPixel := result[idx];
    var newPixel := if oldPixel < 128 then 0 else 255;
    result[idx] := newPixel;
    ByteSpreadInPlace(result, width, height, x, y, oldPixel - newPixel, taps);
  }

  /** The copy loop: each number is stored into the Uint8Array. */
  method CopyToUint8(buffer: array<real>) returns (result: array<int>)
    ensures fresh(result)
    ensures result[..] == Uint8Copy(buffer[..])
  {
    result := new int[buffer.Length];
    var i := 0;
    while i < buffer.Length
      invariant 0 <= i <= buffer.Length
      invariant forall j :: 0 <= j < i ==> result[j] == ToUint8(buffer[j])
    {
      result[i] := ToUint8(buffer[i]);
      i := i + 1;
    }
  }

  /** The scan over the byte copy. */
  method ByteDiffuse(result: array<int>, width: nat, height: nat, taps: seq<Tap>)
    requires result.Length == width * height
    modifies result
    ensures result[..] == ByteDiffused(old(result[..]), width, height, taps, width * height)
  {
    ghost var s0 := result[..];
    var y := 0;
    while y < height
      invariant 0 <= y <= height && y * width <= width * height
      invariant result[..] == ByteDiffused(s0, width, height, taps, y * width)
    {
      MulMono(y + 1, height, width);
      var x := 0;
      while x < width
        invariant 0 <= x <= width && y * width + x <= width * height
        invariant result[..] == ByteDiffused(s0, width, height, taps, y * width + x)
      {
        RowMajor(y, x, width, height);
        ByteVisitInPlace(result, width, height, taps, x, y);
        x := x + 1;
      }
      assert y * width + width == (y + 1) * width;
      y := y + 1;
    }
    assert y * width == width * height;
  }

  /** errorDiffusionDithering: copies the buffer into a fresh byte array and
      diffuses there; the buffer itself is left untouched. */
  method ErrorDiffusionDithering(buffer: array<real>, width: nat, height: nat, taps: seq<Tap>) returns (result: array<int>)
    requires buffer.Length == width * height
    ensures fresh(result)
    ensures result[..] == ByteDiffused(Uint8Copy(buffer[..]), width, height, taps, width * height)
  {
    result := CopyToUint8(buffer);
    ByteDiffuse(result, width, height, taps);
  }
}
