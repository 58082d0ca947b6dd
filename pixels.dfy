/** Conventions shared by every stage of the pipeline: how a JavaScript
    number is stored into a typed array, Math.round, and the RGBA layout
    of a canvas ImageData (row-major, four bytes per pixel: R, G, B, A). */
module Pixels {

  /** Store into a Uint8ClampedArray (ECMAScript ToUint8Clamp): clamp to
      [0, 255] and round to the nearest integer, ties to even. */
  function ToByteClamped(r: real): (b: int)
    ensures 0 <= b <= 255
    ensures r <= 0.0 ==> b == 0
    ensures 255.0 <= r ==> b == 255
    ensures 0.0 <= r <= 255.0 ==> -0.5 <= b as real - r <= 0.5
    ensures 0.0 < r < 255.0 && r - r.Floor as real == 0.5 ==> b % 2 == 0
  {
    if r <= 0.0 then 0
    else if r >= 255.0 then 255
    else
      var f := r.Floor;
      if f as real + 0.5 < r then f + 1
      else if r < f as real + 0.5 then f
      else if f % 2 == 1 then f + 1 else f
  }

  /** A value that already is a byte is stored unchanged. */
  lemma StoreByte(v: int)
    requires 0 <= v <= 255
    ensures ToByteClamped(v as real) == v
  {
    assert (v as real).Floor == v;
  }

  /** Store into a Uint8Array (ECMAScript ToUint8): truncate toward zero,
      then reduce modulo 256. */
  function ToUint8(r: real): (b: int)
    ensures 0 <= b <= 255
    ensures 0.0 <= r < 256.0 ==> b == r.Floor
  {
    var t := if r >= 0.0 then r.Floor else -((-r).Floor);
    t % 256
  }

  /** JavaScript's Math.round: the nearest integer, halves rounded up. */
  function MathRound(x: real): (n: int)
    ensures n as real - 0.5 <= x < n as real + 0.5
  {
    (x + 0.5).Floor
  }

  predicate AllBytes(s: seq<int>)
  {
    forall j :: 0 <= j < |s| ==> 0 <= s[j] <= 255
  }

  /** The data of a width x height ImageData. */
  predicate IsImage(s: seq<int>, width: nat, height: nat)
  {
    |s| == width * height * 4 && AllBytes(s)
  }

  /** The alpha byte of every pixel is the same in s and t. */
  predicate AlphaUnchanged(s: seq<int>, t: seq<int>)
  {
    |s| == |t| && forall j :: 0 <= j < |s| && j % 4 == 3 ==> t[j] == s[j]
  }

  /** R = G = B in every pixel. */
  predicate IsGray(s: seq<int>)
  {
    |s| % 4 == 0 && forall j :: 0 <= j < |s| && j % 4 == 0 ==> s[j + 1] == s[j] && s[j + 2] == s[j]
  }

  /** A value clamped to [0, 255], as Math.min(Math.max(v, 0), 255) and
      Math.max(0, Math.min(255, v)) compute it. */
  function Clamp(v: real): (r: real)
    ensures 0.0 <= r <= 255.0
    ensures 0.0 <= v <= 255.0 ==> r == v
  {
    if v < 0.0 then 0.0 else if v > 255.0 then 255.0 else v
  }

  /** Math.abs of a number. */
  function Abs(r: real): real
  {
    if r < 0.0 then -r else r
  }

  /** Math.abs of a coordinate difference. */
  function AbsInt(a: int): nat
  {
    if a < 0 then -a else a
  }

  /** An image of n pixels holds 4 * n bytes: n whole pixels. */
  lemma PixelCount(n: int)
    ensures (n * 4) % 4 == 0 && (n * 4) / 4 == n
  {
  }

  /** The four bytes of the pixel whose red byte is at index i. */
  lemma PixelBytes(i: int)
    requires i % 4 == 0
    ensures (i + 1) % 4 == 1 && (i + 2) % 4 == 2 && (i + 3) % 4 == 3
    ensures (i + 1) / 4 == (i + 2) / 4 == (i + 3) / 4 == i / 4
    ensures (i + 4) % 4 == 0
  {
  }

  lemma MulMono(a: int, b: int, c: nat)
    requires a <= b
    ensures a * c <= b * c
  {
    assert b * c - a * c == (b - a) * c;
  }

  lemma MulComm(a: int, b: int)
    ensures a * b == b * a
  {
  }

  lemma MulAssoc(a: int, b: int, c: int)
    ensures a * (b * c) == (a * b) * c
  {
  }

  /** Row y + 1 starts width samples after row y, and no later than the end of the image. */
  lemma NextRow(y: int, width: nat, height: nat)
    requires 0 <= y < height
    ensures (y + 1) * width == y * width + width
    ensures 0 <= y * width && y * width + width <= width * height
  {
    MulMono(y + 1, height, width);
    MulMono(0, y, width);
  }

  /** The pixel at column x of row y has a flat index inside the image. */
  lemma InImage(y: int, x: int, width: int, height: int)
    requires 0 <= y < height && 0 <= x < width
    ensures 0 <= y * width + x < width * height
  {
    MulMono(y + 1, height, width);
    assert y * width + x < (y + 1) * width;
    MulMono(0, y, width);
  }

  /** The flat index y * width + x identifies x and y again. */
  lemma RowMajor(y: int, x: int, width: int, height: int)
    requires 0 <= y < height && 0 <= x < width
    ensures 0 <= y * width + x < width * height
    ensures (y * width + x) / width == y && (y * width + x) % width == x
  {
    InImage(y, x, width, height);
    MulMono(0, y, width);
    DivModUnique(y * width + x, width, y, x);
  }

  /** Euclidean division has a unique quotient and remainder. */
  lemma DivModUnique(n: int, d: int, q: int, r: int)
    requires 0 < d && 0 <= r < d && n == q * d + r
    ensures n / d == q && n % d == r
  {
    var q', r' := n / d, n % d;
    assert (q - q') * d == r' - r;
    if q > q' {
      MulMono(1, q - q', d);
    } else if q < q' {
      MulMono(1, q' - q, d);
    }
  }

  /** Flat index p of a width-wide image is row p / width, column p % width. */
  lemma FlatIndex(p: int, width: int, height: int)
    requires 0 < width && 0 <= p < width * height
    ensures 0 <= p / width < height && 0 <= p % width < width
    ensures (p / width) * width + p % width == p
  {
    if p / width >= height {
      MulMono(height, p / width, width);
    }
  }
}
