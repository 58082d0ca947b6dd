/** The channel split shared by the colour dithers of colorDithering.js and
    colorRandomDithering.js: the red, green and blue bytes of every pixel are
    copied into three scalar buffers of width * height samples, each buffer is
    dithered on its own, and the three results are stored back into the
    R, G and B bytes of the image (through the Uint8ClampedArray store);
    alpha bytes are never written. */
module Channels {
  import opened Pixels

  /** The scalar buffer of channel c (0 red, 1 green, 2 blue). */
  function Channel(s: seq<int>, c: int): (r: seq<real>)
    requires |s| % 4 == 0 && 0 <= c < 3
    ensures |r| == |s| / 4
    ensures forall p :: 0 <= p < |r| ==> r[p] == s[4 * p + c] as real
  {
    seq(|s| / 4, p requires 0 <= p < |s| / 4 => s[4 * p + c] as real)
  }

  /** Byte j after the copy back of the three channel buffers. */
  function MergedAt(s: seq<int>, red: seq<real>, green: seq<real>, blue: seq<real>, j: int): int
    requires |s| % 4 == 0 && |red| == |green| == |blue| == |s| / 4 && 0 <= j < |s|
  {
    if j % 4 == 0 then ToByteClamped(red[j / 4])
    else if j % 4 == 1 then ToByteClamped(green[j / 4])
    else if j % 4 == 2 then ToByteClamped(blue[j / 4])
    else s[j]
  }

  /** The image after the three channel buffers were copied back into it. */
  function Merged(s: seq<int>, red: seq<real>, green: seq<real>, blue: seq<real>): (r: seq<int>)
    requires |s| % 4 == 0 && |red| == |green| == |blue| == |s| / 4
    ensures |r| == |s| && AlphaUnchanged(s, r)
  {
    seq(|s|, j requires 0 <= j < |s| => MergedAt(s, red, green, blue, j))
  }

  /** Byte c of pixel p after the copy back is sample p of buffer c, stored as a byte. */
  lemma MergedByte(s: seq<int>, red: seq<real>, green: seq<real>, blue: seq<real>, p: int, c: int)
    requires |s| % 4 == 0 && |red| == |green| == |blue| == |s| / 4 && 0 <= p < |s| / 4 && 0 <= c < 3
    ensures 4 * p + c < |s|
    ensures c == 0 ==> Merged(s, red, green, blue)[4 * p + c] == ToByteClamped(red[p])
    ensures c == 1 ==> Merged(s, red, green, blue)[4 * p + c] == ToByteClamped(green[p])
    ensures c == 2 ==> Merged(s, red, green, blue)[4 * p + c] == ToByteClamped(blue[p])
  {
    assert (4 * p + c) % 4 == c && (4 * p + c) / 4 == p;
  }

  /** A byte value stored as sample p of buffer c comes back unchanged at byte c of pixel p. */
  lemma MergedSample(s: seq<int>, red: seq<real>, green: seq<real>, blue: seq<real>, p: int, c: int, buffer: seq<real>, v: int)
    requires |s| % 4 == 0 && |red| == |green| == |blue| == |s| / 4 && 0 <= p < |s| / 4 && 0 <= c < 3
    requires buffer == (if c == 0 then red else if c == 1 then green else blue)
    requires buffer[p] == v as real && 0 <= v <= 255
    ensures 4 * p + c < |s| && Merged(s, red, green, blue)[4 * p + c] == v
  {
    MergedByte(s, red, green, blue, p, c);
    StoreByte(v);
  }

  /** Copying back and splitting again gives the stored bytes of each buffer:
      channel c of the merged image depends on buffer c only. */
  lemma ChannelOfMerged(s: seq<int>, red: seq<real>, green: seq<real>, blue: seq<real>, p: int)
    requires |s| % 4 == 0 && |red| == |green| == |blue| == |s| / 4 && 0 <= p < |s| / 4
    ensures Channel(Merged(s, red, green, blue), 0)[p] == ToByteClamped(red[p]) as real
    ensures Channel(Merged(s, red, green, blue), 1)[p] == ToByteClamped(green[p]) as real
    ensures Channel(Merged(s, red, green, blue), 2)[p] == ToByteClamped(blue[p]) as real
  {
    var m := Merged(s, red, green, blue);
    assert m[4 * p] == MergedAt(s, red, green, blue, 4 * p);
    assert m[4 * p + 1] == MergedAt(s, red, green, blue, 4 * p + 1);
    assert m[4 * p + 2] == MergedAt(s, red, green, blue, 4 * p + 2);
  }

  /** Splitting an image and copying the untouched buffers back restores it. */
  lemma MergeOfChannels(s: seq<int>)
    requires |s| % 4 == 0 && AllBytes(s)
    ensures Merged(s, Channel(s, 0), Channel(s, 1), Channel(s, 2)) == s
  {
    var m := Merged(s, Channel(s, 0), Channel(s, 1), Channel(s, 2));
    forall j | 0 <= j < |s|
      ensures m[j] == s[j]
    {
      MergedChannelByte(s, j);
    }
  }

  lemma MergedChannelByte(s: seq<int>, j: int)
    requires |s| % 4 == 0 && AllBytes(s) && 0 <= j < |s|
    ensures MergedAt(s, Channel(s, 0), Channel(s, 1), Channel(s, 2), j) == s[j]
  {
    var p := j / 4;
    assert j == 4 * p + j % 4;
    if j % 4 != 3 {
      StoreByte(s[j]);
    }
  }

  /** The extraction loop: three fresh buffers holding the R, G and B bytes. */
  method ExtractChannels(data: array<int>, width: nat, height: nat) returns (red: array<real>, green: array<real>, blue: array<real>)
    requires data.Length == width * height * 4
    ensures fresh(red) && fresh(green) && fresh(blue) && red != green && green != blue && red != blue
    ensures red[..] == Channel(data[..], 0) && green[..] == Channel(data[..], 1) && blue[..] == Channel(data[..], 2)
  {
    red := new real[width * height];
    green := new real[width * height];
    blue := new real[width * height];
    var y := 0;
    while y < height
      invariant 0 <= y <= height && y * width <= width * height
      invariant forall p :: 0 <= p < y * width ==>
        red[p] == data[4 * p] as real && green[p] == data[4 * p + 1] as real && blue[p] == data[4 * p + 2] as real
    {
      MulMono(y + 1, height, width);
      var x := 0;
      while x < width
        invariant 0 <= x <= width && y * width + x <= width * height
        invariant forall p :: 0 <= p < y * width + x ==>
          red[p] == data[4 * p] as real && green[p] == data[4 * p + 1] as real && blue[p] == data[4 * p + 2] as real
      {
        InImage(y, x, width, height);
        var idx := (y * width + x) * 4;
        red[y * width + x] := data[idx] as real;
        green[y * width + x] := data[idx + 1] as real;
        blue[y * width + x] := data[idx + 2] as real;
        x := x + 1;
      }
      assert y * width + width == (y + 1) * width;
      y := y + 1;
    }
    assert y * width == width * height;
  }

  /** One step of the copy-back loop: the pixel at byte offset idx receives its three samples. */
  method StorePixel(data: array<int>, ghost s0: seq<int>, ghost reds: seq<real>, ghost greens: seq<real>, ghost blues: seq<real>, idx: nat, r: real, g: real, b: real)
    requires data.Length == |s0| && |s0| % 4 == 0 && |reds| == |greens| == |blues| == |s0| / 4
    requires idx % 4 == 0 && idx < |s0| && r == reds[idx / 4] && g == greens[idx / 4] && b == blues[idx / 4]
    requires forall j :: 0 <= j < idx ==> data[j] == MergedAt(s0, reds, greens, blues, j)
    requires forall j :: idx <= j < data.Length ==> data[j] == s0[j]
    modifies data
    ensures forall j :: 0 <= j < idx + 4 ==> data[j] == MergedAt(s0, reds, greens, blues, j)
    ensures forall j :: idx + 4 <= j < data.Length ==> data[j] == s0[j]
  {
    PixelBytes(idx);
    data[idx] := ToByteClamped(r);
    data[idx + 1] := ToByteClamped(g);
    data[idx + 2] := ToByteClamped(b);
    assert data[idx] == MergedAt(s0, reds, greens, blues, idx) && data[idx + 1] == MergedAt(s0, reds, greens, blues, idx + 1);
    assert data[idx + 2] == MergedAt(s0, reds, greens, blues, idx + 2) && data[idx + 3] == MergedAt(s0, reds, greens, blues, idx + 3);
  }

  /** The copy-back loop: R, G and B of pixel p receive sample p of their buffer. */
  method WriteBack(data: array<int>, width: nat, height: nat, red: array<real>, green: array<real>, blue: array<real>)
    requires data.Length == width * height * 4
    requires red.Length == green.Length == blue.Length == width * height
    modifies data
    ensures data[..] == Merged(old(data[..]), red[..], green[..], blue[..])
  {
    ghost var s0, reds, greens, blues := data[..], red[..], green[..], blue[..];
    assert |s0| % 4 == 0 && |reds| == |greens| == |blues| == |s0| / 4;
    var y := 0;
    ghost var row := 0;
    while y < height
      invariant 0 <= y <= height && row == y * width && 0 <= row <= width * height
      invariant forall j :: 0 <= j < 4 * row ==> data[j] == MergedAt(s0, reds, greens, blues, j)
      invariant forall j :: 4 * row <= j < data.Length ==> data[j] == s0[j]
    {
      NextRow(y, width, height);
      var x := 0;
      ghost var k := row;
      while x < width
        invariant 0 <= x <= width && k == row + x && k <= width * height
        invariant forall j :: 0 <= j < 4 * k ==> data[j] == MergedAt(s0, reds, greens, blues, j)
        invariant forall j :: 4 * k <= j < data.Length ==> data[j] == s0[j]
      {
        InImage(y, x, width, height);
        var idx := (y * width + x) * 4;
        StorePixel(data, s0, reds, greens, blues, idx, red[y * width + x], green[y * width + x], blue[y * width + x]);
        x, k := x + 1, k + 1;
      }
      row, y := row + width, y + 1;
    }
    MulComm(y, width);
    assert 4 * row == data.Length;
  }
}
