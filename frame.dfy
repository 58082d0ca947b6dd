/** The rectangular borders of border.js for images without transparency:
    applyBorderToImageData paints a frame `thickness` pixels wide along the
    four edges, applyInnerBorderToImageData a second frame `offset` pixels
    further in. Both visit only the border rows and strips, writing through
    the flat index (y * width + x) * 4, so a strip that reaches past the
    image's width continues in the neighbouring row, and a store outside the
    array is dropped. */
module Frame {
  import opened Pixels
  import opened Border

  /** Flat pixel index of column x of row y. */
  function Pixel(y: int, x: int, width: int): int
  {
    y * width + x
  }

  /** Row and column of a pixel inside the outer frame. */
  predicate InFrame(row: int, col: int, width: int, height: int, thickness: int)
  {
    row < thickness || row >= height - thickness || col < thickness || col >= width - thickness
  }

  /** The pixels applyBorderToImageData recolours. */
  function FramePixels(width: nat, height: nat, thickness: int): set<int>
  {
    set q | 0 <= q < width * height && InFrame(q / width, q % width, width, height, thickness)
  }

  /** A flat index reached from a column inside the row names that row and column. */
  lemma FlatRow(y: int, x: int, width: nat, height: nat)
    requires 0 <= x < width && 0 <= Pixel(y, x, width) < width * height
    ensures 0 <= y < height
    ensures Pixel(y, x, width) / width == y && Pixel(y, x, width) % width == x
  {
    DivModUnique(Pixel(y, x, width), width, y, x);
    FlatIndex(Pixel(y, x, width), width, height);
  }

  /** A store of the left or right strip lands inside the frame, also when the
      strip reaches past the width and the store lands in a neighbouring row. */
  lemma StripInFrame(y: int, x: int, width: nat, height: nat, thickness: int)
    requires thickness <= y < height - thickness
    requires 0 <= x < thickness || width - thickness <= x < width
    requires 0 <= Pixel(y, x, width) < width * height
    ensures InFrame(Pixel(y, x, width) / width, Pixel(y, x, width) % width, width, height, thickness)
  {
    var q := Pixel(y, x, width);
    FlatIndex(q, width, height);
    if 0 <= x < width {
      FlatRow(y, x, width, height);
    }
  }

  /** One inner loop of both frame functions: paint columns lo .. hi - 1 of
      row y. `covered` is the set painted so far; every store that lands in
      the image must belong to `target`. */
  method PaintSpan(data: array<int>, width: nat, height: nat, y: int, lo: int, hi: int, color: Rgb,
                   ghost s0: seq<int>, ghost target: set<int>, ghost covered: set<int>) returns (ghost painted: set<int>)
    requires data.Length == width * height * 4 && |s0| == data.Length
    requires data[..] == Recolored(s0, color, covered) && covered <= target
    requires forall x :: lo <= x < hi && 0 <= Pixel(y, x, width) < width * height ==> Pixel(y, x, width) in target
    modifies data
    ensures data[..] == Recolored(s0, color, painted) && covered <= painted <= target
    ensures forall x :: lo <= x < hi && 0 <= Pixel(y, x, width) < width * height ==> Pixel(y, x, width) in painted
    ensures forall col :: 0 <= col < width && lo <= col < hi && 0 <= y < height ==> Pixel(y, col, width) in painted
  {
    PixelCount(width * height);
    painted := covered;
    var x := lo;
    while x < hi
      invariant lo <= x && (x <= hi || x == lo)
      invariant data[..] == Recolored(s0, color, painted) && covered <= painted <= target
      invariant forall x' :: lo <= x' < x && 0 <= Pixel(y, x', width) < width * height ==> Pixel(y, x', width) in painted
      invariant forall col :: 0 <= col < width && lo <= col < x && 0 <= y < height ==> Pixel(y, col, width) in painted
    {
      var idx := (y * width + x) * 4;
      RecoloredMore(s0, color, painted, idx / 4);
      StorePixel(data, idx / 4, color);
      if 0 <= Pixel(y, x, width) < width * height {
        painted := painted + {Pixel(y, x, width)};
      }
      if 0 <= y < height && 0 <= x < width {
        InImage(y, x, width, height);
      }
      x := x + 1;
    }
  }

  method ApplyBorderToImageData(data: array<int>, width: nat, height: nat, thickness: int, color: Rgb)
    requires data.Length == width * height * 4
    modifies data
    ensures data[..] == Recolored(old(data[..]), color, FramePixels(width, height, thickness))
  {
    ghost var s0 := data[..];
    ghost var frame := FramePixels(width, height, thickness);
    ghost var covered: set<int> := {};
    // top and bottom rows
    var y := 0;
    while y < thickness
      invariant 0 <= y && (y <= thickness || y == 0)
      invariant data[..] == Recolored(s0, color, covered) && covered <= frame
      invariant forall row, col :: 0 <= row < height && 0 <= col < width && (row < y || row >= height - y) ==>
        Pixel(row, col, width) in covered
    {
      forall x | 0 <= x < width && 0 <= Pixel(y, x, width) < width * height
        ensures Pixel(y, x, width) in frame
      {
        FlatRow(y, x, width, height);
      }
      covered := PaintSpan(data, width, height, y, 0, width, color, s0, frame, covered);
      var bottomY := height - y - 1;
      forall x | 0 <= x < width && 0 <= Pixel(bottomY, x, width) < width * height
        ensures Pixel(bottomY, x, width) in frame
      {
        FlatRow(bottomY, x, width, height);
      }
      covered := PaintSpan(data, width, height, bottomY, 0, width, color, s0, frame, covered);
      y := y + 1;
    }
    // left and right strips of the rows in between
    y := thickness;
    while y < height - thickness
      invariant thickness <= y && (y <= height - thickness || y == thickness)
      invariant data[..] == Recolored(s0, color, covered) && covered <= frame
      invariant forall row, col :: 0 <= row < height && 0 <= col < width && (row < thickness || row >= height - thickness) ==>
        Pixel(row, col, width) in covered
      invariant forall row, col :: 0 <= row < height && 0 <= col < width && thickness <= row < y && (col < thickness || col >= width - thickness) ==>
        Pixel(row, col, width) in covered
    {
      forall x | (0 <= x < thickness || width - thickness <= x < width) && 0 <= Pixel(y, x, width) < width * height
        ensures Pixel(y, x, width) in frame
      {
        StripInFrame(y, x, width, height, thickness);
      }
      covered := PaintSpan(data, width, height, y, 0, thickness, color, s0, frame, covered);
      covered := PaintSpan(data, width, height, y, width - thickness, width, color, s0, frame, covered);
      y := y + 1;
    }
    forall q | q in frame
      ensures q in covered
    {
      FlatIndex(q, width, height);
      assert Pixel(q / width, q % width, width) == q;
    }
    assert covered == frame;
  }

  // ---------------------------------------------------------------------
  // applyInnerBorderToImageData
  // ---------------------------------------------------------------------

  /** The full rows the inner frame paints: rows offset .. offset + thickness - 1
      and their mirror rows from the bottom. */
  function InnerRows(width: nat, height: nat, thickness: int, offset: int): set<int>
  {
    set q | 0 <= q < width * height
      && (offset <= q / width < offset + thickness || height - offset - thickness <= q / width < height - offset)
  }

  /** The stores of the left and right strips of the rows in between, each
      landing at its flat index (a strip reaching past the width continues in
      the neighbouring row). */
  function InnerStrips(width: nat, height: nat, thickness: int, offset: int): set<int>
  {
    Strip(width, height, thickness, offset, offset, offset + thickness)
    + Strip(width, height, thickness, offset, width - offset - thickness, width - offset)
  }

  /** The stores at columns lo .. hi - 1 of the rows between the inner top and bottom rows. */
  function Strip(width: nat, height: nat, thickness: int, offset: int, lo: int, hi: int): set<int>
  {
    set y, x | offset + thickness <= y < height - offset - thickness && lo <= x < hi
      && 0 <= Pixel(y, x, width) < width * height
      :: Pixel(y, x, width)
  }

  /** The pixels applyInnerBorderToImageData recolours. */
  function InnerFramePixels(width: nat, height: nat, thickness: int, offset: int): set<int>
  {
    InnerRows(width, height, thickness, offset) + InnerStrips(width, height, thickness, offset)
  }

  /** The two loops of the inner frame reach every pixel of InnerFramePixels. */
  lemma InnerCovered(width: nat, height: nat, thickness: int, offset: int, covered: set<int>)
    requires forall row, col ::
        (0 <= row < height && 0 <= col < width
         && (offset <= row < offset + thickness || height - offset - thickness <= row < height - offset)) ==>
        Pixel(row, col, width) in covered
    requires forall y', x ::
        (offset + thickness <= y' < height - offset - thickness
         && (offset <= x < offset + thickness || width - offset - thickness <= x < width - offset)
         && 0 <= Pixel(y', x, width) < width * height) ==> Pixel(y', x, width) in covered
    ensures InnerFramePixels(width, height, thickness, offset) <= covered
  {
    forall q | q in InnerFramePixels(width, height, thickness, offset)
      ensures q in covered
    {
      if q in InnerRows(width, height, thickness, offset) {
        FlatIndex(q, width, height);
        assert Pixel(q / width, q % width, width) == q;
      } else if q in Strip(width, height, thickness, offset, offset, offset + thickness) {
        var y', x :| offset + thickness <= y' < height - offset - thickness && offset <= x < offset + thickness
          && 0 <= Pixel(y', x, width) < width * height && q == Pixel(y', x, width);
      } else {
        var y', x :| offset + thickness <= y' < height - offset - thickness && width - offset - thickness <= x < width - offset
          && 0 <= Pixel(y', x, width) < width * height && q == Pixel(y', x, width);
      }
    }
  }

  /** The first loop of applyInnerBorderToImageData: the inner top rows and their mirror rows. */
  method PaintInnerRows(data: array<int>, width: nat, height: nat, thickness: int, color: Rgb, offset: int,
                        ghost s0: seq<int>, ghost target: set<int>) returns (ghost covered: set<int>)
    requires data.Length == width * height * 4 && data[..] == s0
    requires InnerRows(width, height, thickness, offset) <= target
    modifies data
    ensures data[..] == Recolored(s0, color, covered) && covered <= target
    ensures forall row, col ::
        (0 <= row < height && 0 <= col < width
         && (offset <= row < offset + thickness || height - offset - thickness <= row < height - offset)) ==>
        Pixel(row, col, width) in covered
  {
    covered := {};
    var y := offset;
    while y < offset + thickness
      invariant offset <= y && (y <= offset + thickness || y == offset)
      invariant data[..] == Recolored(s0, color, covered) && covered <= target
      invariant forall row, col :: 0 <= row < height && 0 <= col < width && (offset <= row < y || height - y <= row < height - offset) ==>
        Pixel(row, col, width) in covered
    {
      forall x | 0 <= x < width && 0 <= Pixel(y, x, width) < width * height
        ensures Pixel(y, x, width) in target
      {
        FlatRow(y, x, width, height);
      }
      covered := PaintSpan(data, width, height, y, 0, width, color, s0, target, covered);
      var bottomY := height - offset - (y - offset) - 1;
      forall x | 0 <= x < width && 0 <= Pixel(bottomY, x, width) < width * height
        ensures Pixel(bottomY, x, width) in target
      {
        FlatRow(bottomY, x, width, height);
      }
      covered := PaintSpan(data, width, height, bottomY, 0, width, color, s0, target, covered);
      y := y + 1;
    }
  }

  /** The second loop of applyInnerBorderToImageData: the left and right inner
      strips of the rows in between. */
  method PaintInnerStrips(data: array<int>, width: nat, height: nat, thickness: int, color: Rgb, offset: int,
                          ghost s0: seq<int>, ghost target: set<int>, ghost done: set<int>) returns (ghost covered: set<int>)
    requires data.Length == width * height * 4 && |s0| == data.Length
    requires data[..] == Recolored(s0, color, done) && done <= target
    requires InnerStrips(width, height, thickness, offset) <= target
    modifies data
    ensures data[..] == Recolored(s0, color, covered) && done <= covered <= target
    ensures forall y', x ::
        (offset + thickness <= y' < height - offset - thickness
         && (offset <= x < offset + thickness || width - offset - thickness <= x < width - offset)
         && 0 <= Pixel(y', x, width) < width * height) ==> Pixel(y', x, width) in covered
  {
    covered := done;
    var y := offset + thickness;
    while y < height - offset - thickness
      invariant offset + thickness <= y && (y <= height - offset - thickness || y == offset + thickness)
      invariant data[..] == Recolored(s0, color, covered) && done <= covered <= target
      invariant forall y', x ::
        (offset + thickness <= y' < y
         && (offset <= x < offset + thickness || width - offset - thickness <= x < width - offset)
         && 0 <= Pixel(y', x, width) < width * height) ==> Pixel(y', x, width) in covered
    {
      forall x | (offset <= x < offset + thickness || width - offset - thickness <= x < width - offset) && 0 <= Pixel(y, x, width) < width * height
        ensures Pixel(y, x, width) in target
      {
        if offset <= x < offset + thickness {
          assert Pixel(y, x, width) in Strip(width, height, thickness, offset, offset, offset + thickness);
        } else {
          assert Pixel(y, x, width) in Strip(width, height, thickness, offset, width - offset - thickness, width - offset);
        }
      }
      covered := PaintSpan(data, width, height, y, offset, offset + thickness, color, s0, target, covered);
      covered := PaintSpan(data, width, height, y, width - offset - thickness, width - offset, color, s0, target, covered);
      y := y + 1;
    }
  }

  method ApplyInnerBorderToImageData(data: array<int>, width: nat, height: nat, thickness: int, color: Rgb, offset: int)
    requires data.Length == width * height * 4
    modifies data
    ensures data[..] == Recolored(old(data[..]), color, InnerFramePixels(width, height, thickness, offset))
  {
    ghost var s0 := data[..];
    ghost var target := InnerFramePixels(width, height, thickness, offset);
    ghost var rows := PaintInnerRows(data, width, height, thickness, color, offset, s0, target);
    ghost var covered := PaintInnerStrips(data, width, height, thickness, color, offset, s0, target, rows);
    InnerCovered(width, height, thickness, offset, covered);
    assert covered == target;
  }

  /** Row and column of a pixel of the inner frame's ring. */
  predicate InRing(row: int, col: int, width: int, height: int, thickness: int, offset: int)
  {
    offset <= row < offset + thickness || height - offset - thickness <= row < height - offset
    || (offset + thickness <= row < height - offset - thickness
        && (offset <= col < offset + thickness || width - offset - thickness <= col < width - offset))
  }

  /** When the strips fit inside a row, the inner frame is the ring of pixels
      whose row or column lies offset .. offset + thickness - 1 pixels from an edge. */
  lemma InnerFrameRing(width: nat, height: nat, thickness: int, offset: int, q: int)
    requires 0 <= offset && 0 <= thickness && offset + thickness <= width
    ensures q in InnerFramePixels(width, height, thickness, offset)
      <==> 0 <= q < width * height && InRing(q / width, q % width, width, height, thickness, offset)
  {
    if q in Strip(width, height, thickness, offset, offset, offset + thickness) {
      var y, x :| offset + thickness <= y < height - offset - thickness && offset <= x < offset + thickness
        && 0 <= Pixel(y, x, width) < width * height && q == Pixel(y, x, width);
      FlatRow(y, x, width, height);
    }
    if q in Strip(width, height, thickness, offset, width - offset - thickness, width - offset) {
      var y, x :| offset + thickness <= y < height - offset - thickness && width - offset - thickness <= x < width - offset
        && 0 <= Pixel(y, x, width) < width * height && q == Pixel(y, x, width);
      FlatRow(y, x, width, height);
    }
    if 0 <= q < width * height && InRing(q / width, q % width, width, height, thickness, offset) {
      FlatIndex(q, width, height);
      var row, col := q / width, q % width;
      assert Pixel(row, col, width) == q;
      if offset + thickness <= row < height - offset - thickness {
        if offset <= col < offset + thickness {
          assert Pixel(row, col, width) in Strip(width, height, thickness, offset, offset, offset + thickness);
        } else if width - offset - thickness <= col < width - offset {
          assert Pixel(row, col, width) in Strip(width, height, thickness, offset, width - offset - thickness, width - offset);
        }
      }
    }
  }

  /** With offset 0 the inner frame is the outer frame. */
  lemma InnerFrameAtZeroOffset(width: nat, height: nat, thickness: int)
    requires 0 <= thickness <= width
    ensures InnerFramePixels(width, height, thickness, 0) == FramePixels(width, height, thickness)
  {
    forall q
      ensures q in InnerFramePixels(width, height, thickness, 0) <==> q in FramePixels(width, height, thickness)
    {
      InnerFrameRing(width, height, thickness, 0, q);
      if 0 <= q < width * height {
        FlatIndex(q, width, height);
      }
    }
  }

  /** applyBorder draws the second frame with offset = the first thickness.
      When both fit twice across the image, the two frames share exactly the
      pixels where the second frame's full-width rows cross the first frame's
      left and right strips: the second frame never touches the first frame's
      own rows, and its strips stay inside. */
  lemma SecondFrameMeetsFirst(width: nat, height: nat, first: int, second: int, q: int)
    requires 0 <= first && 0 <= second
    requires 2 * (first + second) <= width && 2 * (first + second) <= height
    ensures q in InnerFramePixels(width, height, second, first) && q in FramePixels(width, height, first)
      <==> (0 <= q < width * height
            && (first <= q / width < first + second || height - first - second <= q / width < height - first)
            && (q % width < first || q % width >= width - first))
  {
    InnerFrameRing(width, height, second, first, q);
    if 0 <= q < width * height {
      FlatIndex(q, width, height);
    }
  }
}
