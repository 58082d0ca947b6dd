/** The borders of border.js for images with transparency. Only fully
    transparent pixels (alpha 0) seed them, and only pixels that are not
    fully transparent are recoloured:
    applyBorderAroundTransparentAreas paints every such pixel within
    Chebyshev distance `thickness` of a seed; applyInnerBorderAroundTransparentAreas
    paints every such pixel whose Manhattan distance to the nearest seed d
    satisfies offset < d <= offset + thickness. Both first collect the
    pixels (a Set, or a Map of distances, both iterated in insertion order)
    and then paint them. */
module Silhouette {
  import opened Pixels
  import opened Border
  import opened Frame

  /** Pixel p exists and is fully transparent. */
  predicate IsClear(s: seq<int>, p: int)
  {
    0 <= p && 4 * p + 3 < |s| && s[4 * p + 3] == 0
  }

  /** Pixel p exists and is not fully transparent. */
  predicate IsVisible(s: seq<int>, p: int)
  {
    0 <= p && 4 * p + 3 < |s| && s[4 * p + 3] != 0
  }

  function Max(a: int, b: int): int
  {
    if a < b then b else a
  }

  function Min(a: int, b: int): int
  {
    if a < b then a else b
  }

  /** Chessboard distance between the pixels at flat indices p and q. */
  function Chebyshev(p: int, q: int, width: nat): int
  {
    if width == 0 then 0 else Max(AbsInt(p / width - q / width), AbsInt(p % width - q % width))
  }

  /** Taxicab distance between the pixels at flat indices p and q. */
  function Manhattan(p: int, q: int, width: nat): int
  {
    if width == 0 then 0 else AbsInt(p / width - q / width) + AbsInt(p % width - q % width)
  }

  lemma ChebyshevAtMostManhattan(p: int, q: int, width: nat)
    ensures Chebyshev(p, q, width) <= Manhattan(p, q, width)
  {
  }

  /** Transparent pixel p lies within Chebyshev distance `reach` of the visible pixel q. */
  predicate Seeds(s: seq<int>, width: nat, reach: int, p: int, q: int)
  {
    IsClear(s, p) && IsVisible(s, q) && Chebyshev(p, q, width) <= reach
  }

  // ---------------------------------------------------------------------
  // applyBorderAroundTransparentAreas
  // ---------------------------------------------------------------------

  /** The pixels applyBorderAroundTransparentAreas recolours: visible pixels
      within Chebyshev distance `thickness` of a fully transparent one. */
  function SilhouettePixels(s: seq<int>, width: nat, thickness: int): set<int>
  {
    set q | 0 <= q < |s| / 4 && IsVisible(s, q) && exists p :: 0 <= p < |s| / 4 && IsClear(s, p) && Chebyshev(p, q, width) <= thickness
  }

  /** Every collected pixel has a recorded seed. */
  predicate Sound(s: seq<int>, width: nat, reach: int, border: seq<int>, seed: map<int, int>)
  {
    forall q :: q in border ==> q in seed && Seeds(s, width, reach, seed[q], q)
  }

  /** Every cell of the square window around (y, x) is within Chebyshev distance `reach`. */
  lemma InWindow(y: int, x: int, ty: int, tx: int, width: nat, height: nat, reach: int)
    requires 0 <= y < height && 0 <= x < width && 0 <= ty < height && 0 <= tx < width
    requires y - reach <= ty <= y + reach && x - reach <= tx <= x + reach
    ensures Chebyshev(Pixel(y, x, width), Pixel(ty, tx, width), width) <= reach
  {
    RowMajor(y, x, width, height);
    RowMajor(ty, tx, width, height);
  }

  /** A pixel within Chebyshev distance `reach` of (y, x) lies in its clipped window. */
  lemma WindowCell(y: int, x: int, q: int, width: nat, height: nat, reach: int)
    requires 0 <= y < height && 0 <= x < width && 0 <= q < width * height
    requires Chebyshev(Pixel(y, x, width), q, width) <= reach
    ensures Max(0, y - reach) <= q / width <= Min(height - 1, y + reach)
    ensures Max(0, x - reach) <= q % width <= Min(width - 1, x + reach)
    ensures Pixel(q / width, q % width, width) == q
  {
    RowMajor(y, x, width, height);
    FlatIndex(q, width, height);
  }

  /** The innermost loop: mark the visible pixels of one window row. */
  method MarkRow(data: array<int>, width: nat, height: nat, reach: int, y: int, x: int, ty: int, startX: int, endX: int,
                 border: seq<int>, ghost seed: map<int, int>) returns (marked: seq<int>, ghost seed': map<int, int>)
    requires data.Length == width * height * 4
    requires 0 <= y < height && 0 <= x < width && IsClear(data[..], Pixel(y, x, width))
    requires 0 <= ty < height && y - reach <= ty <= y + reach
    requires 0 <= startX && x - reach <= startX && endX < width && endX <= x + reach
    requires Sound(data[..], width, reach, border, seed)
    ensures Sound(data[..], width, reach, marked, seed')
    ensures forall q :: q in border ==> q in marked
    ensures forall tx :: startX <= tx <= endX && IsVisible(data[..], Pixel(ty, tx, width)) ==> Pixel(ty, tx, width) in marked
  {
    InImage(y, x, width, height);
    marked, seed' := border, seed;
    var tx := startX;
    while tx <= endX
      invariant startX <= tx && (tx <= endX + 1 || tx == startX)
      invariant Sound(data[..], width, reach, marked, seed')
      invariant forall q :: q in border ==> q in marked
      invariant forall tx' :: startX <= tx' < tx && IsVisible(data[..], Pixel(ty, tx', width)) ==> Pixel(ty, tx', width) in marked
    {
      InImage(ty, tx, width, height);
      var targetIdx := (ty * width + tx) * 4;
      if data[targetIdx + 3] != 0 {
        var pixelPos := ty * width + tx;
        if pixelPos !in marked {
          InWindow(y, x, ty, tx, width, height, reach);
          marked := marked + [pixelPos];
          seed' := seed'[pixelPos := Pixel(y, x, width)];
        }
      }
      tx := tx + 1;
    }
  }

  /** The window loops for one transparent pixel (y, x). */
  method MarkWindow(data: array<int>, width: nat, height: nat, reach: int, y: int, x: int,
                    border: seq<int>, ghost seed: map<int, int>) returns (marked: seq<int>, ghost seed': map<int, int>)
    requires data.Length == width * height * 4
    requires 0 <= y < height && 0 <= x < width && IsClear(data[..], Pixel(y, x, width))
    requires Sound(data[..], width, reach, border, seed)
    ensures Sound(data[..], width, reach, marked, seed')
    ensures forall q :: q in border ==> q in marked
    ensures forall q :: Seeds(data[..], width, reach, Pixel(y, x, width), q) ==> q in marked
  {
    var startY := Max(0, y - reach);
    var endY := Min(height - 1, y + reach);
    var startX := Max(0, x - reach);
    var endX := Min(width - 1, x + reach);
    marked, seed' := border, seed;
    var ty := startY;
    while ty <= endY
      invariant startY <= ty && (ty <= endY + 1 || ty == startY)
      invariant Sound(data[..], width, reach, marked, seed')
      invariant forall q :: q in border ==> q in marked
      invariant forall row, col :: startY <= row < ty && startX <= col <= endX && IsVisible(data[..], Pixel(row, col, width)) ==>
        Pixel(row, col, width) in marked
    {
      ghost var before := marked;
      marked, seed' := MarkRow(data, width, height, reach, y, x, ty, startX, endX, marked, seed');
      forall row, col | startY <= row < ty + 1 && startX <= col <= endX && IsVisible(data[..], Pixel(row, col, width))
        ensures Pixel(row, col, width) in marked
      {
        if row < ty {
          assert Pixel(row, col, width) in before;
        } else {
          assert row == ty;
        }
      }
      ty := ty + 1;
    }
    WindowCovered(data[..], width, height, reach, y, x, ty, marked);
  }

  /** Once every visible pixel of the clipped window around (y, x) is marked,
      every pixel (y, x) seeds is marked. */
  lemma WindowCovered(s: seq<int>, width: nat, height: nat, reach: int, y: int, x: int, ty: int, marked: seq<int>)
    requires |s| == width * height * 4 && 0 <= y < height && 0 <= x < width
    requires ty > Min(height - 1, y + reach)
    requires forall row, col ::
      Max(0, y - reach) <= row < ty && Max(0, x - reach) <= col <= Min(width - 1, x + reach) && IsVisible(s, Pixel(row, col, width)) ==>
      Pixel(row, col, width) in marked
    ensures forall q :: Seeds(s, width, reach, Pixel(y, x, width), q) ==> q in marked
  {
    forall q | Seeds(s, width, reach, Pixel(y, x, width), q)
      ensures q in marked
    {
      WindowCell(y, x, q, width, height, reach);
    }
  }

  /** One row of the first pass: every transparent pixel of row y marks its window. */
  method CollectRow(data: array<int>, width: nat, height: nat, reach: int, y: int,
                    border: seq<int>, ghost seed: map<int, int>) returns (marked: seq<int>, ghost seed': map<int, int>)
    requires data.Length == width * height * 4 && 0 <= y < height
    requires Sound(data[..], width, reach, border, seed)
    ensures Sound(data[..], width, reach, marked, seed')
    ensures forall q :: q in border ==> q in marked
    ensures forall x, q :: 0 <= x < width && Seeds(data[..], width, reach, Pixel(y, x, width), q) ==> q in marked
  {
    marked, seed' := border, seed;
    var x := 0;
    while x < width
      invariant 0 <= x <= width
      invariant Sound(data[..], width, reach, marked, seed')
      invariant forall q :: q in border ==> q in marked
      invariant forall x', q :: 0 <= x' < x && Seeds(data[..], width, reach, Pixel(y, x', width), q) ==> q in marked
    {
      InImage(y, x, width, height);
      var idx := (y * width + x) * 4;
      if data[idx + 3] == 0 {
        ghost var before := marked;
        marked, seed' := MarkWindow(data, width, height, reach, y, x, marked, seed');
        forall x', q | 0 <= x' < x + 1 && Seeds(data[..], width, reach, Pixel(y, x', width), q)
          ensures q in marked
        {
          if x' < x {
            assert q in before;
          }
        }
      }
      x := x + 1;
    }
  }

  /** The first pass: for every transparent pixel, mark the visible pixels of its window. */
  method CollectBorder(data: array<int>, width: nat, height: nat, reach: int) returns (border: seq<int>)
    requires data.Length == width * height * 4
    ensures forall i :: 0 <= i < |border| ==> 0 <= border[i] < width * height
    ensures Members(border) == SilhouettePixels(data[..], width, reach)
  {
    border := [];
    ghost var seed: map<int, int> := map[];
    var y := 0;
    while y < height
      invariant 0 <= y <= height
      invariant Sound(data[..], width, reach, border, seed)
      invariant forall p, q :: 0 <= p < y * width && Seeds(data[..], width, reach, p, q) ==> q in border
    {
      ghost var before := border;
      border, seed := CollectRow(data, width, height, reach, y, border, seed);
      forall p, q | 0 <= p < (y + 1) * width && Seeds(data[..], width, reach, p, q)
        ensures q in border
      {
        if p < y * width {
          assert q in before;
        } else {
          assert Pixel(y, p - y * width, width) == p;
        }
      }
      y := y + 1;
    }
    assert height * width == width * height;
    forall i | 0 <= i < |border|
      ensures 0 <= border[i] < width * height
    {
      assert border[i] in border;
    }
    forall q | q in SilhouettePixels(data[..], width, reach)
      ensures q in border
    {
      var p :| 0 <= p < data.Length / 4 && IsClear(data[..], p) && Chebyshev(p, q, width) <= reach;
      assert Seeds(data[..], width, reach, p, q);
    }
  }

  method ApplyBorderAroundTransparentAreas(data: array<int>, width: nat, height: nat, thickness: int, color: Rgb)
    requires data.Length == width * height * 4
    modifies data
    ensures data[..] == Recolored(old(data[..]), color, SilhouettePixels(old(data[..]), width, thickness))
  {
    PixelCount(width * height);
    var borderPixels := CollectBorder(data, width, height, thickness);
    PaintAll(data, borderPixels, color);
  }

  // ---------------------------------------------------------------------
  // applyInnerBorderAroundTransparentAreas
  // ---------------------------------------------------------------------

  /** The pixels applyInnerBorderAroundTransparentAreas recolours: visible
      pixels whose taxicab distance to the nearest fully transparent pixel
      is greater than `offset` and at most `offset + thickness`. */
  function InnerSilhouettePixels(s: seq<int>, width: nat, thickness: int, offset: int): set<int>
  {
    set q | 0 <= q < |s| / 4 && IsVisible(s, q)
      && (exists p :: 0 <= p < |s| / 4 && IsClear(s, p) && Manhattan(p, q, width) <= offset + thickness)
      && (forall p :: 0 <= p < |s| / 4 && IsClear(s, p) ==> Manhattan(p, q, width) > offset)
  }

  /** The distance map holds exactly the keys of its insertion-ordered key
      list, and every stored distance is the taxicab distance to a recorded
      transparent pixel of the search window. */
  ghost predicate Measured(s: seq<int>, width: nat, reach: int, keys: seq<int>, dist: map<int, int>, near: map<int, int>)
  {
    (forall q :: q in keys <==> q in dist)
    && forall q :: q in dist ==> q in near && Seeds(s, width, reach, near[q], q) && dist[q] == Manhattan(near[q], q, width)
  }

  /** A later map only adds keys and lowers distances. */
  predicate Lowered(dist: map<int, int>, dist': map<int, int>)
  {
    forall q :: q in dist ==> q in dist' && dist'[q] <= dist[q]
  }

  /** The taxicab distance the window loops compute is the one between the flat indices. */
  lemma WindowDistance(y: int, x: int, ty: int, tx: int, width: nat, height: nat)
    requires 0 <= y < height && 0 <= x < width && 0 <= ty < height && 0 <= tx < width
    ensures Manhattan(Pixel(y, x, width), Pixel(ty, tx, width), width) == AbsInt(tx - x) + AbsInt(ty - y)
  {
    RowMajor(y, x, width, height);
    RowMajor(ty, tx, width, height);
  }

  /** The body of the innermost loop: record the distance from (y, x) to (ty, tx) if it is visible and smaller. */
  method MeasureCell(data: array<int>, width: nat, height: nat, reach: int, y: int, x: int, ty: int, tx: int,
                     keys: seq<int>, dist: map<int, int>, ghost near: map<int, int>)
    returns (keys': seq<int>, dist': map<int, int>, ghost near': map<int, int>)
    requires data.Length == width * height * 4
    requires 0 <= y < height && 0 <= x < width && IsClear(data[..], Pixel(y, x, width))
    requires 0 <= ty < height && y - reach <= ty <= y + reach
    requires 0 <= tx < width && x - reach <= tx <= x + reach
    requires Measured(data[..], width, reach, keys, dist, near)
    ensures Measured(data[..], width, reach, keys', dist', near')
    ensures Lowered(dist, dist')
    ensures IsVisible(data[..], Pixel(ty, tx, width)) ==>
      Pixel(ty, tx, width) in dist' && dist'[Pixel(ty, tx, width)] <= Manhattan(Pixel(y, x, width), Pixel(ty, tx, width), width)
  {
    InImage(y, x, width, height);
    InImage(ty, tx, width, height);
    keys', dist', near' := keys, dist, near;
    var targetIdx := (ty * width + tx) * 4;
    var pixelPos := ty * width + tx;
    if data[targetIdx + 3] != 0 {
      var distance := AbsInt(tx - x) + AbsInt(ty - y);
      WindowDistance(y, x, ty, tx, width, height);
      if pixelPos !in dist' || distance < dist'[pixelPos] {
        InWindow(y, x, ty, tx, width, height, reach);
        if pixelPos !in dist' {
          keys' := keys' + [pixelPos];
        }
        dist' := dist'[pixelPos := distance];
        near' := near'[pixelPos := Pixel(y, x, width)];
      }
    }
  }

  /** The innermost loop: record the distance from (y, x) to each visible pixel of one window row. */
  method MeasureRow(data: array<int>, width: nat, height: nat, reach: int, y: int, x: int, ty: int, startX: int, endX: int,
                    keys: seq<int>, dist: map<int, int>, ghost near: map<int, int>)
    returns (keys': seq<int>, dist': map<int, int>, ghost near': map<int, int>)
    requires data.Length == width * height * 4
    requires 0 <= y < height && 0 <= x < width && IsClear(data[..], Pixel(y, x, width))
    requires 0 <= ty < height && y - reach <= ty <= y + reach
    requires 0 <= startX && x - reach <= startX && endX < width && endX <= x + reach
    requires Measured(data[..], width, reach, keys, dist, near)
    ensures Measured(data[..], width, reach, keys', dist', near')
    ensures Lowered(dist, dist')
    ensures forall tx :: startX <= tx <= endX && IsVisible(data[..], Pixel(ty, tx, width)) ==>
      Pixel(ty, tx, width) in dist' && dist'[Pixel(ty, tx, width)] <= Manhattan(Pixel(y, x, width), Pixel(ty, tx, width), width)
  {
    keys', dist', near' := keys, dist, near;
    var tx := startX;
    while tx <= endX
      invariant startX <= tx && (tx <= endX + 1 || tx == startX)
      invariant Measured(data[..], width, reach, keys', dist', near')
      invariant Lowered(dist, dist')
      invariant forall tx' :: startX <= tx' < tx && IsVisible(data[..], Pixel(ty, tx', width)) ==>
        Pixel(ty, tx', width) in dist' && dist'[Pixel(ty, tx', width)] <= Manhattan(Pixel(y, x, width), Pixel(ty, tx', width), width)
    {
      keys', dist', near' := MeasureCell(data, width, height, reach, y, x, ty, tx, keys', dist', near');
      tx := tx + 1;
    }
  }

  /** The window loops for one transparent pixel (y, x). */
  method MeasureWindow(data: array<int>, width: nat, height: nat, reach: int, y: int, x: int,
                       keys: seq<int>, dist: map<int, int>, ghost near: map<int, int>)
    returns (keys': seq<int>, dist': map<int, int>, ghost near': map<int, int>)
    requires data.Length == width * height * 4
    requires 0 <= y < height && 0 <= x < width && IsClear(data[..], Pixel(y, x, width))
    requires Measured(data[..], width, reach, keys, dist, near)
    ensures Measured(data[..], width, reach, keys', dist', near')
    ensures Lowered(dist, dist')
    ensures forall q :: Seeds(data[..], width, reach, Pixel(y, x, width), q) ==>
      q in dist' && dist'[q] <= Manhattan(Pixel(y, x, width), q, width)
  {
    var startY := Max(0, y - reach);
    var endY := Min(height - 1, y + reach);
    var startX := Max(0, x - reach);
    var endX := Min(width - 1, x + reach);
    keys', dist', near' := keys, dist, near;
    var ty := startY;
    while ty <= endY
      invariant startY <= ty && (ty <= endY + 1 || ty == startY)
      invariant Measured(data[..], width, reach, keys', dist', near')
      invariant Lowered(dist, dist')
      invariant forall row, col :: startY <= row < ty && startX <= col <= endX && IsVisible(data[..], Pixel(row, col, width)) ==>
        Pixel(row, col, width) in dist' && dist'[Pixel(row, col, width)] <= Manhattan(Pixel(y, x, width), Pixel(row, col, width), width)
    {
      ghost var before := dist';
      keys', dist', near' := MeasureRow(data, width, height, reach, y, x, ty, startX, endX, keys', dist', near');
      forall row, col | startY <= row < ty + 1 && startX <= col <= endX && IsVisible(data[..], Pixel(row, col, width))
        ensures Pixel(row, col, width) in dist' && dist'[Pixel(row, col, width)] <= Manhattan(Pixel(y, x, width), Pixel(row, col, width), width)
      {
        if row < ty {
          assert Pixel(row, col, width) in before;
        } else {
          assert row == ty;
        }
      }
      ty := ty + 1;
    }
    forall q | Seeds(data[..], width, reach, Pixel(y, x, width), q)
      ensures q in dist' && dist'[q] <= Manhattan(Pixel(y, x, width), q, width)
    {
      WindowCell(y, x, q, width, height, reach);
    }
  }

  /** One row of the first pass of the inner silhouette. */
  method MeasureImageRow(data: array<int>, width: nat, height: nat, reach: int, y: int,
                         keys: seq<int>, dist: map<int, int>, ghost near: map<int, int>)
    returns (keys': seq<int>, dist': map<int, int>, ghost near': map<int, int>)
    requires data.Length == width * height * 4 && 0 <= y < height
    requires Measured(data[..], width, reach, keys, dist, near)
    ensures Measured(data[..], width, reach, keys', dist', near')
    ensures Lowered(dist, dist')
    ensures forall x, q :: 0 <= x < width && Seeds(data[..], width, reach, Pixel(y, x, width), q) ==>
      q in dist' && dist'[q] <= Manhattan(Pixel(y, x, width), q, width)
  {
    keys', dist', near' := keys, dist, near;
    var x := 0;
    while x < width
      invariant 0 <= x <= width
      invariant Measured(data[..], width, reach, keys', dist', near')
      invariant Lowered(dist, dist')
      invariant forall x', q :: 0 <= x' < x && Seeds(data[..], width, reach, Pixel(y, x', width), q) ==>
        q in dist' && dist'[q] <= Manhattan(Pixel(y, x', width), q, width)
    {
      InImage(y, x, width, height);
      var idx := (y * width + x) * 4;
      if data[idx + 3] == 0 {
        ghost var before := dist';
        keys', dist', near' := MeasureWindow(data, width, height, reach, y, x, keys', dist', near');
        forall x', q | 0 <= x' < x + 1 && Seeds(data[..], width, reach, Pixel(y, x', width), q)
          ensures q in dist' && dist'[q] <= Manhattan(Pixel(y, x', width), q, width)
        {
          if x' < x {
            assert q in before;
          }
        }
      }
      x := x + 1;
    }
  }

  /** The first pass: the smallest taxicab distance from each visible pixel to
      a transparent pixel whose search window (of Chebyshev radius `reach`) it lies in. */
  method MeasureImage(data: array<int>, width: nat, height: nat, reach: int) returns (keys: seq<int>, dist: map<int, int>)
    requires data.Length == width * height * 4
    ensures forall q :: q in keys <==> q in dist
    ensures forall q :: q in dist ==> exists p :: Seeds(data[..], width, reach, p, q) && dist[q] == Manhattan(p, q, width)
    ensures forall p, q :: Seeds(data[..], width, reach, p, q) ==> q in dist && dist[q] <= Manhattan(p, q, width)
  {
    keys, dist := [], map[];
    ghost var near: map<int, int> := map[];
    var y := 0;
    while y < height
      invariant 0 <= y <= height
      invariant Measured(data[..], width, reach, keys, dist, near)
      invariant forall p, q :: 0 <= p < y * width && Seeds(data[..], width, reach, p, q) ==> q in dist && dist[q] <= Manhattan(p, q, width)
    {
      ghost var before := dist;
      keys, dist, near := MeasureImageRow(data, width, height, reach, y, keys, dist, near);
      forall p, q | 0 <= p < (y + 1) * width && Seeds(data[..], width, reach, p, q)
        ensures q in dist && dist[q] <= Manhattan(p, q, width)
      {
        if p < y * width {
          assert q in before;
        } else {
          assert Pixel(y, p - y * width, width) == p;
        }
      }
      y := y + 1;
    }
    forall q | q in dist
      ensures exists p :: Seeds(data[..], width, reach, p, q) && dist[q] == Manhattan(p, q, width)
    {
      assert Seeds(data[..], width, reach, near[q], q);
    }
    assert height * width == width * height;
  }

  /** The second pass: the entries whose distance lies in (offset, offset + thickness], in key order. */
  method SelectRing(keys: seq<int>, dist: map<int, int>, thickness: int, offset: int) returns (border: seq<int>)
    requires forall q :: q in keys ==> q in dist
    ensures forall q :: q in border <==> q in keys && offset < dist[q] <= offset + thickness
  {
    border := [];
    for i := 0 to |keys|
      invariant forall q :: q in border <==> q in keys[..i] && offset < dist[q] <= offset + thickness
    {
      var pixelPos := keys[i];
      var distance := dist[pixelPos];
      if distance > offset && distance <= offset + thickness {
        if pixelPos !in border {
          border := border + [pixelPos];
        }
      }
      assert keys[..i + 1] == keys[..i] + [pixelPos];
    }
    assert keys[..|keys|] == keys;
  }

  /** The pixels the three passes select are exactly the inner silhouette. */
  lemma {:induction false} RingIsInnerSilhouette(s: seq<int>, width: nat, thickness: int, offset: int, dist: map<int, int>)
    requires forall q :: q in dist ==> exists p :: Seeds(s, width, offset + thickness, p, q) && dist[q] == Manhattan(p, q, width)
    requires forall p, q :: Seeds(s, width, offset + thickness, p, q) ==> q in dist && dist[q] <= Manhattan(p, q, width)
    ensures forall q :: q in dist && offset < dist[q] <= offset + thickness <==> q in InnerSilhouettePixels(s, width, thickness, offset)
  {
    var reach := offset + thickness;
    forall q
      ensures q in dist && offset < dist[q] <= reach <==> q in InnerSilhouettePixels(s, width, thickness, offset)
    {
      if q in dist && offset < dist[q] <= reach {
        var w :| Seeds(s, width, reach, w, q) && dist[q] == Manhattan(w, q, width);
        forall p | 0 <= p < |s| / 4 && IsClear(s, p)
          ensures Manhattan(p, q, width) > offset
        {
          ChebyshevAtMostManhattan(p, q, width);
          if Chebyshev(p, q, width) <= reach {
            assert Seeds(s, width, reach, p, q);
          }
        }
        assert 0 <= w < |s| / 4;
      }
      if q in InnerSilhouettePixels(s, width, thickness, offset) {
        var p :| 0 <= p < |s| / 4 && IsClear(s, p) && Manhattan(p, q, width) <= reach;
        ChebyshevAtMostManhattan(p, q, width);
        assert Seeds(s, width, reach, p, q);
        var w :| Seeds(s, width, reach, w, q) && dist[q] == Manhattan(w, q, width);
        assert 0 <= w < |s| / 4;
      }
    }
  }

  method ApplyInnerBorderAroundTransparentAreas(data: array<int>, width: nat, height: nat, thickness: int, color: Rgb, offset: int)
    requires data.Length == width * height * 4
    modifies data
    ensures data[..] == Recolored(old(data[..]), color, InnerSilhouettePixels(old(data[..]), width, thickness, offset))
  {
    PixelCount(width * height);
    var maxDistance := offset + thickness;
    var transparentNeighbors, distances := MeasureImage(data, width, height, maxDistance);
    var borderPixels := SelectRing(transparentNeighbors, distances, thickness, offset);
    RingIsInnerSilhouette(data[..], width, thickness, offset, distances);
    forall i | 0 <= i < |borderPixels|
      ensures 0 <= borderPixels[i] < data.Length / 4
    {
      assert borderPixels[i] in borderPixels;
      var w :| Seeds(data[..], width, maxDistance, w, borderPixels[i]) && distances[borderPixels[i]] == Manhattan(w, borderPixels[i], width);
    }
    assert Members(borderPixels) == InnerSilhouettePixels(data[..], width, thickness, offset);
    PaintAll(data, borderPixels, color);
  }

  // ---------------------------------------------------------------------
  // Properties of the two silhouettes
  // ---------------------------------------------------------------------

  /** Both silhouettes read alpha bytes only, so painting R, G and B in
      between (as applyBorder does before its second border) changes neither. */
  lemma SilhouettesReadAlphaOnly(s: seq<int>, s': seq<int>, width: nat, thickness: int, offset: int)
    requires AlphaUnchanged(s, s')
    ensures SilhouettePixels(s', width, thickness) == SilhouettePixels(s, width, thickness)
    ensures InnerSilhouettePixels(s', width, thickness, offset) == InnerSilhouettePixels(s, width, thickness, offset)
  {
    assert forall p :: IsClear(s', p) == IsClear(s, p) && IsVisible(s', p) == IsVisible(s, p);
  }

  /** An image without a fully transparent pixel has empty silhouettes. */
  lemma NoClearPixelNoSilhouette(s: seq<int>, width: nat, thickness: int, offset: int)
    requires forall p :: 0 <= p < |s| / 4 ==> !IsClear(s, p)
    ensures SilhouettePixels(s, width, thickness) == {}
    ensures InnerSilhouettePixels(s, width, thickness, offset) == {}
  {
  }

  /** The taxicab ring lies inside the square silhouette of the same outer reach. */
  lemma InnerSilhouetteWithinSilhouette(s: seq<int>, width: nat, thickness: int, offset: int)
    ensures InnerSilhouettePixels(s, width, thickness, offset) <= SilhouettePixels(s, width, offset + thickness)
  {
    forall q | q in InnerSilhouettePixels(s, width, thickness, offset)
      ensures q in SilhouettePixels(s, width, offset + thickness)
    {
      var p :| 0 <= p < |s| / 4 && IsClear(s, p) && Manhattan(p, q, width) <= offset + thickness;
      ChebyshevAtMostManhattan(p, q, width);
    }
  }

  /** Rings at consecutive offsets do not share a pixel. */
  lemma RingsDisjoint(s: seq<int>, width: nat, first: int, second: int, offset: int)
    ensures InnerSilhouettePixels(s, width, first, offset) * InnerSilhouettePixels(s, width, second, offset + first) == {}
  {
    forall q | q in InnerSilhouettePixels(s, width, first, offset)
      ensures q !in InnerSilhouettePixels(s, width, second, offset + first)
    {
      var p :| 0 <= p < |s| / 4 && IsClear(s, p) && Manhattan(p, q, width) <= offset + first;
    }
  }
}
