/** createBayerMatrix of dithering.js: the recursive Bayer index matrix of
    side 2^n, built from the 2 x 2 base [[0, 2], [3, 1]] by replacing every
    entry v of the half-size matrix with the four quadrant values 4v + 0
    (top left), 4v + 2 (top right), 4v + 3 (bottom left), 4v + 1 (bottom right). */
module Bayer {

  function Pow2(n: nat): (p: nat)
    ensures p >= 1
  {
    if n == 0 then 1 else 2 * Pow2(n - 1)
  }

  /** Being a power of two, by halving; PowerOfTwoTest shows it is what the
      test `size & (size - 1)` of createBayerMatrix decides for positive sizes. */
  predicate IsPowerOfTwo(n: int)
    decreases if n > 0 then n else 0
  {
    n == 1 || (n >= 2 && n % 2 == 0 && IsPowerOfTwo(n / 2))
  }

  /** Math.floor(Math.log2(n)) for n >= 1. */
  function Log2Floor(n: int): nat
    requires n >= 1
  {
    if n == 1 then 0 else 1 + Log2Floor(n / 2)
  }

  lemma {:induction false} Log2FloorBounds(n: int)
    requires n >= 1
    ensures Pow2(Log2Floor(n)) <= n < 2 * Pow2(Log2Floor(n))
  {
    if n > 1 {
      Log2FloorBounds(n / 2);
    }
  }

  lemma {:induction false} Log2OfPow2(k: nat)
    ensures Log2Floor(Pow2(k)) == k
  {
    if k > 0 {
      Log2OfPow2(k - 1);
      assert Pow2(k) / 2 == Pow2(k - 1);
    }
  }

  /** A positive number is a power of two exactly when it equals 2^floor(log2 n). */
  lemma {:induction false} PowerOfTwoIff(n: int)
    requires n >= 1
    ensures IsPowerOfTwo(n) <==> n == Pow2(Log2Floor(n))
  {
    if n > 1 {
      PowerOfTwoIff(n / 2);
      Log2FloorBounds(n);
    }
  }

  lemma {:induction false} Pow2IsPowerOfTwo(k: nat)
    ensures IsPowerOfTwo(Pow2(k))
  {
    if k > 0 {
      Pow2IsPowerOfTwo(k - 1);
      assert Pow2(k) / 2 == Pow2(k - 1);
    }
  }

  /** The bitwise `&` of two non-negative numbers, from the lowest bit up; on
      operands below 2^31 it is JavaScript's `&`. */
  function BitAnd(a: nat, b: nat): (r: nat)
    ensures r <= a && r <= b
    decreases a
  {
    if a == 0 || b == 0 then 0
    else 2 * BitAnd(a / 2, b / 2) + (if a % 2 == 1 && b % 2 == 1 then 1 else 0)
  }

  lemma {:induction false} BitAndSelf(m: nat)
    ensures BitAnd(m, m) == m
    decreases m
  {
    if m > 0 {
      BitAndSelf(m / 2);
    }
  }

  /** `n & (n - 1)` is zero exactly for the powers of two. */
  lemma {:induction false} PowerOfTwoTest(n: int)
    requires n >= 1
    ensures BitAnd(n, n - 1) == 0 <==> IsPowerOfTwo(n)
    decreases n
  {
    if n >= 2 {
      if n % 2 == 0 {
        assert (n - 1) / 2 == n / 2 - 1;
        assert BitAnd(n, n - 1) == 2 * BitAnd(n / 2, n / 2 - 1);
        PowerOfTwoTest(n / 2);
      } else {
        assert (n - 1) / 2 == n / 2;
        BitAndSelf(n / 2);
        assert BitAnd(n, n - 1) == 2 * (n / 2);
      }
    }
  }

  /** The side createBayerMatrix actually builds: sizes that are not a power
      of two are lowered to the next power of two below them. */
  function NormalizedSize(size: int): (r: int)
    requires size >= 1
    ensures IsPowerOfTwo(r) && r <= size && size < 2 * r
    ensures IsPowerOfTwo(size) ==> r == size
  {
    Log2FloorBounds(size);
    Pow2IsPowerOfTwo(Log2Floor(size));
    PowerOfTwoIff(size);
    PowerOfTwoTest(size);
    if BitAnd(size, size - 1) != 0 then Pow2(Log2Floor(size)) else size
  }

  /** Offset of a quadrant in the recursive construction. */
  function Offset(lower: bool, right: bool): int
  {
    if !lower then (if !right then 0 else 2) else (if !right then 3 else 1)
  }

  /** Position inside the quadrant. */
  function Fold(v: nat, h: nat): nat
  {
    if v < h then v else v - h
  }

  /** Entry (y, x) of the Bayer matrix of side 2^n. */
  function BayerValue(n: nat, y: nat, x: nat): int
    requires y < Pow2(n) && x < Pow2(n)
  {
    if n == 0 then 0
    else
      var h := Pow2(n - 1);
      4 * BayerValue(n - 1, Fold(y, h), Fold(x, h)) + Offset(y >= h, x >= h)
  }

  /** The 2 x 2 case is the base matrix [[0, 2], [3, 1]]. */
  lemma BayerBase()
    ensures BayerValue(1, 0, 0) == 0 && BayerValue(1, 0, 1) == 2
    ensures BayerValue(1, 1, 0) == 3 && BayerValue(1, 1, 1) == 1
  {
  }

  function Cells(n: nat): (c: nat)
    ensures c >= 1
  {
    Pow2(n) * Pow2(n)
  }

  /** Every entry lies in [0, N * N). */
  lemma {:induction false} BayerRange(n: nat, y: nat, x: nat)
    requires y < Pow2(n) && x < Pow2(n)
    ensures 0 <= BayerValue(n, y, x) < Cells(n)
  {
    if n > 0 {
      var h := Pow2(n - 1);
      BayerRange(n - 1, Fold(y, h), Fold(x, h));
      assert Cells(n) == 4 * Cells(n - 1);
    }
  }

  /** No two positions share an entry. */
  lemma {:induction false} BayerInjective(n: nat, y1: nat, x1: nat, y2: nat, x2: nat)
    requires y1 < Pow2(n) && x1 < Pow2(n) && y2 < Pow2(n) && x2 < Pow2(n)
    requires BayerValue(n, y1, x1) == BayerValue(n, y2, x2)
    ensures y1 == y2 && x1 == x2
  {
    if n > 0 {
      var h := Pow2(n - 1);
      var a, b := BayerValue(n - 1, Fold(y1, h), Fold(x1, h)), BayerValue(n - 1, Fold(y2, h), Fold(x2, h));
      var o1, o2 := Offset(y1 >= h, x1 >= h), Offset(y2 >= h, x2 >= h);
      assert 4 * a + o1 == 4 * b + o2;
      assert a == b && o1 == o2;
      BayerInjective(n - 1, Fold(y1, h), Fold(x1, h), Fold(y2, h), Fold(x2, h));
    }
  }

  /** The position holding entry v, computed digit by digit in base 4. */
  function BayerPosition(n: nat, v: int): (p: (nat, nat))
    requires 0 <= v < Cells(n)
    ensures p.0 < Pow2(n) && p.1 < Pow2(n)
    ensures BayerValue(n, p.0, p.1) == v
  {
    if n == 0 then (0, 0)
    else
      assert Cells(n) == 4 * Cells(n - 1);
      var h := Pow2(n - 1);
      var inner := BayerPosition(n - 1, v / 4);
      var q := v % 4;
      var dy := if q == 3 || q == 1 then h else 0;
      var dx := if q == 2 || q == 1 then h else 0;
      (inner.0 + dy, inner.1 + dx)
  }

  /** Entry (a, b) of the half-size matrix comes before entry (y, x) in the quadrant loop. */
  predicate Before(a: nat, b: nat, y: nat, x: nat)
  {
    a < y || (a == y && b < x)
  }

  /** createBayerMatrix: a fresh matrix of side NormalizedSize(size) holding
      the Bayer entries. Sizes below 2 are excluded: 1 recurses without end. */
  method CreateBayerMatrix(size: int) returns (m: array2<int>)
    requires size >= 2
    ensures fresh(m)
    ensures m.Length0 == NormalizedSize(size) && m.Length1 == NormalizedSize(size)
    ensures NormalizedSize(size) == Pow2(Log2Floor(size))
    ensures forall i, j :: 0 <= i < m.Length0 && 0 <= j < m.Length1 ==> m[i, j] == BayerValue(Log2Floor(size), i, j)
    decreases size
  {
    var s := size;
    if BitAnd(s, s - 1) != 0 {
      s := Pow2(Log2Floor(s));
    }
    ghost var n := Log2Floor(size);
    PowerOfTwoTest(size);
    PowerOfTwoIff(size);
    Log2FloorBounds(size);
    assert s == Pow2(n) && s == NormalizedSize(size);
    if s == 2 {
      m := new int[2, 2];
      m[0, 0], m[0, 1], m[1, 0], m[1, 1] := 0, 2, 3, 1;
      assert n == 1 by {
        Log2OfPow2(1);
      }
      BayerBase();
      return;
    }
    assert n >= 2;
    var half := s / 2;
    assert half == Pow2(n - 1);
    Log2OfPow2(n - 1);
    var smaller := CreateBayerMatrix(half);
    m := FillFromHalf(smaller, n);
  }

  /** The quadrant loop of createBayerMatrix. */
  method FillFromHalf(smaller: array2<int>, ghost n: nat) returns (m: array2<int>)
    requires n >= 2 && smaller.Length0 == Pow2(n - 1) && smaller.Length1 == Pow2(n - 1)
    requires forall i, j :: 0 <= i < smaller.Length0 && 0 <= j < smaller.Length1 ==> smaller[i, j] == BayerValue(n - 1, i, j)
    ensures fresh(m)
    ensures m.Length0 == Pow2(n) && m.Length1 == Pow2(n)
    ensures forall i, j :: 0 <= i < m.Length0 && 0 <= j < m.Length1 ==> m[i, j] == BayerValue(n, i, j)
  {
    var half := smaller.Length0;
    var size := 2 * half;
    m := new int[size, size]((i, j) => 0);
    var y := 0;
    while y < half
      invariant 0 <= y <= half
      invariant forall a, b :: 0 <= a < size && 0 <= b < size && Fold(a, half) < y ==> m[a, b] == BayerValue(n, a, b)
    {
      var x := 0;
      while x < half
        invariant 0 <= x <= half
        invariant forall a, b :: 0 <= a < size && 0 <= b < size && Before(Fold(a, half), Fold(b, half), y, x) ==> m[a, b] == BayerValue(n, a, b)
      {
        SetQuadrants(m, n, half, y, x, smaller[y, x]);
        x := x + 1;
      }
      y := y + 1;
    }
  }

  /** One step of the quadrant loop: the four cells fed by entry (y, x). */
  method SetQuadrants(m: array2<int>, ghost n: nat, half: nat, y: nat, x: nat, value: int)
    requires n >= 2 && half == Pow2(n - 1) && m.Length0 == 2 * half && m.Length1 == 2 * half && y < half && x < half
    requires value == BayerValue(n - 1, y, x)
    modifies m
    ensures forall a, b :: 0 <= a < m.Length0 && 0 <= b < m.Length1 ==>
      m[a, b] == if Fold(a, half) == y && Fold(b, half) == x then BayerValue(n, a, b) else old(m[a, b])
  {
    m[y, x] := 4 * value + 0;
    m[y, x + half] := 4 * value + 2;
    m[y + half, x] := 4 * value + 3;
    m[y + half, x + half] := 4 * value + 1;
  }
}
