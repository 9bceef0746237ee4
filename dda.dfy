/**
 Geometry of the digital differential analyser behind `fill_line`.

 The walk from (x1, y1) to (x2, y2) takes d = max(|x2 - x1|, |y2 - y1|) steps
 and writes the pixel under the running point on each of its d + 1 positions.
 The running point is kept exactly (as a `real`); `Coord` gives the pixel
 coordinate it truncates to as an integer formula, and the lemmas below
 relate the two and state where the walk goes.
 */
module Dda {

  function Abs(n: int): nat { if n < 0 then -n else n }

  function Min(a: int, b: int): int { if a < b then a else b }

  function Max(a: int, b: int): int { if a < b then b else a }

  /** The step count d = max(|x2 - x1|, |y2 - y1|). */
  function Steps(x1: int, y1: int, x2: int, y2: int): nat
  {
    if Abs(x2 - x1) < Abs(y2 - y1) then Abs(y2 - y1) else Abs(x2 - x1)
  }

  /** Python's `int` applied to a float: rounds toward zero. */
  function Trunc(v: real): int
  {
    if v >= 0.0 then v.Floor else -((-v).Floor)
  }

  /**
   The exact value of a running coordinate that starts at `a` and has been
   incremented `i` times by delta / d. A walk with d == 0 never moves.
   */
  function Position(a: int, delta: int, d: nat, i: nat): real
  {
    if d == 0 then a as real else a as real + (i as real) * (delta as real / d as real)
  }

  /** The pixel coordinate written on step i, in integers: a + floor(i * delta / d). */
  function Coord(a: int, delta: int, d: nat, i: int): int
  {
    if d == 0 then a else a + (i * delta) / d
  }

  /** The (row, column) pixel written on step i of the walk. */
  function Pixel(x1: int, y1: int, x2: int, y2: int, i: int): (int, int)
  {
    var d := Steps(x1, y1, x2, y2);
    (Coord(y1, y2 - y1, d, i), Coord(x1, x2 - x1, d, i))
  }

  /** The d + 1 pixels (row, column) the walk writes, in the order it writes them. */
  function Path(x1: int, y1: int, x2: int, y2: int): seq<(int, int)>
  {
    seq(Steps(x1, y1, x2, y2) + 1, i => Pixel(x1, y1, x2, y2, i))
  }

  // ---------------------------------------------------------------------------
  // Integer division helpers

  /** Bounds a quotient by bounding its dividend. */
  lemma DivBounds(n: int, d: int, lo: int, hi: int)
    requires d > 0
    requires lo * d <= n < (hi + 1) * d
    ensures lo <= n / d <= hi
  {
    var q := n / d;
    assert q * d <= n < (q + 1) * d;
    MulCancel(lo, q + 1, d);
    MulCancel(q, hi + 1, d);
  }

  lemma MulLeft(i: int, j: int, k: int)
    requires i <= j && k >= 0
    ensures i * k <= j * k
  {
    assert j * k - i * k == (j - i) * k;
  }

  lemma MulCancel(i: int, j: int, k: int)
    requires k > 0 && i * k < j * k
    ensures i < j
  {
    if j <= i {
      MulLeft(j, i, k);
    }
  }

  // ---------------------------------------------------------------------------
  // Real arithmetic helpers

  /** Splitting an exact quotient into its integer and fractional parts. */
  lemma RealQuotient(n: int, d: int)
    requires d > 0
    ensures n as real / d as real == (n / d) as real + (n % d) as real / d as real
    ensures 0.0 <= (n % d) as real / d as real < 1.0
  {
    var q, m := n / d, n % d;
    assert n == q * d + m;
    assert (n as real) == (q as real) * (d as real) + m as real;
  }

  lemma FloorOfSum(k: int, f: real)
    requires 0.0 <= f < 1.0
    ensures (k as real + f).Floor == k
  {
  }

  // ---------------------------------------------------------------------------
  // Properties of one coordinate of the walk

  /** Every intermediate coordinate lies between the two endpoints. */
  lemma CoordBetween(a: int, delta: int, d: nat, i: int)
    requires Abs(delta) <= d && 0 <= i <= d
    ensures Min(a, a + delta) <= Coord(a, delta, d, i) <= Max(a, a + delta)
  {
    if d > 0 {
      if delta >= 0 {
        MulLeft(0, i, delta);
        MulLeft(i, d, delta);
        DivBounds(i * delta, d, 0, delta);
      } else {
        assert i * delta <= 0 by { MulLeft(0, i, -delta); }
        assert d * delta <= i * delta by { MulLeft(i, d, -delta); }
        DivBounds(i * delta, d, delta, 0);
      }
    }
  }

  /** The walk starts at a and, in exact arithmetic, ends at a + delta. */
  lemma CoordEnds(a: int, delta: int, d: nat)
    requires Abs(delta) <= d
    ensures Coord(a, delta, d, 0) == a
    ensures Coord(a, delta, d, d) == a + delta
  {
    if d > 0 {
      DivBounds(d * delta, d, delta, delta);
    }
  }

  /** From one step to the next a coordinate moves by at most one pixel. */
  lemma CoordStep(a: int, delta: int, d: nat, i: int)
    requires Abs(delta) <= d
    ensures Abs(Coord(a, delta, d, i + 1) - Coord(a, delta, d, i)) <= 1
  {
    if d > 0 {
      var n := i * delta;
      var q := n / d;
      assert q * d <= n < (q + 1) * d;
      assert (i + 1) * delta == n + delta;
      if delta >= 0 {
        DivBounds(n + delta, d, q, q + 1);
      } else {
        DivBounds(n + delta, d, q - 1, q);
      }
    }
  }

  /** Along the axis of greatest extent the coordinate moves by exactly one pixel per step. */
  lemma CoordMajor(a: int, delta: int, d: nat, i: int)
    requires Abs(delta) == d > 0
    ensures Coord(a, delta, d, i) == if delta > 0 then a + i else a - i
  {
    if delta > 0 {
      DivBounds(i * delta, d, i, i);
    } else {
      DivBounds(i * delta, d, -i, -i);
    }
  }

  /**
   Truncating the exact running coordinate gives `Coord`, provided the two
   endpoints are non-negative (which the callers' clipping guarantees).
   */
  lemma TruncPosition(a: int, delta: int, d: nat, i: nat)
    requires Abs(delta) <= d && i <= d
    requires a >= 0 && a + delta >= 0
    ensures Trunc(Position(a, delta, d, i)) == Coord(a, delta, d, i)
  {
    if d > 0 {
      var n := i * delta;
      assert (i as real) * (delta as real / d as real) == n as real / d as real;
      RealQuotient(n, d);
      var frac := (n % d) as real / d as real;
      assert Position(a, delta, d, i) == (a + n / d) as real + frac;
      FloorOfSum(a + n / d, frac);
      CoordBetween(a, delta, d, i);
    }
  }

  /** One increment of the running coordinate adds delta / d to it. */
  lemma PositionStep(a: int, delta: int, d: nat, i: nat)
    ensures Position(a, delta, d, i + 1)
         == Position(a, delta, d, i) + (if d == 0 then 0.0 else delta as real / d as real)
  {
  }

  // ---------------------------------------------------------------------------
  // Properties of the whole walk

  /** The first pixel written is (y1, x1) and, in exact arithmetic, the last is (y2, x2). */
  lemma PathEnds(x1: int, y1: int, x2: int, y2: int)
    ensures Path(x1, y1, x2, y2)[0] == (y1, x1)
    ensures Path(x1, y1, x2, y2)[Steps(x1, y1, x2, y2)] == (y2, x2)
  {
    var d := Steps(x1, y1, x2, y2);
    CoordEnds(y1, y2 - y1, d);
    CoordEnds(x1, x2 - x1, d);
  }

  /**
   With non-negative endpoints, the pixel written on step i, the truncation
   of the exact running point, is `Path(..)[i]`, and it lies in the bounding
   box of the endpoints.
   */
  lemma WalkPixel(x1: int, y1: int, x2: int, y2: int, i: nat)
    requires x1 >= 0 && y1 >= 0 && x2 >= 0 && y2 >= 0
    requires i <= Steps(x1, y1, x2, y2)
    ensures var d := Steps(x1, y1, x2, y2);
            (Trunc(Position(y1, y2 - y1, d, i)), Trunc(Position(x1, x2 - x1, d, i))) == Path(x1, y1, x2, y2)[i]
    ensures Min(y1, y2) <= Path(x1, y1, x2, y2)[i].0 <= Max(y1, y2)
    ensures Min(x1, x2) <= Path(x1, y1, x2, y2)[i].1 <= Max(x1, x2)
  {
    var d := Steps(x1, y1, x2, y2);
    TruncPosition(y1, y2 - y1, d, i);
    TruncPosition(x1, x2 - x1, d, i);
    PathInBox(x1, y1, x2, y2, i);
  }

  /** Every pixel of the walk lies in the bounding box of its endpoints. */
  lemma PathInBox(x1: int, y1: int, x2: int, y2: int, i: int)
    requires 0 <= i < |Path(x1, y1, x2, y2)|
    ensures Min(y1, y2) <= Path(x1, y1, x2, y2)[i].0 <= Max(y1, y2)
    ensures Min(x1, x2) <= Path(x1, y1, x2, y2)[i].1 <= Max(x1, x2)
  {
    var d := Steps(x1, y1, x2, y2);
    CoordBetween(y1, y2 - y1, d, i);
    CoordBetween(x1, x2 - x1, d, i);
  }

  /** Consecutive pixels of the walk are 8-neighbours (or equal on the minor axis). */
  lemma PathConnected(x1: int, y1: int, x2: int, y2: int, i: int)
    requires 0 <= i && i + 1 < |Path(x1, y1, x2, y2)|
    ensures Abs(Path(x1, y1, x2, y2)[i + 1].0 - Path(x1, y1, x2, y2)[i].0) <= 1
    ensures Abs(Path(x1, y1, x2, y2)[i + 1].1 - Path(x1, y1, x2, y2)[i].1) <= 1
  {
    var d := Steps(x1, y1, x2, y2);
    CoordStep(y1, y2 - y1, d, i);
    CoordStep(x1, x2 - x1, d, i);
  }

  /** The d + 1 pixels of the walk are pairwise distinct. */
  lemma PathDistinct(x1: int, y1: int, x2: int, y2: int, i: int, j: int)
    requires 0 <= i < j < |Path(x1, y1, x2, y2)|
    ensures Path(x1, y1, x2, y2)[i] != Path(x1, y1, x2, y2)[j]
  {
    var d := Steps(x1, y1, x2, y2);
    if Abs(x2 - x1) == d {
      CoordMajor(x1, x2 - x1, d, i);
      CoordMajor(x1, x2 - x1, d, j);
    } else {
      CoordMajor(y1, y2 - y1, d, i);
      CoordMajor(y1, y2 - y1, d, j);
    }
  }

  /**
   A horizontal segment covers exactly the pixels of its row between its two
   endpoints, both included, and no others.
   */
  lemma HorizontalPath(x1: int, x2: int, y: int, r: int, c: int)
    ensures (r, c) in Path(x1, y, x2, y) <==> r == y && Min(x1, x2) <= c <= Max(x1, x2)
  {
    var p := Path(x1, y, x2, y);
    var d := Steps(x1, y, x2, y);
    if (r, c) in p {
      var i :| 0 <= i < |p| && p[i] == (r, c);
      PathInBox(x1, y, x2, y, i);
    }
    if r == y && Min(x1, x2) <= c <= Max(x1, x2) {
      var i := Abs(c - x1);
      assert p[i].0 == y;
      if d > 0 {
        CoordMajor(x1, x2 - x1, d, i);
      }
      assert p[i] == (r, c);
    }
  }
}
