/**
 The integer canvas routines of `misc.py`: the line rasteriser `fill_line`
 and the three random canvas generators, each of which allocates a zero
 canvas and stamps pre-drawn primitives onto it in place.

 A canvas is an `array2<int>` indexed [row, column]. Each method states the
 whole new content of the canvas: a stamp sets exactly the cells it covers
 and leaves every other cell unchanged; a generator's result holds, in every
 cell, `ValueAt` of the stamps its draws produce.
 */
module Misc {
  import opened Dda
  import opened Stamps

  /**
   fill_line: walks d + 1 steps from (x1, y1) towards (x2, y2), where
   d = max(|dx|, |dy|), writing `color` at the truncated running point and
   then advancing it by (dx / d, dy / d). Positions are exact reals.
   */
  method FillLine(canvas: array2<int>, x1: int, y1: int, x2: int, y2: int, color: int)
    requires 0 <= y1 < canvas.Length0 && 0 <= x1 < canvas.Length1
    requires 0 <= y2 < canvas.Length0 && 0 <= x2 < canvas.Length1
    modifies canvas
    ensures forall r, c :: 0 <= r < canvas.Length0 && 0 <= c < canvas.Length1 ==>
              canvas[r, c] == if Covers(Segment(x1, y1, x2, y2, color), r, c) then color else old(canvas[r, c])
  {
    var dx := x2 - x1;
    var dy := y2 - y1;
    var d := Steps(x1, y1, x2, y2);
    // With d == 0 the source's increments are 0/0 (NaN); they only feed the
    // update after the single write, so any value does here.
    var sx: real := if d == 0 then 0.0 else dx as real / d as real;
    var sy: real := if d == 0 then 0.0 else dy as real / d as real;
    ghost var path := Path(x1, y1, x2, y2);

    var x: real := x1 as real;
    var y: real := y1 as real;
    for i := 0 to d + 1
      invariant x == Position(x1, dx, d, i) && y == Position(y1, dy, d, i)
      invariant forall r, c :: 0 <= r < canvas.Length0 && 0 <= c < canvas.Length1 ==>
                  canvas[r, c] == if (r, c) in path[..i] then color else old(canvas[r, c])
    {
      WalkPixel(x1, y1, x2, y2, i);
      canvas[Trunc(y), Trunc(x)] := color;
      PositionStep(x1, dx, d, i);
      PositionStep(y1, dy, d, i);
      x := x + sx;
      y := y + sy;
      assert path[..i + 1] == path[..i] + [path[i]];
    }
    assert path[..d + 1] == path;
  }

  /**
   The slice assignment canvas[top:bottom, left:right] = color, for bounds
   that are all non-negative and within the canvas (an empty slice when a
   lower bound exceeds its upper bound).
   */
  method FillBlock(canvas: array2<int>, top: int, bottom: int, left: int, right: int, color: int)
    requires 0 <= top && 0 <= bottom <= canvas.Length0 && 0 <= left && 0 <= right <= canvas.Length1
    modifies canvas
    ensures forall r, c :: 0 <= r < canvas.Length0 && 0 <= c < canvas.Length1 ==>
              canvas[r, c] == if Covers(Block(top, bottom, left, right, color), r, c) then color else old(canvas[r, c])
  {
    var r := top;
    while r < bottom
      invariant top <= r <= Max(top, bottom)
      invariant forall i, j :: 0 <= i < canvas.Length0 && 0 <= j < canvas.Length1 ==>
                  canvas[i, j] == if top <= i < r && left <= j < right then color else old(canvas[i, j])
    {
      var c := left;
      while c < right
        invariant left <= c <= Max(left, right)
        invariant forall i, j :: 0 <= i < canvas.Length0 && 0 <= j < canvas.Length1 ==>
                    canvas[i, j] == if (top <= i < r && left <= j < right) || (i == r && left <= j < c)
                                    then color else old(canvas[i, j])
      {
        canvas[r, c] := color;
        c := c + 1;
      }
      r := r + 1;
    }
  }

  /**
   The mask assignment canvas[mask] = color of a disk: over the full mesh of
   cell coordinates, every cell whose distance from (cx, cy) is at most
   `radius` (compared as squared distances) takes `color`.
   */
  method FillDisk(canvas: array2<int>, cx: int, cy: int, radius: int, color: int)
    modifies canvas
    ensures forall r, c :: 0 <= r < canvas.Length0 && 0 <= c < canvas.Length1 ==>
              canvas[r, c] == if Covers(Disk(cx, cy, radius, color), r, c) then color else old(canvas[r, c])
  {
    for r := 0 to canvas.Length0
      invariant forall i, j :: 0 <= i < canvas.Length0 && 0 <= j < canvas.Length1 ==>
                  canvas[i, j] == if i < r && Covers(Disk(cx, cy, radius, color), i, j) then color else old(canvas[i, j])
    {
      for c := 0 to canvas.Length1
        invariant forall i, j :: 0 <= i < canvas.Length0 && 0 <= j < canvas.Length1 ==>
                    canvas[i, j] == if (i < r || (i == r && j < c)) && Covers(Disk(cx, cy, radius, color), i, j)
                                    then color else old(canvas[i, j])
      {
        if (c - cx) * (c - cx) + (r - cy) * (r - cy) <= radius * radius {
          canvas[r, c] := color;
        }
      }
    }
  }

  /**
   random_shapes_array: on a zero canvas of the requested shape, each draw
   stamps a clipped rectangle or a disk of radius size//2. The result holds
   in every cell the colour of the last shape covering it, or 0.
   */
  method RandomShapesArray(rows: nat, cols: nat, draws: seq<ShapeDraw>) returns (canvas: array2<int>)
    requires ShapesDrawable(draws, rows, cols)
    ensures fresh(canvas) && canvas.Length0 == rows && canvas.Length1 == cols
    ensures forall r, c :: 0 <= r < rows && 0 <= c < cols ==>
              canvas[r, c] == ValueAt(ShapeStamps(draws, rows, cols), r, c)
  {
    canvas := new int[rows, cols]((_, _) => 0);
    ghost var stamps := ShapeStamps(draws, rows, cols);
    for i := 0 to |draws|
      invariant forall r, c :: 0 <= r < rows && 0 <= c < cols ==>
                  canvas[r, c] == ValueAt(stamps[..i], r, c)
    {
      var s := draws[i];
      var half := s.size / 2;
      assert stamps[..i + 1][..i] == stamps[..i];
      match s.kind
      case Rectangle =>
        var xMin, xMax := Max(0, s.centerX - half), Min(cols, s.centerX + half);
        var yMin, yMax := Max(0, s.centerY - half), Min(rows, s.centerY + half);
        FillBlock(canvas, yMin, yMax, xMin, xMax, s.color);
      case Circle =>
        FillDisk(canvas, s.centerX, s.centerY, half, s.color);
    }
    assert stamps[..|draws|] == stamps;
  }

  /**
   random_camouflage_array: on a zero canvas of the requested shape, each
   draw fills the slice between its bounds, clipped to [0, shape - 1], with
   colors[colorIndex]. The result holds in every cell the colour of the last
   patch covering it, or 0.
   */
  method RandomCamouflageArray(rows: nat, cols: nat, draws: seq<PatchDraw>, colors: seq<int>)
    returns (canvas: array2<int>)
    requires PatchesDrawable(draws, colors, rows, cols)
    ensures fresh(canvas) && canvas.Length0 == rows && canvas.Length1 == cols
    ensures forall r, c :: 0 <= r < rows && 0 <= c < cols ==>
              canvas[r, c] == ValueAt(PatchStamps(draws, colors, rows, cols), r, c)
  {
    canvas := new int[rows, cols]((_, _) => 0);
    ghost var stamps := PatchStamps(draws, colors, rows, cols);
    for i := 0 to |draws|
      invariant forall r, c :: 0 <= r < rows && 0 <= c < cols ==>
                  canvas[r, c] == ValueAt(stamps[..i], r, c)
    {
      var p := draws[i];
      var color := colors[p.colorIndex];
      var x1 := p.centerX - p.size / 2;
      var y1 := p.centerY - p.size / 2;
      var x2 := p.centerX + p.size / 2;
      var y2 := p.centerY + p.size / 2;
      x1 := Clip(x1, 0, cols - 1);
      y1 := Clip(y1, 0, rows - 1);
      x2 := Clip(x2, 0, cols - 1);
      y2 := Clip(y2, 0, rows - 1);
      FillBlock(canvas, y1, y2, x1, x2, color);
      assert stamps[..i + 1][..i] == stamps[..i];
    }
    assert stamps[..|draws|] == stamps;
  }

  /**
   The edge loop of random_polygons_array: fill_line from each vertex to
   the next, wrapping around from the last vertex to the first. On a canvas
   that holds the result of stamping `before`, it leaves the result of
   stamping `before` followed by the outline.
   */
  method FillOutline(canvas: array2<int>, x: seq<int>, y: seq<int>, color: int, ghost before: seq<Stamp>)
    requires |x| == |y|
    requires forall j :: 0 <= j < |x| ==> 0 <= y[j] < canvas.Length0 && 0 <= x[j] < canvas.Length1
    requires forall r, c :: 0 <= r < canvas.Length0 && 0 <= c < canvas.Length1 ==>
               canvas[r, c] == ValueAt(before, r, c)
    modifies canvas
    ensures forall r, c :: 0 <= r < canvas.Length0 && 0 <= c < canvas.Length1 ==>
              canvas[r, c] == ValueAt(before + Outline(x, y, color), r, c)
  {
    var n := |x|;
    ghost var edges := Outline(x, y, color);
    assert before + edges[..0] == before;
    for j := 0 to n
      invariant forall r, c :: 0 <= r < canvas.Length0 && 0 <= c < canvas.Length1 ==>
                  canvas[r, c] == ValueAt(before + edges[..j], r, c)
    {
      var k := (j + 1) % n;
      assert edges[j] == Segment(x[j], y[j], x[k], y[k], color);
      FillLine(canvas, x[j], y[j], x[k], y[k], color);
      assert before + edges[..j + 1] == (before + edges[..j]) + [edges[j]];
      forall r, c | 0 <= r < canvas.Length0 && 0 <= c < canvas.Length1
        ensures canvas[r, c] == ValueAt(before + edges[..j + 1], r, c)
      {
        ValueAtSnoc(before + edges[..j], edges[j], r, c);
      }
    }
    assert edges[..n] == edges;
  }

  /**
   random_polygons_array: on a zero canvas of the requested shape, each
   polygon's vertex arrays are clipped to the canvas and its n edges
   (vertex j to vertex (j + 1) % n) are drawn with fill_line in its colour.
   The result holds in every cell the colour of the last edge covering it,
   or 0.
   */
  method RandomPolygonsArray(rows: nat, cols: nat, draws: seq<PolygonDraw>) returns (canvas: array2<int>)
    requires PolygonsDrawable(draws, rows, cols)
    ensures fresh(canvas) && canvas.Length0 == rows && canvas.Length1 == cols
    ensures forall r, c :: 0 <= r < rows && 0 <= c < cols ==>
              canvas[r, c] == ValueAt(PolygonStamps(draws, rows, cols), r, c)
  {
    canvas := new int[rows, cols]((_, _) => 0);
    for i := 0 to |draws|
      invariant forall r, c :: 0 <= r < rows && 0 <= c < cols ==>
                  canvas[r, c] == ValueAt(PolygonStamps(draws[..i], rows, cols), r, c)
    {
      var p := draws[i];
      var x := ClipAll(p.xs, 0, cols - 1);
      var y := ClipAll(p.ys, 0, rows - 1);
      FillOutline(canvas, x, y, p.color, PolygonStamps(draws[..i], rows, cols));
      PolygonStampsSnoc(draws, i, rows, cols);
    }
    assert draws[..|draws|] == draws;
  }
}
