/**
 The primitives the random canvas generators of `misc.py` stamp onto a
 zero-initialised integer canvas, and what the canvas holds after a sequence
 of them: each cell takes the colour of the last primitive that covers it.

 Every random draw of the generators (centre, size, colour, shape kind,
 polygon vertices) is an input here: a `ShapeDraw`, `PatchDraw` or
 `PolygonDraw` record. The functions below turn such records into stamps,
 with the same clipping the generators apply.
 */
module Stamps {
  import opened Dda

  /** One primitive written onto the canvas with a single colour. */
  datatype Stamp =
    | Block(top: int, bottom: int, left: int, right: int, color: int)
      // the slice assignment canvas[top:bottom, left:right] = color
    | Disk(cx: int, cy: int, radius: int, color: int)
      // the mask assignment canvas[distance <= radius] = color
    | Segment(x1: int, y1: int, x2: int, y2: int, color: int)
      // fill_line(canvas, x1, y1, x2, y2, color)

  /** Whether stamp `s` writes cell (r, c). */
  predicate Covers(s: Stamp, r: int, c: int)
  {
    match s
    case Block(top, bottom, left, right, _) => top <= r < bottom && left <= c < right
    case Disk(cx, cy, radius, _) => (c - cx) * (c - cx) + (r - cy) * (r - cy) <= radius * radius
    case Segment(x1, y1, x2, y2, _) => (r, c) in Path(x1, y1, x2, y2)
  }

  /** The value of cell (r, c) after stamping `stamps`, in order, onto a zero canvas. */
  function ValueAt(stamps: seq<Stamp>, r: int, c: int): int
  {
    if stamps == [] then 0
    else
      var last := stamps[|stamps| - 1];
      if Covers(last, r, c) then last.color else ValueAt(stamps[..|stamps| - 1], r, c)
  }

  /** Stamping one more primitive overwrites exactly the cells it covers. */
  lemma ValueAtSnoc(stamps: seq<Stamp>, s: Stamp, r: int, c: int)
    ensures ValueAt(stamps + [s], r, c) == if Covers(s, r, c) then s.color else ValueAt(stamps, r, c)
  {
    assert (stamps + [s])[..|stamps|] == stamps;
  }

  /** The index of the last stamp that covers (r, c), or -1 when none does. */
  function LastCover(stamps: seq<Stamp>, r: int, c: int): (k: int)
    ensures -1 <= k < |stamps|
    ensures k >= 0 ==> Covers(stamps[k], r, c)
    ensures forall j :: k < j < |stamps| ==> !Covers(stamps[j], r, c)
  {
    if stamps == [] then -1
    else if Covers(stamps[|stamps| - 1], r, c) then |stamps| - 1
    else LastCover(stamps[..|stamps| - 1], r, c)
  }

  /** Last write wins: a cell holds the colour of the last stamp covering it, or 0. */
  lemma {:induction false} LastWriteWins(stamps: seq<Stamp>, r: int, c: int)
    ensures ValueAt(stamps, r, c)
         == (var k := LastCover(stamps, r, c); if k < 0 then 0 else stamps[k].color)
  {
    if stamps != [] && !Covers(stamps[|stamps| - 1], r, c) {
      var init := stamps[..|stamps| - 1];
      LastWriteWins(init, r, c);
      var k := LastCover(init, r, c);
      assert k >= 0 ==> init[k] == stamps[k];
    }
  }

  /** A cell no stamp covers keeps the canvas's initial 0. */
  lemma UncoveredIsZero(stamps: seq<Stamp>, r: int, c: int)
    requires forall j :: 0 <= j < |stamps| ==> !Covers(stamps[j], r, c)
    ensures ValueAt(stamps, r, c) == 0
  {
    LastWriteWins(stamps, r, c);
  }

  /**
   When every stamp of a final run shares one colour and one of them covers
   (r, c), that cell ends with that colour, whatever was stamped before.
   */
  lemma UniformTail(earlier: seq<Stamp>, tail: seq<Stamp>, color: int, j: int, r: int, c: int)
    requires forall k :: 0 <= k < |tail| ==> tail[k].color == color
    requires 0 <= j < |tail| && Covers(tail[j], r, c)
    ensures ValueAt(earlier + tail, r, c) == color
  {
    var all := earlier + tail;
    LastWriteWins(all, r, c);
    assert all[|earlier| + j] == tail[j];
    var k := LastCover(all, r, c);
    assert k >= |earlier| + j;
    assert all[k] == tail[k - |earlier|];
  }

  // ---------------------------------------------------------------------------
  // Clipping

  /** numpy.clip of one value: min(max(v, lo), hi). */
  function Clip(v: int, lo: int, hi: int): (r: int)
    ensures lo <= hi ==> lo <= r <= hi
    ensures lo <= v <= hi ==> r == v
  {
    Min(Max(v, lo), hi)
  }

  /** numpy.clip of a vertex array. */
  function ClipAll(vs: seq<int>, lo: int, hi: int): (r: seq<int>)
    ensures |r| == |vs|
    ensures lo <= hi ==> forall k :: 0 <= k < |r| ==> lo <= r[k] <= hi
  {
    seq(|vs|, k requires 0 <= k < |vs| => Clip(vs[k], lo, hi))
  }

  // ---------------------------------------------------------------------------
  // random_shapes_array

  datatype ShapeKind = Rectangle | Circle

  /** The draws of one iteration of random_shapes_array. */
  datatype ShapeDraw = ShapeDraw(centerX: int, centerY: int, size: nat, color: int, kind: ShapeKind)

  /** The ranges np.random.randint gives the centre draws: [0, cols) and [0, rows). */
  predicate ShapesDrawable(draws: seq<ShapeDraw>, rows: nat, cols: nat)
  {
    forall i :: 0 <= i < |draws| ==> 0 <= draws[i].centerX < cols && 0 <= draws[i].centerY < rows
  }

  /**
   The rectangle of a shape draw: the box [cx - size//2, cx + size//2) x
   [cy - size//2, cy + size//2), its lower bounds raised to 0 and its upper
   bounds lowered to the canvas shape. It covers exactly the cells of that
   box that lie on the canvas.
   */
  function RectangleStamp(d: ShapeDraw, rows: nat, cols: nat): (s: Stamp)
    ensures s.Block? && s.color == d.color
    ensures 0 <= s.top && s.bottom <= rows && 0 <= s.left && s.right <= cols
    ensures 0 <= d.centerX < cols && 0 <= d.centerY < rows ==>
              s.top <= s.bottom && s.left <= s.right
    ensures forall r, c :: Covers(s, r, c) <==>
              0 <= r < rows && 0 <= c < cols &&
              d.centerY - d.size / 2 <= r < d.centerY + d.size / 2 &&
              d.centerX - d.size / 2 <= c < d.centerX + d.size / 2
  {
    var half := d.size / 2;
    Block(Max(0, d.centerY - half), Min(rows, d.centerY + half),
          Max(0, d.centerX - half), Min(cols, d.centerX + half), d.color)
  }

  /** The disk of a shape draw: centre (cx, cy), radius size//2. */
  function DiskStamp(d: ShapeDraw): Stamp
  {
    Disk(d.centerX, d.centerY, d.size / 2, d.color)
  }

  function ShapeStamp(d: ShapeDraw, rows: nat, cols: nat): Stamp
  {
    match d.kind
    case Rectangle => RectangleStamp(d, rows, cols)
    case Circle => DiskStamp(d)
  }

  function ShapeStamps(draws: seq<ShapeDraw>, rows: nat, cols: nat): seq<Stamp>
  {
    seq(|draws|, i requires 0 <= i < |draws| => ShapeStamp(draws[i], rows, cols))
  }

  /**
   A disk of non-negative radius contains its centre and lies inside the
   closed square of side 2 * radius + 1 around it.
   */
  lemma DiskInSquare(cx: int, cy: int, radius: nat, color: int, r: int, c: int)
    ensures Covers(Disk(cx, cy, radius, color), cy, cx)
    ensures Covers(Disk(cx, cy, radius, color), r, c) ==>
              Abs(c - cx) <= radius && Abs(r - cy) <= radius
  {
    MulLeft(0, radius, radius);
    if Covers(Disk(cx, cy, radius, color), r, c) {
      SquareBelow(c - cx, r - cy, radius);
      SquareBelow(r - cy, c - cx, radius);
    }
  }

  lemma SquareBelow(u: int, v: int, k: nat)
    requires u * u + v * v <= k * k
    ensures Abs(u) <= k
  {
    if Abs(u) > k {
      assert u * u == Abs(u) * Abs(u);
      assert v * v >= 0 by { MulLeft(0, Abs(v), Abs(v)); }
      SquareGrows(k, Abs(u));
      assert false;
    }
  }

  lemma SquareGrows(k: nat, a: int)
    requires k < a
    ensures k * k < a * a
  {
    MulLeft(k, a, k);
    assert (a - k) * a > 0 by { MulLeft(1, a - k, a); }
  }

  // ---------------------------------------------------------------------------
  // random_camouflage_array

  /** The draws of one iteration of random_camouflage_array; the colour is colors[colorIndex]. */
  datatype PatchDraw = PatchDraw(centerX: int, centerY: int, size: nat, colorIndex: nat)

  /** The default palette {0, 128, 255}. */
  const DefaultColors: seq<int> := [0, 128, 255]

  /**
   The patch of a camouflage draw: the box bounds cx -/+ size//2 and
   cy -/+ size//2, each clipped to [0, shape - 1], used as an exclusive
   slice. It covers exactly the cells of [cx - size//2, cx + size//2) x
   [cy - size//2, cy + size//2) that lie on the canvas minus its last row
   and last column.
   */
  function PatchStamp(d: PatchDraw, colors: seq<int>, rows: nat, cols: nat): (s: Stamp)
    requires rows > 0 && cols > 0 && d.colorIndex < |colors|
    ensures s.Block? && s.color == colors[d.colorIndex]
    ensures 0 <= s.top <= s.bottom <= rows - 1 && 0 <= s.left <= s.right <= cols - 1
    ensures forall r, c :: Covers(s, r, c) <==>
              0 <= r < rows - 1 && 0 <= c < cols - 1 &&
              d.centerY - d.size / 2 <= r < d.centerY + d.size / 2 &&
              d.centerX - d.size / 2 <= c < d.centerX + d.size / 2
  {
    var half := d.size / 2;
    Block(Clip(d.centerY - half, 0, rows - 1), Clip(d.centerY + half, 0, rows - 1),
          Clip(d.centerX - half, 0, cols - 1), Clip(d.centerX + half, 0, cols - 1),
          colors[d.colorIndex])
  }

  predicate PatchesDrawable(draws: seq<PatchDraw>, colors: seq<int>, rows: nat, cols: nat)
  {
    (|draws| > 0 ==> rows > 0 && cols > 0) &&
    forall i :: 0 <= i < |draws| ==> draws[i].colorIndex < |colors|
  }

  function PatchStamps(draws: seq<PatchDraw>, colors: seq<int>, rows: nat, cols: nat): seq<Stamp>
    requires PatchesDrawable(draws, colors, rows, cols)
  {
    seq(|draws|, i requires 0 <= i < |draws| => PatchStamp(draws[i], colors, rows, cols))
  }

  /** The last row and the last column of a camouflage canvas are never written and stay 0. */
  lemma CamouflageBorderBlank(draws: seq<PatchDraw>, colors: seq<int>, rows: nat, cols: nat, r: int, c: int)
    requires PatchesDrawable(draws, colors, rows, cols)
    requires r == rows - 1 || c == cols - 1
    ensures ValueAt(PatchStamps(draws, colors, rows, cols), r, c) == 0
  {
    var stamps := PatchStamps(draws, colors, rows, cols);
    forall j | 0 <= j < |stamps| ensures !Covers(stamps[j], r, c) {
      var s := PatchStamp(draws[j], colors, rows, cols);
      assert stamps[j] == s;
    }
    UncoveredIsZero(stamps, r, c);
  }

  /**
   Every cell of a camouflage canvas holds 0 or a colour of the palette; with
   the default palette, which contains 0, always a palette colour.
   */
  lemma CamouflageColors(draws: seq<PatchDraw>, colors: seq<int>, rows: nat, cols: nat, r: int, c: int)
    requires PatchesDrawable(draws, colors, rows, cols)
    ensures var v := ValueAt(PatchStamps(draws, colors, rows, cols), r, c);
            v == 0 || v in colors
    ensures colors == DefaultColors ==> ValueAt(PatchStamps(draws, colors, rows, cols), r, c) in colors
  {
    var stamps := PatchStamps(draws, colors, rows, cols);
    LastWriteWins(stamps, r, c);
    var k := LastCover(stamps, r, c);
    if k >= 0 {
      assert stamps[k].color == colors[draws[k].colorIndex];
    }
  }

  // ---------------------------------------------------------------------------
  // random_polygons_array

  /**
   The draws of one iteration of random_polygons_array: the rounded vertex
   coordinates (before clipping) and the colour.
   */
  datatype PolygonDraw = PolygonDraw(xs: seq<int>, ys: seq<int>, color: int)

  predicate PolygonsDrawable(draws: seq<PolygonDraw>, rows: nat, cols: nat)
  {
    (|draws| > 0 ==> rows > 0 && cols > 0) &&
    forall i :: 0 <= i < |draws| ==> |draws[i].xs| == |draws[i].ys|
  }

  /**
   The n edges of a closed outline through the vertices (x[j], y[j]): vertex
   j joined to vertex (j + 1) % n.
   */
  function Outline(x: seq<int>, y: seq<int>, color: int): seq<Stamp>
    requires |x| == |y|
  {
    var n := |x|;
    seq(n, j requires 0 <= j < n => Segment(x[j], y[j], x[(j + 1) % n], y[(j + 1) % n], color))
  }

  /** The edges of a polygon: its outline after both vertex arrays are clipped to the canvas. */
  function Edges(p: PolygonDraw, rows: nat, cols: nat): seq<Stamp>
    requires |p.xs| == |p.ys|
  {
    Outline(ClipAll(p.xs, 0, cols - 1), ClipAll(p.ys, 0, rows - 1), p.color)
  }

  /** The edges of all polygons, polygon after polygon. */
  function PolygonStamps(draws: seq<PolygonDraw>, rows: nat, cols: nat): seq<Stamp>
    requires forall i :: 0 <= i < |draws| ==> |draws[i].xs| == |draws[i].ys|
  {
    if draws == [] then []
    else PolygonStamps(draws[..|draws| - 1], rows, cols) + Edges(draws[|draws| - 1], rows, cols)
  }

  lemma PolygonStampsSnoc(draws: seq<PolygonDraw>, i: int, rows: nat, cols: nat)
    requires forall k :: 0 <= k < |draws| ==> |draws[k].xs| == |draws[k].ys|
    requires 0 <= i < |draws|
    ensures PolygonStamps(draws[..i + 1], rows, cols) == PolygonStamps(draws[..i], rows, cols) + Edges(draws[i], rows, cols)
  {
    assert draws[..i + 1][..i] == draws[..i];
  }

  /**
   Every clipped vertex lies on the canvas and on the outline twice: as the
   first pixel of its outgoing edge and, in exact arithmetic, as the last
   pixel of its incoming edge (the edge from the previous vertex, wrapping
   around from vertex 0 to vertex n - 1).
   */
  lemma VertexOnOutline(p: PolygonDraw, rows: nat, cols: nat, j: int)
    requires rows > 0 && cols > 0 && |p.xs| == |p.ys|
    requires 0 <= j < |p.xs|
    ensures var x, y := ClipAll(p.xs, 0, cols - 1), ClipAll(p.ys, 0, rows - 1);
            var n := |p.xs|;
            0 <= y[j] < rows && 0 <= x[j] < cols &&
            Covers(Edges(p, rows, cols)[j], y[j], x[j]) &&
            Covers(Edges(p, rows, cols)[if j == 0 then n - 1 else j - 1], y[j], x[j])
  {
    var x, y := ClipAll(p.xs, 0, cols - 1), ClipAll(p.ys, 0, rows - 1);
    var n := |p.xs|;
    var e := Edges(p, rows, cols);
    var i := if j == 0 then n - 1 else j - 1;
    var k := (j + 1) % n;
    NextIndex(i, n);
    assert e[j] == Segment(x[j], y[j], x[k], y[k], p.color);
    assert e[i] == Segment(x[i], y[i], x[j], y[j], p.color);
    SegmentCoversEnds(x[j], y[j], x[k], y[k], p.color);
    SegmentCoversEnds(x[i], y[i], x[j], y[j], p.color);
  }

  lemma NextIndex(i: int, n: int)
    requires 0 <= i < n
    ensures (i + 1) % n == if i == n - 1 then 0 else i + 1
  {
  }

  /** A segment stamp writes its first endpoint and, in exact arithmetic, its last. */
  lemma SegmentCoversEnds(x1: int, y1: int, x2: int, y2: int, color: int)
    ensures Covers(Segment(x1, y1, x2, y2, color), y1, x1)
    ensures Covers(Segment(x1, y1, x2, y2, color), y2, x2)
  {
    PathEnds(x1, y1, x2, y2);
    var p := Path(x1, y1, x2, y2);
    assert p[0] in p && p[|p| - 1] in p;
  }

  /** Every vertex of the last polygon drawn ends with that polygon's colour. */
  lemma LastPolygonVertices(draws: seq<PolygonDraw>, rows: nat, cols: nat, j: int)
    requires PolygonsDrawable(draws, rows, cols) && |draws| > 0
    requires 0 <= j < |draws[|draws| - 1].xs|
    ensures var p := draws[|draws| - 1];
            ValueAt(PolygonStamps(draws, rows, cols),
                    ClipAll(p.ys, 0, rows - 1)[j], ClipAll(p.xs, 0, cols - 1)[j]) == p.color
  {
    var p := draws[|draws| - 1];
    var x, y := ClipAll(p.xs, 0, cols - 1), ClipAll(p.ys, 0, rows - 1);
    VertexOnOutline(p, rows, cols, j);
    UniformTail(PolygonStamps(draws[..|draws| - 1], rows, cols), Edges(p, rows, cols), p.color, j, y[j], x[j]);
  }
}
