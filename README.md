# Integer canvas stamping of the PET-sensitivity phantom helpers

This project models the integer canvas routines of
`notebooks/PET_sensitivity/odl_funcs/misc.py`:

- `fill_line` is a digital differential analyser (DDA) line rasteriser.
  It takes d = max(|dx|, |dy|) steps, writes `color` at the truncated
  running point on each of the d + 1 positions, and then advances the point
  by (dx/d, dy/d).
- Three random canvas generators each allocate a zero canvas of the
  requested shape and stamp primitives onto it in place:
  - `random_shapes_array` stamps clipped rectangles and disks.
  - `random_camouflage_array` stamps palette-coloured patches.
  - `random_polygons_array` stamps polygon outlines drawn with `fill_line`.

Every random draw is an input. A generator receives a sequence of records:
`ShapeDraw`, `PatchDraw` or `PolygonDraw`. Each record holds the centre,
size, colour (or palette index), shape kind, or rounded vertex arrays that
one loop iteration draws. Given its records, each generator is a
deterministic in-place update of an `array2<int>`.

The files:

- `dda.dfy` (module `Dda`) holds the geometry of the line walk. `Position`
  is the exact running point. `Coord` and `Path` give the integer pixels it
  truncates to. The lemmas state where the walk goes.
- `stamps.dfy` (module `Stamps`) holds the primitives as a `Stamp`
  datatype:
  - `Block` models a slice assignment, `Disk` a mask assignment and
    `Segment` a `fill_line`.
  - `Covers` says which cells a stamp writes.
  - `ValueAt` is the content of a canvas after a sequence of stamps. A cell
    takes the colour of the last stamp covering it, or 0.
  - It also holds the translation of each draw record into stamps, with the
    source's clipping.
- `misc.dfy` (module `Misc`) holds the imperative routines as methods over
  `array2<int>`. Each method states the whole new content of the canvas.

Three behaviours of the code, which the model reproduces:

- The camouflage patches are clipped to `[0, shape-1]` and then used as an
  exclusive slice. So the last row and the last column are never painted
  (`Stamps.CamouflageBorderBlank`), although the comment at misc.py:220
  says the patch boundaries are clipped "to the canvas boundaries".
- A zero-length segment does not raise. With the numpy integers the
  polygon generator passes in, `0/0` is NaN. The loop still runs once, so
  the model writes the single pixel (y1, x1).
- The disk radius is `size//2` (integer division), not `size/2`.

## Model

| member | source | states |
|---|---|---|
| `Misc.FillLine` | notebooks/PET_sensitivity/odl_funcs/misc.py:264-280 | Cell (r, c) becomes `color` iff it is one of the d + 1 pixels of `Path(x1, y1, x2, y2)`; every other cell is unchanged. Every write is in bounds when both endpoints are on the canvas. A zero-length segment writes only (y1, x1). |
| `Dda.TruncPosition` | notebooks/PET_sensitivity/odl_funcs/misc.py:273-278 | Truncating the exact running coordinate a + i·(delta/d) gives the integer a + ⌊i·delta/d⌋, provided both endpoints are non-negative. |
| `Dda.WalkPixel` | notebooks/PET_sensitivity/odl_funcs/misc.py:269-278 | The pixel written on step i (truncated y, truncated x) is `Path[i]`, and it lies in the bounding box of the endpoints. |
| `Dda.CoordBetween` | notebooks/PET_sensitivity/odl_funcs/misc.py:269-278 | Every intermediate coordinate lies between the start and end coordinates on that axis. |
| `Dda.PathInBox` | notebooks/PET_sensitivity/odl_funcs/misc.py:269-278 | Every pixel of the walk lies in the box spanned by (y1, x1) and (y2, x2), so the walk stays on the canvas when its endpoints do. |
| `Dda.PathEnds` | notebooks/PET_sensitivity/odl_funcs/misc.py:266-278 | The first pixel written is (y1, x1). In exact arithmetic the last pixel, on step d, is (y2, x2). |
| `Dda.CoordStep` | notebooks/PET_sensitivity/odl_funcs/misc.py:269-278 | Between consecutive steps a coordinate changes by at most 1. |
| `Dda.PathConnected` | notebooks/PET_sensitivity/odl_funcs/misc.py:269-278 | Consecutive pixels of the walk differ by at most one in row and in column (8-connected line). |
| `Dda.CoordMajor` | notebooks/PET_sensitivity/odl_funcs/misc.py:268-278 | Along the axis of greatest extent, the coordinate moves by exactly one pixel per step, towards the end point. |
| `Dda.PathDistinct` | notebooks/PET_sensitivity/odl_funcs/misc.py:268-278 | The d + 1 pixels of the walk are pairwise distinct, so exactly d + 1 cells are written. |
| `Dda.HorizontalPath` | notebooks/PET_sensitivity/odl_funcs/misc.py:264-280 | A segment with y1 = y2 covers (r, c) iff r = y1 and c lies between x1 and x2 inclusive. For example, (0,0)–(5,0) writes exactly (0,0)…(0,5). |
| `Stamps.LastCover` | notebooks/PET_sensitivity/odl_funcs/misc.py:286-322 | Returns the index of a stamp covering (r, c) with no later stamp covering it, or -1 when no stamp covers the cell. |
| `Stamps.LastWriteWins` | notebooks/PET_sensitivity/odl_funcs/misc.py:284-324 | Every generator's cell value is the colour of the last covering primitive, or 0 if none covers it. |
| `Stamps.UncoveredIsZero` | notebooks/PET_sensitivity/odl_funcs/misc.py:205-229 | A cell that no primitive covers keeps the initial 0 of `np.zeros`. |
| `Stamps.UniformTail` | notebooks/PET_sensitivity/odl_funcs/misc.py:256-260 | When all later stamps share one colour and one of them covers a cell, that cell ends with that colour. |
| `Stamps.Clip` | notebooks/PET_sensitivity/odl_funcs/misc.py:221-224 | `np.clip` puts a value in [lo, hi] when lo ≤ hi, and leaves a value already in range unchanged. |
| `Stamps.ClipAll` | notebooks/PET_sensitivity/odl_funcs/misc.py:252-254 | Clipping a vertex array keeps its length and puts every vertex coordinate in [lo, hi]. |
| `Stamps.RectangleStamp` | notebooks/PET_sensitivity/odl_funcs/misc.py:296-309 | The clipped rectangle has 0 ≤ y_min, y_max ≤ rows, 0 ≤ x_min and x_max ≤ cols. If the centre is on the canvas, y_min ≤ y_max and x_min ≤ x_max. It covers exactly the on-canvas cells of [cx − size//2, cx + size//2) × [cy − size//2, cy + size//2). |
| `Stamps.DiskInSquare` | notebooks/PET_sensitivity/odl_funcs/misc.py:311-322 | A disk of radius size//2 contains its centre and lies inside the closed square of half-width size//2 around it. |
| `Stamps.PatchStamp` | notebooks/PET_sensitivity/odl_funcs/misc.py:214-227 | A clipped patch has 0 ≤ x1 ≤ x2 ≤ cols − 1 and 0 ≤ y1 ≤ y2 ≤ rows − 1, and its colour is `colors[colorIndex]`. It covers exactly the cells of the unclipped box that lie in [0, rows − 1) × [0, cols − 1). |
| `Stamps.CamouflageBorderBlank` | notebooks/PET_sensitivity/odl_funcs/misc.py:221-227 | Every cell in the last row or the last column of a camouflage canvas is 0. |
| `Stamps.CamouflageColors` | notebooks/PET_sensitivity/odl_funcs/misc.py:203-227 | Every camouflage cell is 0 or a palette colour. With the default palette {0, 128, 255} it is always a palette colour. |
| `Stamps.VertexOnOutline` | notebooks/PET_sensitivity/odl_funcs/misc.py:252-260 | Every clipped vertex is on the canvas. It is covered by its outgoing edge (as the first pixel) and by its incoming edge (in exact arithmetic, as the last pixel, wrapping from vertex 0 to vertex n − 1). |
| `Stamps.LastPolygonVertices` | notebooks/PET_sensitivity/odl_funcs/misc.py:235-262 | In the final canvas, every clipped vertex of the last polygon drawn has that polygon's colour. |
| `Misc.FillBlock` | notebooks/PET_sensitivity/odl_funcs/misc.py:309 | The slice assignment sets exactly the cells with top ≤ r < bottom and left ≤ c < right to `color`, and leaves all others unchanged. |
| `Misc.FillDisk` | notebooks/PET_sensitivity/odl_funcs/misc.py:313-322 | Cell (r, c) becomes `color` iff (c − cx)² + (r − cy)² ≤ radius²; every other cell is unchanged. |
| `Misc.RandomShapesArray` | notebooks/PET_sensitivity/odl_funcs/misc.py:282-324 | For centres in the `randint` ranges [0, cols) × [0, rows), returns a fresh canvas of exactly the requested shape. Each cell holds the colour of the last rectangle or disk covering it, else 0; with no draws the canvas is all zero. |
| `Misc.RandomCamouflageArray` | notebooks/PET_sensitivity/odl_funcs/misc.py:203-229 | Returns a fresh canvas of exactly the requested shape. Each cell holds the colour of the last clipped patch covering it, else 0; with no draws the canvas is all zero. |
| `Misc.FillOutline` | notebooks/PET_sensitivity/odl_funcs/misc.py:257-260 | The n `fill_line` calls from vertex j to vertex (j + 1) % n leave the canvas equal to the earlier stamps followed by the polygon's outline. Each call stays in bounds. |
| `Misc.RandomPolygonsArray` | notebooks/PET_sensitivity/odl_funcs/misc.py:231-262 | Returns a fresh canvas of exactly the requested shape. Each cell holds the colour of the last polygon edge covering it, else 0. Vertices are clipped before the edges are drawn, so every `fill_line` call is in bounds. |

## Left out

- `ellipse_phantom`, `_getshapes_2d`, `shepp_logan` and `random_phantom` are not modelled. They use floating-point quadratic forms, trigonometric rotation and numpy broadcasting.
- `random_2D_rotation`, `random_4x4_matrix`, `affine_transform_2D` and `affine_transform_2D_image` are not modelled. They are floating-point matrix numerics, scipy's interpolating `affine_transform`, and an external image object.
- Random number generation is not modelled. Every `np.random` and `random.choice` draw is a field of an input record. The ranges of those draws appear only where a property needs them: a centre in `[0, shape)` implies a non-empty canvas.
- Polygon vertex generation is not modelled (`linspace`, `cos`, `sin`, `round`). The generator takes the rounded integer vertex arrays as input.
- `random.choice` at misc.py:212 raises NameError as written, because `random` is not imported. The model reads it as choosing `colors[colorIndex]`.
- Misc.FillLine: positions are exact reals, so the model does not capture floating-point rounding of `x += sx`. That rounding can make the last pixel miss (y2, x2), which `Dda.PathEnds` states only for exact arithmetic.
- Misc.FillLine: with Python `int` endpoints (not numpy integers), a zero-length segment raises ZeroDivisionError. The model follows the numpy behaviour of the only caller: one write.
- Misc.FillLine: requires both endpoints on the canvas. The source does not check this; out-of-range indices would raise IndexError and negative ones would wrap around. Every caller clips first.
- Misc.FillDisk: compares squared integer distances instead of the float `sqrt(...) <= size//2`. The two agree for non-negative radii as long as the float square root is exact enough, which holds for any realistic canvas size.
- Misc.FillBlock: requires all four slice bounds to be non-negative and within the canvas. Every caller guarantees this: the camouflage clipping does, and so does the shapes clipping given centres in the `randint` ranges (`Stamps.ShapesDrawable`). numpy's negative-index and past-the-end slice semantics are not modelled.
- Sizes are natural numbers, so negative `min_size` values, which would produce negative slice bounds, are not modelled.
- The canvas holds integers where numpy's `np.zeros` holds float64; every colour written is an integer.
