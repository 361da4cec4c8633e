# Two-axis polygon clipper, modelled in Dafny

This project models `TwoAxisPolygonClip`, a C routine that clips a polygon with
16-bit integer coordinates to an axis-aligned rectangle. The routine makes two
passes:

- The x pass clips to `[clipLeft, clipRight]` and writes `clipBuffer`.
- If fewer than three vertices survive the x pass, the routine returns that
  count at once.
- Otherwise the y pass clips `clipBuffer` to `[clipTop, clipBottom]` and writes
  `clippedPolygon`. `clipTop` is the low bound of this pass.

Each pass walks the closed polygon's directed edges, starting at vertex 0 and
then reading vertices `n-1, n-2, ..., 1`. For one edge, a pass:

1. classifies the edge as descending or ascending on the clipped axis;
2. quick-rejects it when it lies wholly outside the slab;
3. clamps the start point onto the near bound by integer interpolation (C's
   truncating division), or passes it through unchanged;
4. emits the start point, plus one extra vertex on the far bound when the end
   point lies outside.

The model has three modules:

- `Geometry` holds the coordinate type (`Int16`), vertices, the rectangle, the
  two axes, C's truncating division `TDiv` and the interpolation.
- `AxisClip` holds one generic pass. It is specified on sequences by
  `ClipEdge` / `ClipSegment` (one edge), `PassPrefix` (the first k edges) and
  `ClipPass` (all edges). It is implemented as the imperative
  `StoreEdge` / `ClipAxis`, which write a caller's array in place and are
  proved against that specification.
- `PolygonClip` holds the routine: `TwoAxisClip` on values and
  `TwoAxisPolygonClip` over the caller's three arrays. It also has the
  whole-routine properties and worked examples.

Arithmetic is done on unbounded integers. Every interpolated coordinate is
proved to lie between the endpoints it comes from, so every stored coordinate
is an `Int16`. No I/O, clock or foreign call is involved.

## Model

| member | source | states |
|---|---|---|
| Geometry.TDiv | TwoAxisPolygonClip.c:101-186 | C's `/` on int, which truncates toward zero: the quotient of the magnitudes, negated when exactly one operand is negative. Used by every interpolation at lines 101, 111, 120, 128, 162, 170, 178 and 186; its laws are Geometry.TDivLaw. |
| Geometry.TDivLaw | TwoAxisPolygonClip.c:101 | C's `/` as modelled truncates toward zero. The remainder is smaller than the divisor in magnitude and is zero or has the dividend's sign. The quotient's magnitude never exceeds \|a\| / \|b\|. |
| Geometry.Interpolate | TwoAxisPolygonClip.c:100-103 | The crossing coordinate `o1 + TDiv((o2-o1)*(bound-c1), c2-c1)` needs a nonzero divisor and a bound between c1 and c2. It lies between o1 and o2, so it fits in an int16. At either endpoint it equals that endpoint's coordinate. The same expression is used at lines 111, 120, 128, 162, 170, 178 and 186. |
| Geometry.CInterpolate | TwoAxisPolygonClip.c:101 | The expression as C evaluates it with a 32-bit `int`, None where the product overflows. When both endpoints and the bound lie in [-16384, 16383], no product overflows and C computes exactly Interpolate's crossing. |
| Geometry.InterpolateOverflowExample | TwoAxisPolygonClip.c:101 | For an edge from (30000,-30000) to (-30000,30000) clamped at x = -20000, the C product overflows int, while the exact crossing (20000) fits in an int16. |
| AxisClip.ClipEdge | TwoAxisPolygonClip.c:94-131 | The vertices one directed edge p→q emits on the chosen axis: ClipSegment applied to the two points' coordinates along and across that axis. At most two vertices; its shape is AxisClip.ClipEdgeShape. |
| AxisClip.ClipSegment | TwoAxisPolygonClip.c:94-131 | One edge emits at most two vertices. |
| AxisClip.ClipEdgeShape | TwoAxisPolygonClip.c:94-131 | For either edge direction: nothing is emitted exactly when both ends lie beyond the same bound; every emitted vertex lies in the slab, with its other coordinate between the endpoints'; a start point in the slab is emitted unchanged, and one outside it becomes a vertex exactly on its near bound; a second vertex appears exactly when the end point is outside, and it sits exactly on the end point's bound. |
| AxisClip.ClipEdgeEmptyIff | TwoAxisPolygonClip.c:96-97 | An edge yields no vertex exactly when the quick reject (lines 96-97 and 116-117) fires. |
| AxisClip.CrossingSymmetric | TwoAxisPolygonClip.c:99-129 | Take an edge with one end p outside the slab and the other, q, inside. Walking p→q emits one vertex. Walking q→p emits q and then the same crossing vertex. |
| AxisClip.Walk | TwoAxisPolygonClip.c:83-89 | The k-th vertex the walk reads: vertex 0 first (lines 83-84, 147-148), then vertex n-k as `nVertices--` counts down (lines 88-89, 152-153). Edge k runs from Walk(s, k) to Walk(s, k+1 mod n). |
| AxisClip.WalkOrder | TwoAxisPolygonClip.c:147-152 | The vertices in the order the walk reads them, 0, n-1, ..., 1; AxisClip.WalkOrderElements and AxisClip.WalkOrderInvolutive state its properties. |
| AxisClip.PassPrefix | TwoAxisPolygonClip.c:87-136 | After k edges a pass has emitted at most 2k vertices, so pIndex ≤ 2n. |
| AxisClip.ClipPass | TwoAxisPolygonClip.c:80-136 | One whole pass: the concatenated output of all n edges of the walk, starting from pIndex = 0. Its lemmas are AxisClip.PassInSlab, AxisClip.PassEmptyIff and AxisClip.PassIdentity; AxisClip.ClipAxis is proved against it. |
| AxisClip.PassInSlab | TwoAxisPolygonClip.c:94-131 | Every vertex a pass emits lies within [lo, hi] on the clipped axis. |
| AxisClip.PassAcrossBounded | TwoAxisPolygonClip.c:157-189 | If every input vertex has its other coordinate in [a, b], so does every emitted vertex. In particular, the y pass keeps x within the x pass's bounds. |
| AxisClip.EmptyPrefixRejectsAll | TwoAxisPolygonClip.c:87-136 | The first k edges emit nothing exactly when each of them is quick-rejected. |
| AxisClip.AllEdgesOutsideIff | TwoAxisPolygonClip.c:96-117 | Every edge of the walk is rejected exactly when all vertices lie below lo, or all lie above hi. |
| AxisClip.PassEmptyIff | TwoAxisPolygonClip.c:96-117 | A pass emits nothing exactly when every vertex lies below lo, or every vertex lies above hi. |
| AxisClip.WalkOrderElements | TwoAxisPolygonClip.c:83-89 | The walk 0, n-1, ..., 1 visits each of the n vertices. |
| AxisClip.WalkOrderInvolutive | TwoAxisPolygonClip.c:147-152 | Walking the walk order a second time gives back the original order. |
| AxisClip.PassPrefixInside | TwoAxisPolygonClip.c:106-107 | On a polygon inside the slab, the first k edges emit the first k walked vertices, unchanged. |
| AxisClip.PassIdentity | TwoAxisPolygonClip.c:124-125 | A pass over a polygon inside the slab emits exactly its walk order. |
| AxisClip.StoreEdge | TwoAxisPolygonClip.c:88-135 | One iteration of the loop body. It stores exactly the edge's clip output at dst[pIndex..next], moves the counter by 0, 1 or 2, and leaves the rest of dst unchanged. |
| AxisClip.ClipAxis | TwoAxisPolygonClip.c:80-136 | The whole pass over arrays. It returns the count, fills dst with ClipPass of the first n source vertices, and leaves the rest of dst as it was. |
| PolygonClip.FirstPass | TwoAxisPolygonClip.c:80-136 | The x pass: ClipPass over the source vertices on the x axis, clipped to [clipLeft, clipRight]. |
| PolygonClip.TwoAxisClip | TwoAxisPolygonClip.c:86-194 | The routine on values: the x pass; the early exit when it has fewer than three vertices (lines 141-142); otherwise the y pass over the x pass's output, clipped to [clipTop, clipBottom]. Its properties are the PolygonClip lemmas below. |
| PolygonClip.TwoAxisPolygonClip | TwoAxisPolygonClip.c:31-197 | The routine. It returns the result's count and leaves the x pass in clipBuffer. On the early exit clippedPolygon is unchanged; otherwise clippedPolygon holds the y pass, followed by its old contents. |
| PolygonClip.ClipInsideRect | TwoAxisPolygonClip.c:94-189 | Every x-pass vertex lies in [clipLeft, clipRight], and every output vertex lies inside the rectangle. |
| PolygonClip.ClipCountBound | TwoAxisPolygonClip.c:141-151 | The x pass emits at most 2n vertices. The y pass emits at most twice the x pass's count, so the result is at most 4n. |
| PolygonClip.ClipIdentity | TwoAxisPolygonClip.c:83-152 | A polygon inside the rectangle comes back with count n. For n ≥ 3 it comes back as the same vertices in the same order. |
| PolygonClip.ClipRejectX | TwoAxisPolygonClip.c:96-142 | The routine exits early with an empty x pass (count 0) exactly when all vertices lie left of clipLeft or all lie right of clipRight. |
| PolygonClip.ClipRejectY | TwoAxisPolygonClip.c:141-175 | If all vertices lie above clipTop or all lie below clipBottom, the polygon is not visible (count < 3). If the y pass runs at all, it emits nothing. |
| PolygonClip.SquareFirstPass | TwoAxisPolygonClip.c:86-136 | The x pass of the unit-square example is (5,10), (10,10), (10,0), (5,0). |
| PolygonClip.SquareExample | TwoAxisPolygonClip.c:83-194 | The square (0,0), (10,0), (10,10), (0,10), clipped to x ∈ [5,15] and y ∈ [-5,5], gives (5,5), (5,0), (10,0), (10,5). |
| PolygonClip.DuplicateVertexExample | TwoAxisPolygonClip.c:45 | Clipping the triangle (0,0), (10,0), (5,10) at clipLeft = 5 emits (5,10) twice in a row. |
| PolygonClip.SevenVertexFirstPass | TwoAxisPolygonClip.c:86-136 | The x pass of the triangle below has five vertices. |
| PolygonClip.SevenVertexTriangle | TwoAxisPolygonClip.c:59 | The triangle (5,13), (13,5), (-38,-30), clipped to [0,10]×[0,10], yields 7 vertices, more than 2 × 3. |

## Left out

- The header `TwoAxisPolygonClip.h` is not part of this model. Its two structs are declared here as `Vertex` and `ClipRect`.
- The `goto lr_boundOut` / `goto tb_boundOut` jumps are modelled as an early `return` from the per-edge method `StoreEdge`. The copy through `ox1`/`oy1` is the assignment `c1, o1 := c2, o2`.
- PolygonClip.TwoAxisPolygonClip requires nVertices ≥ 1, 4 × nVertices ≤ 32767, a clipBuffer of at least 2 × nVertices vertices, a clippedPolygon of at least twice the x pass's count, and three pairwise distinct arrays. These are conditions under which the model is proved, not what the C routine strictly needs. The C code stays well defined for larger counts as long as pIndex never exceeds 32767 and each store lands inside its buffer; the model does not describe those runs. The buffer bounds come from the per-edge step, which may store two vertices and so asks for room for two. The count bound keeps both int16 counters from wrapping. Overlapping arrays are not modelled.
- The claim at line 45 that no duplicate vertices or degenerate edges are produced is not proved, because the code does not guarantee it: PolygonClip.DuplicateVertexExample shows a vertex emitted twice.
- Convexity-dependent properties (winding direction, signed area) are not modelled.
- Shared-edge exactness is proved only for edges that cross one bound (AxisClip.CrossingSymmetric). For an edge that crosses both bounds, the far crossing is interpolated from the already rounded start point (lines 111 and 128), and the two directions can differ.
- The unit square comes out as the cycle starting at (5,5): (5,5), (5,0), (10,0), (10,5) (PolygonClip.SquareExample).
- A polygon wholly outside on the y axis only gets a count below 3, not 0. The early exit returns the x pass's count, which is 1 for a one-vertex polygon (PolygonClip.ClipRejectY).
- The passes use exact products. They match the C arithmetic only where every product `(o2 - o1) * (bound - c1)` fits in a 32-bit `int`, for instance when all coordinates and bounds lie in [-16384, 16383] (Geometry.CInterpolate). Larger products overflow in C (Geometry.InterpolateOverflowExample), and the model does not follow that undefined behaviour.

## Findings

| source | as written | input that shows it | evidently intended | confidence | as-written member | corrected member |
|---|---|---|---|---|---|---|
| TwoAxisPolygonClip.c:59 | The output buffer should hold 2 × nVertices vertices. | The triangle (5,13), (13,5), (-38,-30), clipped to [0,10]×[0,10], writes 7 vertices into a buffer of 6. | An output buffer large enough for what the y pass writes: twice the x pass's count, at most 4 × nVertices. | not executed | PolygonClip.SevenVertexTriangle | PolygonClip.TwoAxisPolygonClip |
| TwoAxisPolygonClip.c:101 | The interpolation forms `(ry2 - ry1) * (clip_right - rx1)` in `int`, which overflows a 32-bit `int` when the product of the two differences exceeds its range. | The edge from (30000,-30000) to (-30000,30000) clamped at clipRight = -20000 forms 60000 × -50000. | The exact product, whose quotient lies between the endpoints and fits in an int16. | not executed | Geometry.InterpolateOverflowExample | Geometry.Interpolate |
