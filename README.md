# Geometry and traversal utilities, modelled in Dafny

A verified model of the numeric and graph core of the `utils` library. It covers:

- the memoised Pascal triangle behind `binomial_coeff`;
- Bézier curve sampling, by de Casteljau's algorithm (the path the library
  takes) and by the Bernstein polynomial with its 0.001 weight cut-off, with
  the plane and space wrappers;
- the beach-line arc arithmetic: arc height, inverse height, slope, the
  meeting point of two arcs and of two lines;
- the plane predicates: `in_rect`/`in_bounds`, `orientation`, `on_segment`,
  `do_intersect`, and the triangle circumcentre;
- `generate_box`, `generate_parabola` and `convert_to_point_2`;
- the tree walks (recursive, level by level, level by level with a pruning
  predicate) and the forward and backward list walks.

Coordinates are mathematical reals and counts are unbounded integers. Every
operation that divides states, as a precondition, that the divisor is not
zero. Square roots are taken with a square-root function passed in as a
parameter; on a negative argument its value is left unconstrained, so the
operations that take one are total and only the lemmas about them assume a
non-negative argument.

The modules are:

| file | module | what it models |
|---|---|---|
| geometry.dfy | Geometry | `glm::vec2`/`glm::vec3`/`Point_2` and the flat coordinate vectors |
| binomial.dfy | Binomial | `binomial_coeff` and its process-wide table (a class) |
| bezier.dfy | Bezier | de Casteljau kernel and sampler; the generic, plane and space `generate_bezier_curve` |
| bezier_polynomial.dfy | BezierPolynomial | `bezier_polynomial` |
| shapes.dfy | Shapes | `generate_box`, `generate_parabola`, `convert_to_point_2` |
| arcs.dfy | Arcs | `compute_parabola_y/_x/_slope`, `compute_parabolic_collision_x` (both copies), `compute_line_collision` |
| planar.dfy | Planar | `in_rect`, `in_bounds`, `orientation`, `on_segment`, `do_intersect`, `compute_triangle_circumcenter` |
| circumcircle.dfy | Circumcircle | what is proved about the circumcentre |
| traversal.dfy | Traversal | `graph_traversal.h` |

The repository holds two copies of `math_util.cpp`: `src/math_util.cpp`
and an older copy at the top level. The model follows `src/math_util.cpp`.
Three operations exist only in the older copy, and the model takes them from
there: `compute_parabola_x`, `compute_parabola_slope` and
`compute_line_collision`. The older copy's unguarded
`compute_parabolic_collision_x` is modelled too, beside the guarded one.

De Casteljau's sampler emits the first control point and then the curve at
`t = step, 2 step, ...` while `t < 1`. In the exact model, where the `k`-th
time is `k * step`, it never emits the end point `t = 1`, although a Bézier
curve is commonly described as running from the first control point to the
last. The model follows the code: `Bezier.DeCasteljauOmitsLast` shows the
last point missing. In the source, `t` is accumulated by repeated
floating-point addition, so the times can fall just short of the exact
multiples: with step 0.1 the tenth time is 0.9999999999999999, below 1, and
the source takes one more sample there, next to the end point. The polynomial
sampler does append the last point (`BezierPolynomial.PolyCurveEnds`).

## Model

| member | source | states |
|---|---|---|
| Binomial.BinomialTable.constructor | src/math_util.cpp:38-39 | a fresh process starts with an empty, well-formed table |
| Binomial.BinomialTable.Coeff | src/math_util.cpp:41-55 | builds exactly the missing rows up to `n`, keeps every existing row unchanged, keeps the table a Pascal triangle, and answers `C(n, k)` |
| Binomial.PascalRow | src/math_util.cpp:43-48 | the row built in the loop body is `[1]` for the first row, otherwise the Pascal successor of the previous row (1 at both ends, each inner entry the sum of the two above) |
| Binomial.PascalExtend | src/math_util.cpp:49-50 | pushing the successor row keeps the table a Pascal triangle |
| Binomial.PascalIsChoose | src/math_util.cpp:41-55 | every entry of a Pascal table is the binomial coefficient of its position |
| Binomial.ChooseSymmetric | src/math_util.cpp:41-55 | the coefficients the table serves are symmetric: `C(n, k) == C(n, n - k)` |
| Geometry.GroupFlat2 | src/math_util.cpp:62-72 | reading flattened plane points back in pairs returns the same points |
| Geometry.FlatGroup2 | src/math_util.cpp:383-389 | flattening the pairs read from an even-length vector returns the vector |
| Geometry.GroupFlat3 | src/math_util.cpp:82-93 | reading flattened space points back in triples returns the same points |
| Geometry.FlatGroup3 | src/math_util.cpp:82-93 | flattening the triples read from a vector whose length is a multiple of 3 returns the vector |
| Bezier.Kernel | src/math_util.cpp:158-168 | the repeated interpolation down to one point, `d` coordinates; its properties are stated by `KernelAtZero`, `KernelAtOne`, `KernelOnLine` and `KernelIsBernstein` |
| Bezier.DeCasteljauKernel | src/math_util.cpp:158-168 | the kernel's loop computes the repeated interpolation of adjacent points, down to one point of `d` coordinates |
| Bezier.KernelAtZero | src/math_util.cpp:158-168 | at `t = 0` the kernel returns the first control point |
| Bezier.KernelAtOne | src/math_util.cpp:158-168 | at `t = 1` the kernel returns the last control point |
| Bezier.KernelOnLine | src/math_util.cpp:158-168 | if all control points lie on a line `a x + b y = c`, then so does the kernel's point, for every `t` |
| Bezier.SampleCountIsCount | src/math_util.cpp:148-153 | the sampler's loop runs exactly once per multiple `j * step` below 1 |
| Bezier.BezierDeCasteljau | src/math_util.cpp:144-156 | the sampler returns the first control point followed by the kernel at each `t = j * step < 1` |
| Bezier.DeCasteljauCurve | src/math_util.cpp:144-156 | the sampler's curve, `d (1 + #samples)` coordinates; its points are stated by `DeCasteljauCurvePoint` and `CurveOnLine` |
| Bezier.DeCasteljauCurvePoint | src/math_util.cpp:149-153 | chunk `j` of the curve is the kernel evaluated at `t = j * step` |
| Bezier.CurveOnLine | src/math_util.cpp:144-156 | control points on a line give a curve whose every point is on that line |
| Bezier.DeCasteljauOmitsLast | src/math_util.cpp:149 | the end point `t = 1` is never sampled: control points `0, 0, 1` at step `0.5` give `[0, 0.25]` |
| Bezier.GenerateBezierCurve | src/math_util.cpp:98-108 | two or fewer coordinates come back unchanged, whatever the step; otherwise the result is the de Casteljau curve |
| Bezier.GenerateBezierCurve2 | src/math_util.cpp:57-75 | two or fewer points come back unchanged, whatever the step; otherwise the result is the de Casteljau curve of the flattened points in dimension 2, read back in pairs |
| Bezier.FlattenPoints2 | src/math_util.cpp:62-66 | the flattening loop yields `x, y` of each point in order |
| Bezier.GroupPoints2 | src/math_util.cpp:70-72 | the read-back loop yields one point per pair of coordinates |
| Bezier.GenerateBezierCurve3 | src/math_util.cpp:77-96 | the same in space, with triples |
| Bezier.FlattenPoints3 | src/math_util.cpp:82-87 | the flattening loop yields `x, y, z` of each point in order |
| Bezier.GroupPoints3 | src/math_util.cpp:91-93 | the read-back loop yields one point per triple of coordinates |
| Bezier.BezierCurve2Points | src/math_util.cpp:57-75 | the plane wrapper returns `1 + #samples` points: the first control point, then the kernel's point at each `t = j * step` |
| BezierPolynomial.Cutoff | src/math_util.cpp:128-129 | a weight above 0.001 is kept as it is; any other weight becomes 0 |
| BezierPolynomial.FilteredWeight | src/math_util.cpp:124-129 | the weight of control point `k` is `C(n, k) (1 - t)^(n - k) t^k` passed through the cut-off; the binomial table stays valid and only grows |
| BezierPolynomial.AddWeighted | src/math_util.cpp:130-131 | adding the weighted control point `k` to the accumulator extends the partial blend by the term `k` |
| BezierPolynomial.PolySampleAt | src/math_util.cpp:118-132 | one sample is the cut-off Bernstein blend at `t` of the `n + 1` whole control points at the front of the vector |
| BezierPolynomial.BezierPolynomial | src/math_util.cpp:110-142 | the curve is the first `d` coordinates, then the blend of the whole points at each `t = j * step < 1`, then the last `d` coordinates; a length that is not a multiple of `d` is accepted, its left-over coordinates taking part only in the last `d` |
| BezierPolynomial.PolyCurveEnds | src/math_util.cpp:110-142 | the polynomial curve starts at the first control point and ends at the last one |
| BezierPolynomial.CutoffDropsPoint | src/math_util.cpp:127-131 | a control point whose weight is at most 0.001 has no influence on the sample: changing it changes nothing |
| BezierPolynomial.PolySample | src/math_util.cpp:118-132 | computes one sample, `d` coordinates, as the cut-off Bernstein blend; what it equals is stated by `PolySampleAt` and `EvaluatorsAgree` |
| BezierPolynomial.PolyCurve | src/math_util.cpp:110-142 | computes the polynomial curve, `d (2 + #samples)` coordinates; what it equals is stated by `BezierPolynomial`, `PolyCurveEnds` and `CurvesAgree` |
| BezierPolynomial.BernsteinIsWeightRow | src/math_util.cpp:124-129 | the Bernstein weights obtained row by row from Pascal's rule (`w(n, k) = (1 - t) w(n-1, k) + t w(n-1, k-1)`) are exactly the closed-form weights `C(n, k) (1 - t)^(n - k) t^k` the source computes |
| BezierPolynomial.KernelIsBernstein | src/math_util.cpp:110-168 | for any one-dimensional control polygon of any degree, de Casteljau's point at `t` is the Bernstein sum of the control points at `t` |
| BezierPolynomial.EvaluatorsAgree | src/math_util.cpp:110-168 | where every weight passes the cut-off, the polynomial sample equals the de Casteljau kernel's point, in every dimension and for every degree |
| BezierPolynomial.SamplesAgree | src/math_util.cpp:110-156 | where nothing is cut at any sample time, the polynomial samples are the de Casteljau samples, one for one |
| BezierPolynomial.CurvesAgree | src/math_util.cpp:110-156 | where nothing is cut, the polynomial curve is the de Casteljau curve followed by the last control point |
| Shapes.GenerateBox | src/math_util.cpp:192-203 | eight corners; the first four lie on `z = 0` and the last four repeat them at `z = l`; each coordinate is 0 or the size; corner 0 is the origin and corner 6 is `(w, h, l)` |
| Shapes.BoxCorners | src/math_util.cpp:192-203 | every one of the eight corners of the box is in the list |
| Shapes.BoxDistinct | src/math_util.cpp:192-203 | for non-zero sizes the eight corners are pairwise distinct |
| Shapes.GenerateParabola | src/math_util.cpp:205-210 | one output per input, output `i` being `a x^2 + b x + c` at input `i`, with defaults `a = 1, b = 0, c = 0` |
| Shapes.QuadraticSymmetric | src/math_util.cpp:205-210 | the sampled parabola is symmetric about its axis `x = -b / 2a` |
| Shapes.ConvertToPoint2 | src/math_util.cpp:383-389 | the points are the coordinates read in pairs, and flattening them gives back the coordinates |
| Arcs.ParabolaY | src/math_util.cpp:212-214 | computes the arc's height, defined when the focus is off the directrix; its meaning is stated by `ParabolaYEquidistant` and `ParabolaIsQuadratic` |
| Arcs.ParabolaYEquidistant | src/math_util.cpp:212-214 | a point is on the arc exactly when it is as far from the focus as from the directrix |
| Arcs.ParabolaIsQuadratic | src/math_util.cpp:212-214 | the arc is the quadratic `x^2/2e - (fx/e) x + fx^2/2e + (fy + dir)/2` with `e = fy - dir` |
| Arcs.ParabolaX | math_util.cpp:185-191 | computes the inverse height, the focus `x` when the focus is on the directrix; total, since the square root is unconstrained on a negative radicand; its meaning is stated by `ParabolaXOnArc` and `ParabolaXInverts` |
| Arcs.ParabolaXOnArc | math_util.cpp:185-191 | where the radicand is non-negative, the inverse lands on the arc at the requested height, to the right of the focus for the right branch and to the left otherwise |
| Arcs.ParabolaXInverts | math_util.cpp:185-191 | height followed by the inverse on the side of `x` returns `x` |
| Arcs.ParabolaSlope | math_util.cpp:209-213 | the slope is vertical exactly when the focus lies on the directrix |
| Arcs.SlopeIsDerivative | math_util.cpp:209-213 | the slope is the derivative of the arc's height: the height changes by `h` times the slope plus `h^2 / 2e` |
| Arcs.CoeffANonZero | src/math_util.cpp:226-228 | foci at different heights give a non-zero leading coefficient, so the division is defined |
| Arcs.HeightGap | src/math_util.cpp:226-231 | the difference of the two arcs' heights is minus `a x^2 - b x + c` |
| Arcs.QuadraticCollisionX | src/math_util.cpp:226-233 | computes the root `(b - sqrt(delta)) / 2a`, defined when the leading coefficient is non-zero; its meaning is stated by `CollisionIsRoot` and `QuadraticCollisionMeets` |
| Arcs.CollisionIsRoot | src/math_util.cpp:226-233 | the returned `x` is a root of `a x^2 - b x + c` when the discriminant is non-negative |
| Arcs.QuadraticCollisionMeets | src/math_util.cpp:226-233 | when the discriminant is non-negative, both arcs have the same height at the returned `x` |
| Arcs.MidpointMeets | src/math_util.cpp:224-225 | foci at equal heights meet halfway between them |
| Arcs.CollisionX | src/math_util.cpp:216-234 | computes the collision `x` through the source's four branches; its meaning is stated by `CollisionXMeets` |
| Arcs.CollisionXMeets | src/math_util.cpp:216-234 | a focus on the directrix gives that focus's `x`, the right focus checked first (both on it is excluded, as the source's assert does). Otherwise, when the foci are level or the discriminant is non-negative, both arcs have the same height at the result |
| Arcs.UnguardedCollisionX | math_util.cpp:197-207 | computes the older copy's root `(b - sqrt(delta)) / 2a`, defined when neither focus is on the directrix and the foci are at different heights; its meaning is stated by `UnguardedCollisionMeets` |
| Arcs.UnguardedCollisionMeets | math_util.cpp:197-207 | when the discriminant is non-negative, the unguarded copy's `x` is a root of `a x^2 - b x + c`, both arcs have the same height there, and the guarded copy with the foci in the opposite order gives the same `x` |
| Arcs.LineCollision | math_util.cpp:215-224 | the returned point lies on both lines, a vertical line included |
| Arcs.LineCollisionUnique | math_util.cpp:215-224 | it is the only point on both lines |
| Planar.InRect | src/math_util.cpp:246-251 | the half-open rectangle test; related to `in_bounds` by `InRectIsInBounds` and `RectSplit` |
| Planar.InBounds | src/math_util.cpp:281-286 | the half-open bounds test; related to `in_rect` by `InRectIsInBounds` |
| Planar.InRectIsInBounds | src/math_util.cpp:246-286 | `in_rect` and `in_bounds` on the corresponding bounds agree on every point |
| Planar.RectSplit | src/math_util.cpp:246-251 | cutting a rectangle in two puts each of its points in exactly one half (the tests are half-open) |
| Planar.Orientation | src/math_util.cpp:312-322 | after truncation to `int`, 0 stands for a cross value strictly between -1 and 1, 1 for one of at least 1, and 2 for one of at most -1 |
| Planar.OrientationSwap | src/math_util.cpp:312-322 | exchanging the first two points exchanges clockwise and counter-clockwise |
| Planar.OrientationRotate | src/math_util.cpp:312-322 | rotating the triple keeps its orientation |
| Planar.OrientationOfIntegerPoints | src/math_util.cpp:312-322 | on integer coordinates the result is the exact sign of the cross value |
| Planar.OrientationAgrees | src/math_util.cpp:316-321 | the truncating test agrees with the exact sign whenever the cross value is 0 or at least 1 in size |
| Planar.OnSegment | src/math_util.cpp:299-304 | the bounding-box test; what it decides is stated by `OnSegmentHoldsOnSegment` and `OnSegmentOnlyOnSegment` |
| Planar.OnSegmentHoldsOnSegment | src/math_util.cpp:299-304 | every point of a segment passes `on_segment`, whichever end is given first |
| Planar.OnSegmentOnlyOnSegment | src/math_util.cpp:299-304 | conversely, a point collinear with the two ends that passes `on_segment` lies on the segment, at a parameter between 0 and 1 |
| Planar.DoIntersect | src/math_util.cpp:327-354 | the test as written, on the truncating orientation: the general case, then the four collinear cases; its flaws are shown by `TruncationMissesCrossing` and `TruncationInventsCrossing` |
| Planar.ExactDoIntersect | src/math_util.cpp:327-354 | the same test on the exact sign of the cross value; what it decides is stated by `ExactDoIntersectIff` |
| Planar.DoIntersectSymmetric | src/math_util.cpp:327-354 | the answer does not depend on which segment is given first |
| Planar.TruncationMissesCrossing | src/math_util.cpp:327-354 | as written, the test answers false for two segments that cross at `(0.5, 0)` |
| Planar.TruncationInventsCrossing | src/math_util.cpp:312-354 | as written, the test answers true for the disjoint segments `(0,0)-(10,0)` and `(0.05,0.05)-(0.05,1)`, which the exact test rejects |
| Planar.ExactDoIntersectSound | src/math_util.cpp:327-354 | with the exact orientation, a true answer means the two segments share a point |
| Planar.ExactDoIntersectComplete | src/math_util.cpp:327-354 | with the exact orientation, any two segments that share a point (crossing, touching or overlapping) are reported |
| Planar.ExactDoIntersectIff | src/math_util.cpp:327-354 | with the exact orientation, the test answers true exactly when the two closed segments share a point |
| Planar.Circumcenter | src/math_util.cpp:357-366 | computes the circumcentre, defined when `D` is non-zero; its meaning is stated by `CircumcenterEquidistant` |
| Circumcircle.CircumcenterEquidistant | src/math_util.cpp:357-366 | for a non-degenerate triangle the returned point is equally far from all three corners |
| Circumcircle.CircumRotate | src/math_util.cpp:358-364 | rotating the corners changes neither the numerators nor `D` |
| Circumcircle.CircumcenterOfRightTriangle | src/math_util.cpp:357-366 | the triangle `(0,0), (2,0), (0,2)` has `D = 8` and circumcentre `(1, 1)` |
| Traversal.PreOrder | include/utils/graph_traversal.h:37-42 | the trace of the recursive walk; stated by `PreOrderSize` and `PreOrderChild` |
| Traversal.PreOrderSize | include/utils/graph_traversal.h:37-42 | the recursive walk visits each node once, starting at the root |
| Traversal.PreOrderChild | include/utils/graph_traversal.h:37-42 | the recursive walk visits the root, then each child's subtree as one block, in child order |
| Traversal.LevelOrder | include/utils/graph_traversal.h:44-61 | the trace of the layered walk; stated by `TraverseTree` and `LevelOrderPermutesPreOrder` |
| Traversal.TraverseTree | include/utils/graph_traversal.h:44-61 | the walk visits the root, then every layer in order, each layer in the order of its parents and then of the children |
| Traversal.VisitLayer | include/utils/graph_traversal.h:51-59 | one round visits the layer in order and collects the next layer, in order |
| Traversal.LevelOrderPermutesPreOrder | include/utils/graph_traversal.h:37-61 | the layered walk visits the same nodes, as often, as the recursive walk: one visit per node |
| Traversal.PrunedOrder | include/utils/graph_traversal.h:63-80 | the trace of the predicate walk; stated by `TraverseTreeWithPredicate`, `PrunedOrderAllKept` and `PrunedOrderIsLevelOrderOfPrune` |
| Traversal.TraverseTreeWithPredicate | include/utils/graph_traversal.h:63-80 | the walk visits the root; if `op` accepts it, the walk then visits every layer in turn, where the next layer holds only the children of the nodes `op` accepted |
| Traversal.VisitPrunedLayer | include/utils/graph_traversal.h:70-78 | one round visits every node of the layer and collects the children of the accepted ones only |
| Traversal.PrunedRootRejected | include/utils/graph_traversal.h:64-66 | when `op` rejects the root, only the root is visited |
| Traversal.PrunedOrderAllKept | include/utils/graph_traversal.h:63-80 | when `op` accepts every node, the predicate walk is the plain layered walk |
| Traversal.PrunedOrderIsLevelOrderOfPrune | include/utils/graph_traversal.h:63-80 | the predicate walk is the layered walk of the tree cut below every rejected node; it visits that tree's nodes once each |
| Traversal.Walk | include/utils/graph_traversal.h:82-100 | the do-while loop shared by both list walks returns the chain of links from the start node, to the node with no link |
| Traversal.ForwardTraverseList | include/utils/graph_traversal.h:82-90 | the walk visits the head, then each node's `next`, until there is none; no node is visited twice |
| Traversal.BackwardTraverseList | include/utils/graph_traversal.h:92-100 | the same from the tail along `previous()` |
| Traversal.ChainUnique | include/utils/graph_traversal.h:82-100 | the visited sequence is determined by the start node |
| Traversal.BackwardIsReversedForward | include/utils/graph_traversal.h:82-100 | in a doubly linked list the backward walk from the tail is the forward walk from the head, reversed |

## Left out

- `generate_sphere` and `generate_cylinder` (floating-point angle loops over `sin`/`cos`), `check_overflow`, `query_closest` (a CGAL k-d tree search), `generate_points` and `uniform_random` (randomness), the hashing helpers and the file utilities are not part of this model. Neither are `graph_poly.h`, `concepts.h`, `macros.h` and `util.h`.
- Bezier.BezierDeCasteljau, Bezier.DeCasteljauCurve, Bezier.GenerateBezierCurve, Bezier.GenerateBezierCurve2, Bezier.GenerateBezierCurve3, BezierPolynomial.BezierPolynomial: the sampling loop `while (t < 1.0) ... t += step_size` (src/math_util.cpp:117, 149) is modelled only for `step > 0`. With a step of 0 or below, the source never leaves the loop, so those inputs are excluded by a precondition, and for the wrappers only when sampling happens (more than two points or coordinates). The step-size bound is also what makes the model's loop terminate.
- Bezier.BezierDeCasteljau, Bezier.DeCasteljauCurve, Bezier.Kernel, Bezier.GenerateBezierCurve: the de Casteljau path is modelled only for `dimension >= 1` and a coordinate count that is a whole, non-zero number of points (`IsPolygon`). With `dimension == 0`, the kernel's `i += dimension` loop (src/math_util.cpp:163) never advances and the source does not terminate. With a ragged count, the kernel reads `points[i + dimension + j]` past the end (src/math_util.cpp:165). With fewer than `dimension` coordinates, copying the first point (src/math_util.cpp:147) reads past the end. All three are undefined behaviour, not modelled.
- BezierPolynomial.BezierPolynomial, BezierPolynomial.PolyCurve: `dimension == 0` divides by zero (src/math_util.cpp:114) and fewer than `dimension` coordinates read past the end (src/math_util.cpp:113); both are excluded by a precondition. A ragged coordinate count is modelled as the source handles it.
- The `BEZIER_POLYNOMIAL` branch of the generic `generate_bezier_curve` names identifiers that do not exist, so only the de Casteljau dispatch is modelled. `bezier_polynomial` itself is modelled on its own.
- Floating point: coordinates are reals, so rounding, overflow to infinity and NaN are not modelled. The accumulated `t += step` is modelled as the exact `j * step`, so the extra sample the source can take just below `t = 1` (see above) is not modelled. Neither is a step so small that `t += step` leaves `t` unchanged in floating point, where the source loops forever.
- Division by zero, which yields infinity or NaN in the source, is excluded by preconditions: `ParabolaY`, `CoeffA`/`CoeffB`/`CoeffC`, `QuadraticCollisionX` and `UnguardedCollisionX` (foci at different heights, off the directrix), `CollisionX` (not both foci on the directrix), `Circumcenter`, and `compute_line_collision` with equal slopes.
- Arcs.ParabolaX, Arcs.QuadraticCollisionX, Arcs.CollisionX, Arcs.UnguardedCollisionX: the square root of a negative radicand or discriminant is not excluded. The source then yields NaN; the model returns a value built from the parameter square root at that argument, about which nothing is known. Only the lemmas (`ParabolaXOnArc`, `CollisionIsRoot`, `QuadraticCollisionMeets`, `CollisionXMeets`, `UnguardedCollisionMeets`) assume a non-negative argument, and they say nothing about the other case.
- The square root is a parameter: any function that is a non-negative square root on the non-negative reals.
- Binomial.BinomialTable.Coeff: table entries are unbounded integers. The source's 32-bit `int` overflows from row 34 on (C(34, 17) = 2333606220), and that overflow is not modelled.
- Binomial.BinomialTable.Coeff: the source frees each new row with `delete[]` just after storing its pointer, so later reads go through a dangling pointer. The model keeps every row as built, which is evidently what is meant.
- Planar.Orientation: the conversion of the `float` cross value to `int` is modelled as truncation toward zero. Values beyond the range of `int` (undefined behaviour in C++) are not modelled.
- Traversal.TraverseTree: the loop that copies the root's children into a vector is modelled as one assignment.
- Traversal: trees are values, so the node pointers and their identity are not modelled, and `op` is recorded as a trace of visited items. In `traverse_tree_with_predicate`, `op` is a pure predicate on nodes: its side effects are not modelled, and neither is an answer that changes between calls.
- Traversal.ForwardTraverseList, Traversal.BackwardTraverseList: `next()`/`previous()` are maps from node to node, where a missing key stands for `nullptr`. The list must be finite and acyclic (the source loops forever otherwise). That is stated as the existence of a chain from the start node.

## Findings

| source | as written | input that shows it | evidently intended | confidence | as-written member | corrected member |
|---|---|---|---|---|---|---|
| src/math_util.cpp:312-322 | `orientation` stores the `float` cross value in an `int`, so any value strictly between -1 and 1 is reported as collinear; `do_intersect` (327-354) then misses crossings of short or nearly parallel segments and reports some disjoint segments as crossing | missed crossing: segments `(0,0)-(1,0)` and `(0.5,-0.25)-(0.5,0.25)` cross at `(0.5, 0)`, yet every cross value is ±0.25, all four orientations are 0, no box test passes, and `do_intersect` returns false. Invented crossing: `(0,0)-(10,0)` and `(0.05,0.05)-(0.05,1)` are disjoint, yet the cross values -0.5, -10, -0.0475 and 9.4525 truncate to orientations 0, 2, 0 and 1, the general case fires, and `do_intersect` returns true | take the sign of the exact cross value, so that the test answers true exactly when the segments share a point | not executed | Planar.TruncationMissesCrossing, Planar.TruncationInventsCrossing | Planar.ExactDoIntersectIff |
