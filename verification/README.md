# Planar geometry primitives and the divide-and-conquer convex hull

This project models two parts of a computational-geometry library:

- The geometric primitives of `geometry/plane.py`: points, segments, triangles and lines in general form `a*x + b*y + c = 0`.
- The divide-and-conquer convex hull of `geometry/algorithms.py`.

Coordinates are exact reals.

Module layout:

- `wrappers.dfy`: the `Option` and `Result` types.
  - A Python `None` result becomes `None`.
  - A raised exception becomes `Err`.
- `plane.dfy` (module `Plane`): the primitives, as pure functions and lemmas.
  - Python's point equality compares coordinates only (`PointEquals`).
  - A Python `set` of points is modelled as a set of coordinate pairs, because set membership goes through that equality.
  - Python's `hash` is a `Hasher`. It stands for any pair of hash functions, one for floats and one for float pairs, into 64-bit words, and it is combined with XOR as the source does.
- `hull.dfy` (module `HullAlgorithms`): the tangent walk `find_tangent_point`, the common tangents, `upper_hull`/`lower_hull` and `convex_hull`.
  - The upper and lower copies of the code differ only in the comparison lambdas they pass. They are modelled once, with a `Chain` tag and a `Comparator` tag standing for the lambdas.
  - `find_tangent_point` need not terminate, so it takes fuel. Running out of fuel (`OutOfFuel`) stands for Python's `RecursionError`.
  - `ZeroDivisionError` and `IndexError` are the `ZeroDivision` and `IndexOutOfRange` errors.
  - `convex_hull` is a method on an array, because it sorts the caller's list in place.

The main results:

- A walk started as the source starts it, with the pivot weakly on one side of the polygon in x, always stops within `|polygon|` steps (`WalkFromStartFinishes`). This rests on the two comparisons of each walk being one strict and one non-strict comparison in the same direction (`NoMutualImprovement`).
- On the sorted list, `convex_hull` therefore never exhausts the fuel `|points|`. Its result is the one unbounded recursion would give.
- Its only possible failure is division by zero, and with distinct x-coordinates it cannot fail at all (`ConvexHull`).
- Division by zero does happen on distinct points when the two halves of the list share an x-coordinate (`SharedAbscissaDividesByZero`).
- A pivot that lies between the polygon's points in x can make the walk loop for ever (`WalkCanLoop`).
- The upper and lower hulls are subsequences of their input, keep its end points and never raise `IndexError`. The final hull keeps only input points.
- `convex_hull` returns `[]` for zero or one point, and both points in x order for two (`uh[:-1] + lh[::-1][:-1]`); it does not return up to two points unchanged (`HullOfFewPoints`).
- The in-place sort is stable: points with equal x keep their input order (`SortByXIsStable`). The hull depends on that order.

## Model

| member | source | states |
|---|---|---|
| Plane.Dot | geometry/plane.py:23-25 | `p * q`; its properties are `DotCommutes` |
| Plane.PointEquals | geometry/plane.py:27-29 | `p == q`; its properties are `PointEqualsIsCoordinateEquality` and `PointHashRespectsEquality` |
| Plane.PointHash | geometry/plane.py:31-33 | `hash(p)`; consistent with equality by `PointHashRespectsEquality` |
| Plane.PointEqualsIsCoordinateEquality | geometry/plane.py:27-29 | points are equal exactly when their coordinate pairs are; the canvas handle plays no part |
| Plane.DotCommutes | geometry/plane.py:23-25 | the dot product is symmetric, `p * p` is non-negative, and it is zero only for the origin |
| Plane.Midpoint | geometry/plane.py:39-41 | the midpoint is equidistant from both points, at half their distance, and carries no canvas handle |
| Plane.MidpointIsSymmetric | geometry/plane.py:39-41 | the midpoint does not depend on the order of the two points, and the midpoint of a point with itself is that point |
| Plane.PointHashRespectsEquality | geometry/plane.py:27-33 | equal points have equal hashes |
| Plane.NewSegment | geometry/plane.py:51-56 | the constructor raises exactly when the end points are equal; otherwise it keeps them in order |
| Plane.SegmentEquals | geometry/plane.py:58-60 | `s == o`; characterised by `SegmentEqualsIffSameEndPoints` and `SegmentEqualsIgnoresOrder` |
| Plane.SegmentHash | geometry/plane.py:62-64 | `hash(s)`; consistent with equality by `SegmentHashOfEndPoints` and `SegmentHashRespectsEquality` |
| Plane.SegmentEqualsIffSameEndPoints | geometry/plane.py:58-60 | for valid segments, equality holds exactly when the end points match, in either order |
| Plane.SegmentHashOfEndPoints | geometry/plane.py:62-64 | segments whose end points match in either order hash alike |
| Plane.SegmentEqualsIgnoresOrder | geometry/plane.py:58-64 | `Segment(p, q)` equals `Segment(q, p)`, and the two hash alike |
| Plane.SegmentHashRespectsEquality | geometry/plane.py:58-64 | equality of valid segments is symmetric, and equal segments hash alike |
| Plane.TriangleEquals | geometry/plane.py:100-103 | `t == o`; characterised by `TriangleEqualsIsInclusion`, `TriangleEqualsIffSameVertices` and `TriangleEqualsIgnoresOrder` |
| Plane.TriangleHash | geometry/plane.py:105-107 | `hash(t)`; its properties are `TriangleHashOfReordering`, `TriangleHashRespectsEquality` and `RepeatedVertexBreaksHashContract` |
| Plane.TriangleEqualsIsInclusion | geometry/plane.py:100-103 | triangle equality is inclusion of the first vertex set in the second |
| Plane.TriangleHashOfReordering | geometry/plane.py:105-107 | triangles with the same vertices, matched one to one in any order, hash alike |
| Plane.TriangleEqualsIgnoresOrder | geometry/plane.py:100-107 | rotating or swapping the vertices gives an equal triangle, equal in both directions, with an equal hash |
| Plane.RepeatedVertexBreaksHashContract | geometry/plane.py:94-107 | with a repeated vertex, two triangles can be equal both ways yet hash differently, and equality can hold one way only |
| Plane.NewTriangle | geometry/plane.py:94-98 | a constructor that accepts exactly three distinct vertices, as the class documentation requires |
| Plane.TriangleEqualsIffSameVertices | geometry/plane.py:100-103 | for triangles with distinct vertices, equality means the same vertices matched one to one |
| Plane.TriangleHashRespectsEquality | geometry/plane.py:100-107 | for triangles with distinct vertices, equality is symmetric and equal triangles hash alike |
| Plane.Barycentric | geometry/plane.py:120-124 | `d`, `s` and `t` of `strictly_contains`; identified as orientations by `BarycentricIsOrientation` |
| Plane.BarycentricIsOrientation | geometry/plane.py:120-124 | `d`, `s` and `t` are the orientations of the triangle and of the point against two of its edges |
| Plane.StrictlyContains | geometry/plane.py:113-125 | no vertex is strictly inside, and a degenerate triangle (`d == 0`) contains no point |
| Plane.StrictlyContainsIffInsideEveryEdge | geometry/plane.py:113-125 | the barycentric test holds exactly when the point lies strictly on the inner side of all three edges |
| Plane.SharesPoint | geometry/plane.py:127-130 | the test holds exactly when the two vertex sets intersect |
| Plane.SharesPointIsSymmetric | geometry/plane.py:127-130 | `shares_point` is symmetric |
| Plane.Line.Slope | geometry/plane.py:141 | the slope is undefined exactly when `b == 0`; otherwise `slope * b == -a` |
| Plane.Contains | geometry/plane.py:196-198 | `Line.contains`; it holds exactly for the points collinear with the two defining points (`FromTwoPointsHoldsCollinearPoints`), never for a point the line is strictly below (`IsStrictlyBelow`), and for both lines at their intersection only (`Intersection`, `IntersectionIsUnique`) |
| Plane.FromTwoPoints | geometry/plane.py:147-156 | raises exactly on equal points; gives `(1, 0, -x)` for equal x and `b == -1` otherwise; the line contains both points and is well formed |
| Plane.FromTwoPointsHoldsCollinearPoints | geometry/plane.py:147-156 | the line through two distinct points contains exactly the points collinear with them |
| Plane.MidpointIsOnChord | geometry/plane.py:39-41 | the midpoint of two distinct points lies on the line through them |
| Plane.IsStrictlyBelow | geometry/plane.py:189-194 | false for every point on the line; otherwise the sign of `a*x + b*y + c` decides it, in both branches |
| Plane.BelowChordIffLeftTurn | geometry/plane.py:189-194 | the line through `p1` and `p2`, with `p1.x < p2.x`, is strictly below `q` exactly when `p1 p2 q` turns left |
| Plane.Intersection | geometry/plane.py:200-208 | none exactly when the slopes are equal; otherwise the point lies on both lines |
| Plane.IntersectionIsUnique | geometry/plane.py:200-208 | every point on both lines equals the computed intersection |
| Plane.WellFormedLinesIntersectSafely | geometry/plane.py:204-208 | for lines with `(a, b) != (0, 0)`, different slopes give a non-zero determinant and a non-zero `a` |
| Plane.OrthogonalLine | geometry/plane.py:166-175 | none exactly when the point is off the line; otherwise the result contains the point, is well formed and has a perpendicular normal |
| HullAlgorithms.Holds | geometry/algorithms.py:19-21 | the four comparison lambdas `w > z`, `w >= z`, `w < z`, `w <= z` (also lines 39-41) |
| HullAlgorithms.FirstWalk | geometry/algorithms.py:18-19 | the lambdas of the walk over `hull_2`: `>`, `>=` for the upper tangent, `<=`, `<` for the lower (lines 38-39); their pairing is `WalksAreComplementary` |
| HullAlgorithms.SecondWalk | geometry/algorithms.py:20-21 | the lambdas of the walk over `hull_1`: `>=`, `>` for the upper tangent, `<`, `<=` for the lower (lines 40-41); their pairing is `WalksAreComplementary` |
| HullAlgorithms.ChordTest | geometry/algorithms.py:10-16 | `comp(q.y, m * q.x + b)` for the line through the pivot and `polygon[t_point]`; its sign is an orientation (`ChordGap`, `NoMutualImprovement`) |
| HullAlgorithms.WalksAreComplementary | geometry/algorithms.py:18-41 | each of the four walks gets one strict and one non-strict comparison in the same direction |
| HullAlgorithms.FindTangentPoint | geometry/algorithms.py:6-17 | a returned index is inside the polygon and within one place of the starting window; a middle index past the end (an empty polygon) raises `IndexError` instead (see `WalkStaysInRange`, `WalkStopsSettled`) |
| HullAlgorithms.TangentStep | geometry/algorithms.py:9-17 | one call of the walk returns an index inside the polygon and within one place of its window |
| HullAlgorithms.WalkStopsSettled | geometry/algorithms.py:12-17 | the walk returns only a point whose x differs from the pivot's and neither of whose neighbours passes its comparison |
| HullAlgorithms.WalkStaysInRange | geometry/algorithms.py:9-17 | started on a window that begins inside the polygon, as both tangents start it on a non-empty hull, the walk never raises `IndexError` at line 10 |
| HullAlgorithms.WalkAvoidsZeroDivision | geometry/algorithms.py:10 | when no point shares the pivot's x, the walk never divides by zero |
| HullAlgorithms.FindTangentPointFuelIsEnough | geometry/algorithms.py:6-17 | once the walk returns, more fuel returns the same result |
| HullAlgorithms.WalkCanLoop | geometry/algorithms.py:12-16 | with the pivot between the points in x, the walk recurses on an unchanged window and runs out of any fuel |
| HullAlgorithms.NoMutualImprovement | geometry/algorithms.py:12-16 | with the pivot strictly to one side, two neighbours cannot both pass their comparisons against each other |
| HullAlgorithms.StepLeft | geometry/algorithms.py:12-13 | moving to the left half keeps the walk invariant and narrows the window |
| HullAlgorithms.StepRight | geometry/algorithms.py:14-16 | moving to the right half keeps the walk invariant and narrows the window |
| HullAlgorithms.WalkFinishes | geometry/algorithms.py:6-17 | under the walk invariant, the walk never runs out of fuel |
| HullAlgorithms.WalkFromStartFinishes | geometry/algorithms.py:18-21 | started on `(0, len)` with the pivot weakly on one side, the walk stops within `len` steps |
| HullAlgorithms.CommonTangent | geometry/algorithms.py:5-22 | both returned indices are inside their hulls (both tangents, lines 5-22 and 25-42) |
| HullAlgorithms.CommonTangentIndexError | geometry/algorithms.py:18-20 | the tangent raises `IndexError` exactly when a hull is empty: `hull_1[len(hull_1) // 2]` for the first, `polygon[t_point]` of the first walk for the second (once that walk is entered) |
| HullAlgorithms.CommonTangentIsSettled | geometry/algorithms.py:18-21 | the second walk pivots on the point the first walk found, and both stop where neither neighbour passes its comparison |
| HullAlgorithms.CommonTangentFuelIsEnough | geometry/algorithms.py:18-21 | once the tangent returns, more fuel returns the same result |
| HullAlgorithms.CommonTangentFinishes | geometry/algorithms.py:18-22 | hulls side by side in x fail only by division by zero, and not at all when strictly apart |
| HullAlgorithms.Hull | geometry/algorithms.py:45-70 | `upper_hull` / `lower_hull`; its properties are `HullOfFewPointsIsIdentity`, `HullShape`, `HullIsSubsequence`, `HullKeepsSortedness`, `HullKeepsInputPoints`, `HullFuelIsEnough` and `HullFinishes` |
| HullAlgorithms.MergeHalves | geometry/algorithms.py:52-56 | the recursive case: the hulls of `points[:n // 2]` and `points[n // 2:]`, joined (also lines 66-70); see `HullShape`, `HullIsSubsequence` |
| HullAlgorithms.Merge | geometry/algorithms.py:55-56 | `hull_1[:q1 + 1] + hull_2[q2:]` at the common tangent (also lines 69-70); its properties are `MergeShape`, `SpliceIsSubsequence`, `MergeFuelIsEnough` and `MergeFinishes` |
| HullAlgorithms.HullOfFewPointsIsIdentity | geometry/algorithms.py:46-48 | up to two points are returned unchanged (also `lower_hull`, lines 60-62) |
| HullAlgorithms.HullShape | geometry/algorithms.py:45-70 | the hull never grows, keeps the first and last input points and at least two of two or more, and never raises `IndexError` |
| HullAlgorithms.MergeShape | geometry/algorithms.py:55-56 | joining two non-empty hulls keeps the left one's first point and the right one's last, and never raises `IndexError` |
| HullAlgorithms.SpliceEnds | geometry/algorithms.py:56 | `hull_1[:q1 + 1] + hull_2[q2:]` has at least two points and at most both hulls' points, and starts and ends as the hulls do |
| HullAlgorithms.HullIsSubsequence | geometry/algorithms.py:45-70 | the hull is a subsequence of its input |
| HullAlgorithms.SpliceIsSubsequence | geometry/algorithms.py:56 | a prefix of the left hull joined to a suffix of the right hull is a subsequence of the whole list |
| HullAlgorithms.HullKeepsSortedness | geometry/algorithms.py:45-70 | an x-sorted input gives an x-sorted hull |
| HullAlgorithms.HullKeepsInputPoints | geometry/algorithms.py:45-70 | every vertex of an upper or lower hull is an input point |
| HullAlgorithms.HalvesKeepSortedness | geometry/algorithms.py:52-53 | both halves of an (strictly) x-sorted list are (strictly) x-sorted |
| HullAlgorithms.HalvesAreApart | geometry/algorithms.py:52-53 | subsequences of the two halves of an x-sorted list lie side by side in x, strictly so when the x are distinct |
| HullAlgorithms.HullFuelIsEnough | geometry/algorithms.py:45-70 | once the hull returns, more fuel returns the same result |
| HullAlgorithms.MergeFuelIsEnough | geometry/algorithms.py:55-56 | once the join returns, more fuel returns the same result |
| HullAlgorithms.HullFinishes | geometry/algorithms.py:45-70 | on an x-sorted list with fuel `len`, the only failure is division by zero; with distinct x there is none |
| HullAlgorithms.MergeFinishes | geometry/algorithms.py:55-56 | joining hulls side by side in x fails only by division by zero, and not at all when strictly apart |
| HullAlgorithms.InsertByX | geometry/algorithms.py:74 | one insertion step of the sort by x; its properties are `InsertByXPermutes`, `InsertByXKeepsSortedness`, `InsertByXSplits` and `InsertByXKeepsColumns` |
| HullAlgorithms.SortByX | geometry/algorithms.py:74 | `sort(key=lambda p: p.x)` as a function; its properties are `SortByXSortsAndPermutes`, `SortByXIsStable` and `SortByXOfSortedIsIdentity` |
| HullAlgorithms.InsertByXPermutes | geometry/algorithms.py:74 | inserting a point adds exactly that point |
| HullAlgorithms.InsertByXKeepsSortedness | geometry/algorithms.py:74 | inserting into an x-sorted list keeps it x-sorted |
| HullAlgorithms.SortByXSortsAndPermutes | geometry/algorithms.py:74 | sorting by x gives an x-sorted permutation of the list |
| HullAlgorithms.SortByXOfSortedIsIdentity | geometry/algorithms.py:74 | a list already sorted by x is left unchanged |
| HullAlgorithms.InsertByXSplits | geometry/algorithms.py:74 | insertion places the point right after the last element whose x is at most its own |
| HullAlgorithms.InsertByXKeepsColumns | geometry/algorithms.py:74 | insertion appends the point to the points of equal x and leaves the order of every group of equal x unchanged |
| HullAlgorithms.SortByXIsStable | geometry/algorithms.py:74 | for every x-value, the points with that x appear in the sorted list in their input order, as `list.sort` guarantees |
| HullAlgorithms.InsertIntoSortedPrefix | geometry/algorithms.py:74 | one pass of the in-place sort inserts `a[i]` into the sorted prefix and leaves the rest of the array alone |
| HullAlgorithms.SortInPlaceByX | geometry/algorithms.py:74 | the array ends up as `SortByX` of its old contents, so x-sorted, a permutation (`SortByXSortsAndPermutes`) and stable (`SortByXIsStable`) |
| HullAlgorithms.ReverseIsInvolution | geometry/algorithms.py:76 | `lh[::-1]` reversed again is `lh` |
| HullAlgorithms.ReversePermutes | geometry/algorithms.py:76 | `lh[::-1]` holds the same points as `lh`, with the same multiplicities |
| HullAlgorithms.HullOfSorted | geometry/algorithms.py:75-76 | lines 75-76 on the sorted list; its properties are `HullOfSortedShape`, `HullOfSortedKeepsInputPoints`, `HullOfFewPoints` and `SharedAbscissaDividesByZero` |
| HullAlgorithms.HullOfSortedShape | geometry/algorithms.py:75-76 | for two or more points the hull starts at the leftmost point and passes through the rightmost; it has at most `2n - 2` vertices and never raises `IndexError` |
| HullAlgorithms.HullOfSortedKeepsInputPoints | geometry/algorithms.py:75-76 | every vertex of the convex hull is an input point |
| HullAlgorithms.HullOfFewPoints | geometry/algorithms.py:75-76 | zero or one point gives `[]`, and two points give both, in x order |
| HullAlgorithms.SharedAbscissaDividesByZero | geometry/algorithms.py:73-76 | the distinct, x-sorted points `(0,0), (1,0), (1,1), (2,0)` make the hull raise `ZeroDivisionError` |
| HullAlgorithms.UpperWalkDividesByZero | geometry/algorithms.py:9-13 | the walk that raises it: it steps onto a point straight above its pivot |
| HullAlgorithms.ConvexHull | geometry/algorithms.py:73-76 | the caller's array becomes its stable sort by x, an x-sorted permutation of the old contents; the result never exhausts the fuel `len`, fails only by division by zero, and cannot fail when the x-coordinates are distinct |

## Left out

- Floating-point rounding: coordinates are exact reals, and every comparison and division is exact.
- Concrete hash values: Python's `hash` of floats and pairs is any function into 64-bit words (`Hasher`). The XOR combinations are modelled exactly.
- `Point.distance_to`, `Line.distance_to`, `Line.from_ray`, `Ray` and `Circle`: they use square roots, `tan` or `pi`. Only the squared distance appears, in `Midpoint`'s contract.
- `__str__`, and the `isinstance` checks of the `__eq__` methods: every comparison is between values of the same type.
- `geometry/point.py` and `gui/application.py`: a bare record with string conversion, and the Tkinter user interface. The canvas handle survives as `Point.canvasId`.
- Python's `RecursionError`: the tangent walk and the hulls are bounded by fuel, and `OutOfFuel` marks exhaustion. For the fuel `len(points)` that `ConvexHull` uses, the walks provably never run out, so the fuel hides nothing there.
- Evaluation order inside `upper_hull`/`lower_hull`: `Merge` receives both halves' results and reports the left one's error first, as Python, which stops at the first exception, does. The functions are pure, so evaluating the right half anyway changes nothing.
- `Line.__init__`: lines are plain triples; `WellFormed` states the `(a, b) != (0, 0)` normalisation, which the source does not enforce.
- Preconditions on divisions:
  - `Plane.IsStrictlyBelow` requires `a != 0` for a vertical line, because the source divides by `a`.
  - `Plane.Intersection` requires a non-zero determinant and a non-zero `a` when the slopes differ, for the same reason. `WellFormedLinesIntersectSafely` shows that every pair of well-formed lines meets this requirement.

## Findings

| source | as written | input that shows it | evidently intended | confidence | as-written member | corrected member |
|---|---|---|---|---|---|---|
| geometry/plane.py:94-107 | `Triangle` accepts repeated vertices. `__eq__` is one-sided inclusion of vertex sets, and `__hash__` XORs the three vertex hashes. | `Triangle(a, a, b)` and `Triangle(a, b, b)` are equal both ways but hash to `hash(b)` and `hash(a)`. `Triangle(a, a, b) == Triangle(a, b, c)` holds while the converse does not. | A triangle of three distinct points, as the class documentation says, rejected like `Segment` rejects coincident end points. Equality is then symmetric and consistent with the hash. | not executed | Plane.RepeatedVertexBreaksHashContract | Plane.TriangleHashRespectsEquality |
