/** The divide-and-conquer convex hull: upper and lower hulls of an x-sorted
    point list, merged through common tangents found by a bisection walk. */
module HullAlgorithms {
  import opened Wrappers
  import opened Plane

  // ---------------------------------------------------------------------
  // Sequences of points

  predicate SortedByX(s: seq<Point>) {
    forall i, j :: 0 <= i < j < |s| ==> s[i].x <= s[j].x
  }

  predicate StrictlySortedByX(s: seq<Point>) {
    forall i, j :: 0 <= i < j < |s| ==> s[i].x < s[j].x
  }

  /** `f` lists, in increasing order, positions of `b` that hold the
      elements of `a`. */
  ghost predicate Embedding<T>(f: seq<int>, a: seq<T>, b: seq<T>) {
    && |f| == |a|
    && (forall i :: 0 <= i < |f| ==> 0 <= f[i] < |b| && a[i] == b[f[i]])
    && (forall i, j :: 0 <= i < j < |f| ==> f[i] < f[j])
  }

  /** `a` is obtained from `b` by deleting elements. */
  ghost predicate IsSubsequence<T>(a: seq<T>, b: seq<T>)
    decreases |b|
  {
    || |a| == 0
    || (&& |b| > 0
        && ((a[0] == b[0] && IsSubsequence(a[1..], b[1..])) || IsSubsequence(a, b[1..])))
  }

  /** Adds `d` to every position. */
  ghost function Shift(f: seq<int>, d: int): (g: seq<int>)
    ensures |g| == |f| && forall i :: 0 <= i < |f| ==> g[i] == f[i] + d
  {
    seq(|f|, i requires 0 <= i < |f| => f[i] + d)
  }

  lemma {:induction false} EmbeddingGivesSubsequence<T>(f: seq<int>, a: seq<T>, b: seq<T>)
    requires Embedding(f, a, b)
    ensures IsSubsequence(a, b)
    decreases |b|
  {
    if |a| > 0 {
      assert forall i :: 1 <= i < |f| ==> f[0] < f[i];
      if f[0] == 0 {
        var g := Shift(f[1..], -1);
        forall i | 0 <= i < |g| ensures 0 <= g[i] < |b[1..]| && a[1..][i] == b[1..][g[i]] {
          assert f[1..][i] == f[i + 1];
        }
        EmbeddingGivesSubsequence(g, a[1..], b[1..]);
      } else {
        var g := Shift(f, -1);
        EmbeddingGivesSubsequence(g, a, b[1..]);
      }
    }
  }

  lemma {:induction false} SubsequenceGivesEmbedding<T>(a: seq<T>, b: seq<T>) returns (f: seq<int>)
    requires IsSubsequence(a, b)
    ensures Embedding(f, a, b)
    decreases |b|
  {
    if |a| == 0 {
      f := [];
    } else if a[0] == b[0] && IsSubsequence(a[1..], b[1..]) {
      var g := SubsequenceGivesEmbedding(a[1..], b[1..]);
      f := EmbeddingOfMatch(g, a, b);
    } else {
      var g := SubsequenceGivesEmbedding(a, b[1..]);
      f := EmbeddingOfSkip(g, a, b);
    }
  }

  /** Matching the first elements extends an embedding of the tails. */
  lemma EmbeddingOfMatch<T>(g: seq<int>, a: seq<T>, b: seq<T>) returns (f: seq<int>)
    requires |a| > 0 && |b| > 0 && a[0] == b[0] && Embedding(g, a[1..], b[1..])
    ensures Embedding(f, a, b)
  {
    f := [0] + Shift(g, 1);
    forall i | 0 <= i < |f| ensures 0 <= f[i] < |b| && a[i] == b[f[i]] {
      if i > 0 {
        assert f[i] == g[i - 1] + 1 && a[i] == a[1..][i - 1];
      }
    }
  }

  /** Skipping the first element of `b` shifts an embedding by one. */
  lemma EmbeddingOfSkip<T>(g: seq<int>, a: seq<T>, b: seq<T>) returns (f: seq<int>)
    requires |b| > 0 && Embedding(g, a, b[1..])
    ensures Embedding(f, a, b)
  {
    f := Shift(g, 1);
  }

  lemma SubsequenceOfItself<T>(a: seq<T>)
    ensures IsSubsequence(a, a)
  {
    var f := seq(|a|, i => i);
    EmbeddingGivesSubsequence(f, a, a);
  }

  lemma SubsequenceMembers<T>(a: seq<T>, b: seq<T>)
    requires IsSubsequence(a, b)
    ensures forall i :: 0 <= i < |a| ==> a[i] in b
  {
    var f := SubsequenceGivesEmbedding(a, b);
    forall i | 0 <= i < |a| ensures a[i] in b {
      assert a[i] == b[f[i]];
    }
  }

  lemma SubsequenceOfPrefix<T>(a: seq<T>, b: seq<T>, k: nat)
    requires IsSubsequence(a, b) && k <= |a|
    ensures IsSubsequence(a[..k], b)
  {
    var f := SubsequenceGivesEmbedding(a, b);
    EmbeddingGivesSubsequence(f[..k], a[..k], b);
  }

  lemma SubsequenceOfSuffix<T>(a: seq<T>, b: seq<T>, k: nat)
    requires IsSubsequence(a, b) && k <= |a|
    ensures IsSubsequence(a[k..], b)
  {
    var f := SubsequenceGivesEmbedding(a, b);
    var g := f[k..];
    forall i | 0 <= i < |g| ensures 0 <= g[i] < |b| && a[k..][i] == b[g[i]] {
      assert g[i] == f[k + i] && a[k..][i] == a[k + i];
    }
    EmbeddingGivesSubsequence(g, a[k..], b);
  }

  lemma SubsequenceOfConcat<T>(a1: seq<T>, b1: seq<T>, a2: seq<T>, b2: seq<T>)
    requires IsSubsequence(a1, b1) && IsSubsequence(a2, b2)
    ensures IsSubsequence(a1 + a2, b1 + b2)
  {
    var f1 := SubsequenceGivesEmbedding(a1, b1);
    var f2 := SubsequenceGivesEmbedding(a2, b2);
    var g := EmbeddingOfConcat(f1, a1, b1, f2, a2, b2);
    EmbeddingGivesSubsequence(g, a1 + a2, b1 + b2);
  }

  /** Embeddings of two parts, the second shifted past `b1`, embed the
      concatenations. */
  lemma EmbeddingOfConcat<T>(f1: seq<int>, a1: seq<T>, b1: seq<T>, f2: seq<int>, a2: seq<T>, b2: seq<T>)
    returns (g: seq<int>)
    requires Embedding(f1, a1, b1) && Embedding(f2, a2, b2)
    ensures Embedding(g, a1 + a2, b1 + b2)
  {
    g := f1 + Shift(f2, |b1|);
    var a, b := a1 + a2, b1 + b2;
    forall i | 0 <= i < |g| ensures 0 <= g[i] < |b| && a[i] == b[g[i]] {
      if i < |f1| {
        assert g[i] == f1[i] && a[i] == a1[i];
      } else {
        assert g[i] == f2[i - |f1|] + |b1| && a[i] == a2[i - |f1|];
      }
    }
    forall i, j | 0 <= i < j < |g| ensures g[i] < g[j] {
      if j < |f1| {
        assert g[i] == f1[i] && g[j] == f1[j];
      } else if i < |f1| {
        assert g[i] == f1[i] && g[j] == f2[j - |f1|] + |b1|;
      } else {
        assert g[i] == f2[i - |f1|] + |b1| && g[j] == f2[j - |f1|] + |b1|;
      }
    }
  }

  /** Deleting points from an x-sorted list leaves it x-sorted. */
  lemma SubsequenceKeepsSortedness(a: seq<Point>, b: seq<Point>)
    requires IsSubsequence(a, b) && SortedByX(b)
    ensures SortedByX(a)
  {
    var f := SubsequenceGivesEmbedding(a, b);
    forall i, j | 0 <= i < j < |a| ensures a[i].x <= a[j].x {
      assert a[i] == b[f[i]] && a[j] == b[f[j]];
    }
  }

  // ---------------------------------------------------------------------
  // The tangent walk

  /** The comparisons the source passes to the walk as lambdas `w, z`. */
  datatype Comparator = Greater | AtLeast | Less | AtMost

  predicate Holds(c: Comparator, w: real, z: real) {
    match c
    case Greater => w > z
    case AtLeast => w >= z
    case Less => w < z
    case AtMost => w <= z
  }

  /** One strict and one non-strict comparison in the same direction. */
  predicate Complementary(c1: Comparator, c2: Comparator) {
    match (c1, c2)
    case (Greater, AtLeast) => true
    case (AtLeast, Greater) => true
    case (Less, AtMost) => true
    case (AtMost, Less) => true
    case _ => false
  }

  /** Which hull, and so which common tangent. */
  datatype Chain = Upper | Lower

  /** Comparators of the walk over the right hull, pivoting on the left one. */
  function FirstWalk(chain: Chain): (Comparator, Comparator) {
    match chain
    case Upper => (Greater, AtLeast)
    case Lower => (AtMost, Less)
  }

  /** Comparators of the walk over the left hull, pivoting on the right one. */
  function SecondWalk(chain: Chain): (Comparator, Comparator) {
    match chain
    case Upper => (AtLeast, Greater)
    case Lower => (Less, AtMost)
  }

  lemma WalksAreComplementary(chain: Chain)
    ensures Complementary(FirstWalk(chain).0, FirstWalk(chain).1)
    ensures Complementary(SecondWalk(chain).0, SecondWalk(chain).1)
  {
  }

  /** The exceptions the hull code can raise, and running out of fuel, which
      stands for unbounded recursion. */
  datatype HullError = ZeroDivision | IndexOutOfRange | OutOfFuel

  /** `comp(q.y, m * q.x + b)` for the line `y = m*x + b` through `pivot`
      and `through`. */
  predicate ChordTest(c: Comparator, pivot: Point, through: Point, q: Point)
    requires through.x != pivot.x
  {
    var m := (through.y - pivot.y) / (through.x - pivot.x);
    var b := pivot.y - m * pivot.x;
    Holds(c, q.y, m * q.x + b)
  }

  /** The arguments the walk accepts: the middle index it computes is never
      negative, though it may reach `n`. */
  predicate Span(begin: int, end: int, n: int) {
    0 <= begin <= end + 1 && 0 <= end <= n
  }

  /** The search windows the walk passes through when started on `(0, n)`
      with `n > 0`. */
  predicate Window(begin: int, end: int, n: int) {
    0 <= begin < n && 0 <= end <= n && begin <= end + 1
  }

  /** Neither neighbour of `t` passes its comparison: where the walk stops. */
  predicate Settled(pivot: Point, polygon: seq<Point>, t: nat, c1: Comparator, c2: Comparator)
    requires t < |polygon| && polygon[t].x != pivot.x
  {
    && !(t >= 1 && ChordTest(c1, pivot, polygon[t], polygon[t - 1]))
    && !(t + 1 < |polygon| && ChordTest(c2, pivot, polygon[t], polygon[t + 1]))
  }

  /** `find_tangent_point`. Each call spends one unit of fuel; the body of
      the call is `TangentStep`. */
  function FindTangentPoint(pivot: Point, begin: int, end: int, polygon: seq<Point>,
                            c1: Comparator, c2: Comparator, fuel: nat): (r: Result<nat, HullError>)
    requires Span(begin, end, |polygon|)
    ensures r.Ok? ==> r.value < |polygon| && begin <= r.value + 1 && r.value <= end
    decreases fuel, 0
  {
    if fuel == 0 then Err(OutOfFuel)
    else TangentStep(pivot, begin, end, polygon, c1, c2, fuel - 1)
  }

  /** One call of `find_tangent_point`: look at the middle of the window
      (`IndexError` past the end of the polygon, `ZeroDivisionError` straight
      above or below the pivot), recurse into the half whose neighbour passes
      its comparison, or stop. */
  function TangentStep(pivot: Point, begin: int, end: int, polygon: seq<Point>,
                       c1: Comparator, c2: Comparator, fuel: nat): (r: Result<nat, HullError>)
    requires Span(begin, end, |polygon|)
    ensures r.Ok? ==> r.value < |polygon| && begin <= r.value + 1 && r.value <= end
    decreases fuel, 1
  {
    var t := begin + (end - begin) / 2;
    if t >= |polygon| then Err(IndexOutOfRange)
    else if polygon[t].x == pivot.x then Err(ZeroDivision)
    else if t - 1 >= 0 && ChordTest(c1, pivot, polygon[t], polygon[t - 1]) then
      FindTangentPoint(pivot, begin, t, polygon, c1, c2, fuel)
    else if t + 1 < |polygon| && ChordTest(c2, pivot, polygon[t], polygon[t + 1]) then
      FindTangentPoint(pivot, t + 1, end, polygon, c1, c2, fuel)
    else
      Ok(t)
  }

  /** The walk stops only where neither neighbour passes its comparison,
      and only on a point whose x differs from the pivot's. */
  lemma {:induction false} WalkStopsSettled(pivot: Point, begin: int, end: int, polygon: seq<Point>,
                                            c1: Comparator, c2: Comparator, fuel: nat)
    requires Span(begin, end, |polygon|)
    requires FindTangentPoint(pivot, begin, end, polygon, c1, c2, fuel).Ok?
    ensures var t := FindTangentPoint(pivot, begin, end, polygon, c1, c2, fuel).value;
            polygon[t].x != pivot.x && Settled(pivot, polygon, t, c1, c2)
    decreases fuel
  {
    var t := begin + (end - begin) / 2;
    if t < |polygon| {
      if t - 1 >= 0 && ChordTest(c1, pivot, polygon[t], polygon[t - 1]) {
        WalkStopsSettled(pivot, begin, t, polygon, c1, c2, fuel - 1);
      } else if t + 1 < |polygon| && ChordTest(c2, pivot, polygon[t], polygon[t + 1]) {
        WalkStopsSettled(pivot, t + 1, end, polygon, c1, c2, fuel - 1);
      }
    }
  }

  /** Started on a window that begins inside the polygon, the walk's
      indices stay inside it: it never raises `IndexError`. */
  lemma {:induction false} WalkStaysInRange(pivot: Point, begin: int, end: int, polygon: seq<Point>,
                                            c1: Comparator, c2: Comparator, fuel: nat)
    requires Window(begin, end, |polygon|)
    ensures FindTangentPoint(pivot, begin, end, polygon, c1, c2, fuel) != Err(IndexOutOfRange)
    decreases fuel
  {
    if fuel > 0 {
      var t := begin + (end - begin) / 2;
      if polygon[t].x == pivot.x {
      } else if t - 1 >= 0 && ChordTest(c1, pivot, polygon[t], polygon[t - 1]) {
        WalkStaysInRange(pivot, begin, t, polygon, c1, c2, fuel - 1);
      } else if t + 1 < |polygon| && ChordTest(c2, pivot, polygon[t], polygon[t + 1]) {
        WalkStaysInRange(pivot, t + 1, end, polygon, c1, c2, fuel - 1);
      }
    }
  }

  /** The walk divides only by `polygon[t].x - pivot.x`, so it cannot fail
      that way when no point shares the pivot's x. */
  lemma {:induction false} WalkAvoidsZeroDivision(pivot: Point, begin: int, end: int, polygon: seq<Point>,
                                                  c1: Comparator, c2: Comparator, fuel: nat)
    requires Span(begin, end, |polygon|)
    requires forall p :: p in polygon ==> p.x != pivot.x
    ensures FindTangentPoint(pivot, begin, end, polygon, c1, c2, fuel) != Err(ZeroDivision)
    decreases fuel
  {
    if fuel > 0 {
      var t := begin + (end - begin) / 2;
      if t < |polygon| {
        assert polygon[t] in polygon;
        if t - 1 >= 0 && ChordTest(c1, pivot, polygon[t], polygon[t - 1]) {
          WalkAvoidsZeroDivision(pivot, begin, t, polygon, c1, c2, fuel - 1);
        } else if t + 1 < |polygon| && ChordTest(c2, pivot, polygon[t], polygon[t + 1]) {
          WalkAvoidsZeroDivision(pivot, t + 1, end, polygon, c1, c2, fuel - 1);
        }
      }
    }
  }

  /** Once the walk stops with fuel to spare, more fuel changes nothing. */
  lemma {:induction false} FindTangentPointFuelIsEnough(pivot: Point, begin: int, end: int, polygon: seq<Point>,
                                                          c1: Comparator, c2: Comparator, fuel: nat, more: nat)
    requires Span(begin, end, |polygon|)
    requires FindTangentPoint(pivot, begin, end, polygon, c1, c2, fuel) != Err(OutOfFuel)
    requires more >= fuel
    ensures FindTangentPoint(pivot, begin, end, polygon, c1, c2, more)
         == FindTangentPoint(pivot, begin, end, polygon, c1, c2, fuel)
    decreases fuel
  {
    var t := begin + (end - begin) / 2;
    assert fuel > 0;
    assert FindTangentPoint(pivot, begin, end, polygon, c1, c2, fuel)
        == TangentStep(pivot, begin, end, polygon, c1, c2, fuel - 1);
    assert FindTangentPoint(pivot, begin, end, polygon, c1, c2, more)
        == TangentStep(pivot, begin, end, polygon, c1, c2, more - 1);
    if t >= |polygon| || polygon[t].x == pivot.x {
    } else if t - 1 >= 0 && ChordTest(c1, pivot, polygon[t], polygon[t - 1]) {
      FindTangentPointFuelIsEnough(pivot, begin, t, polygon, c1, c2, fuel - 1, more - 1);
    } else if t + 1 < |polygon| && ChordTest(c2, pivot, polygon[t], polygon[t + 1]) {
      FindTangentPointFuelIsEnough(pivot, t + 1, end, polygon, c1, c2, fuel - 1, more - 1);
    }
  }

  /** A pivot that lies between the polygon's points can make the walk
      revisit its own state for ever: the window `(1, 1)` recurses on itself. */
  lemma WalkCanLoop(fuel: nat)
    ensures FindTangentPoint(Point(0.0, 0.0, None), 0, 2, [Point(1.0, 0.0, None), Point(-1.0, 1.0, None)],
                             Greater, AtLeast, fuel) == Err(OutOfFuel)
  {
    var pivot, polygon := Point(0.0, 0.0, None), [Point(1.0, 0.0, None), Point(-1.0, 1.0, None)];
    if fuel >= 1 {
      assert ChordTest(Greater, pivot, polygon[1], polygon[0]);
      assert FindTangentPoint(pivot, 0, 2, polygon, Greater, AtLeast, fuel)
          == FindTangentPoint(pivot, 0, 1, polygon, Greater, AtLeast, fuel - 1);
    }
    if fuel >= 2 {
      assert ChordTest(AtLeast, pivot, polygon[0], polygon[1]);
      assert FindTangentPoint(pivot, 0, 1, polygon, Greater, AtLeast, fuel - 1)
          == FindTangentPoint(pivot, 1, 1, polygon, Greater, AtLeast, fuel - 2);
      WalkStuck(fuel - 2);
    }
  }

  lemma {:induction false} WalkStuck(fuel: nat)
    ensures FindTangentPoint(Point(0.0, 0.0, None), 1, 1, [Point(1.0, 0.0, None), Point(-1.0, 1.0, None)],
                             Greater, AtLeast, fuel) == Err(OutOfFuel)
  {
    var pivot, polygon := Point(0.0, 0.0, None), [Point(1.0, 0.0, None), Point(-1.0, 1.0, None)];
    if fuel > 0 {
      assert ChordTest(Greater, pivot, polygon[1], polygon[0]);
      assert FindTangentPoint(pivot, 1, 1, polygon, Greater, AtLeast, fuel)
          == FindTangentPoint(pivot, 1, 1, polygon, Greater, AtLeast, fuel - 1);
      WalkStuck(fuel - 1);
    }
  }

  // The geometry behind termination. The walk compares a neighbour with the
  // line through the pivot and the current point; the signed gap between the
  // neighbour and that line is an orientation divided by an x-distance.

  lemma ChordGap(pivot: Point, through: Point, q: Point)
    requires through.x != pivot.x
    ensures var m := (through.y - pivot.y) / (through.x - pivot.x);
            var b := pivot.y - m * pivot.x;
            (q.y - (m * q.x + b)) * (through.x - pivot.x) == Orientation(pivot, through, q)
  {
    var dx := through.x - pivot.x;
    var m := (through.y - pivot.y) / dx;
    var b := pivot.y - m * pivot.x;
    assert m * dx == through.y - pivot.y;
    calc {
      (q.y - (m * q.x + b)) * dx;
      (q.y - pivot.y) * dx - (m * dx) * (q.x - pivot.x);
      (q.y - pivot.y) * dx - (through.y - pivot.y) * (q.x - pivot.x);
    }
  }

  lemma ProductSign(g: real, d: real)
    requires d != 0.0
    ensures d > 0.0 ==> (g * d > 0.0 <==> g > 0.0) && (g * d < 0.0 <==> g < 0.0)
    ensures d < 0.0 ==> (g * d > 0.0 <==> g < 0.0) && (g * d < 0.0 <==> g > 0.0)
  {
    if d > 0.0 {
      if g > 0.0 {
        assert g * d > 0.0;
      } else if g < 0.0 {
        assert g * d < 0.0;
      }
    } else {
      if g > 0.0 {
        assert g * d < 0.0;
      } else if g < 0.0 {
        assert g * d > 0.0;
      }
    }
  }

  /** With the pivot strictly on one side of both points, `v` passing the
      second comparison against `u` and `u` passing the first against `v`
      exclude each other, for every complementary pair of comparisons. */
  lemma NoMutualImprovement(c1: Comparator, c2: Comparator, pivot: Point, u: Point, v: Point)
    requires Complementary(c1, c2)
    requires u.x != pivot.x && v.x != pivot.x
    requires u.x < pivot.x <==> v.x < pivot.x
    ensures !(ChordTest(c2, pivot, u, v) && ChordTest(c1, pivot, v, u))
  {
    var mu := (u.y - pivot.y) / (u.x - pivot.x);
    var mv := (v.y - pivot.y) / (v.x - pivot.x);
    var g1 := v.y - (mu * v.x + (pivot.y - mu * pivot.x));
    var g2 := u.y - (mv * u.x + (pivot.y - mv * pivot.x));
    ChordGap(pivot, u, v);
    ChordGap(pivot, v, u);
    var o := Orientation(pivot, u, v);
    assert Orientation(pivot, v, u) == -o;
    assert g1 * (u.x - pivot.x) == o;
    assert g2 * (v.x - pivot.x) == -o;
    OppositeGaps(g1, g2, u.x - pivot.x, v.x - pivot.x, o);
    assert ChordTest(c2, pivot, u, v) <==> Holds(c2, g1, 0.0);
    assert ChordTest(c1, pivot, v, u) <==> Holds(c1, g2, 0.0);
  }

  /** Gaps whose products with same-signed factors are opposite have
      opposite signs. */
  lemma OppositeGaps(g1: real, g2: real, d1: real, d2: real, o: real)
    requires d1 != 0.0 && d2 != 0.0 && (d1 < 0.0 <==> d2 < 0.0)
    requires g1 * d1 == o && g2 * d2 == -o
    ensures (g1 > 0.0 <==> g2 < 0.0) && (g1 < 0.0 <==> g2 > 0.0)
  {
    ProductSign(g1, d1);
    ProductSign(g2, d2);
  }

  /** Every polygon point is on the same (closed) side of the pivot's x. */
  predicate WeaklyOneSide(pivot: Point, polygon: seq<Point>) {
    || (forall p :: p in polygon ==> pivot.x <= p.x)
    || (forall p :: p in polygon ==> p.x <= pivot.x)
  }

  /** The walk keeps its bracket: every point left of the window beat its
      right neighbour, every point right of it lost to its left neighbour. */
  predicate Bracketed(pivot: Point, begin: int, end: int, polygon: seq<Point>, c1: Comparator, c2: Comparator)
    requires 0 <= begin < end <= |polygon|
  {
    && (begin > 0 ==> polygon[begin - 1].x != pivot.x &&
                      ChordTest(c2, pivot, polygon[begin - 1], polygon[begin]))
    && (end < |polygon| ==> polygon[end].x != pivot.x &&
                            ChordTest(c1, pivot, polygon[end], polygon[end - 1]))
  }

  /** What keeps a walk going until it stops: complementary comparisons,
      the pivot weakly on one side, a bracketed window and enough fuel. */
  predicate WalkInvariant(pivot: Point, begin: int, end: int, polygon: seq<Point>,
                          c1: Comparator, c2: Comparator, fuel: nat)
  {
    && Complementary(c1, c2) && WeaklyOneSide(pivot, polygon)
    && 0 <= begin < end <= |polygon|
    && Bracketed(pivot, begin, end, polygon, c1, c2)
    && fuel >= end - begin
  }

  /** A move to the left half keeps the invariant, and by
      `NoMutualImprovement` strictly narrows the window. */
  lemma StepLeft(pivot: Point, begin: int, end: int, polygon: seq<Point>, c1: Comparator, c2: Comparator, fuel: nat)
    requires WalkInvariant(pivot, begin, end, polygon, c1, c2, fuel)
    requires var t := begin + (end - begin) / 2;
             polygon[t].x != pivot.x && t >= 1 && ChordTest(c1, pivot, polygon[t], polygon[t - 1])
    ensures fuel > 0
    ensures var t := begin + (end - begin) / 2;
            && t - begin < end - begin
            && WalkInvariant(pivot, begin, t, polygon, c1, c2, fuel - 1)
            && FindTangentPoint(pivot, begin, end, polygon, c1, c2, fuel)
               == FindTangentPoint(pivot, begin, t, polygon, c1, c2, fuel - 1)
  {
    var t := begin + (end - begin) / 2;
    if t == begin {
      assert polygon[t - 1] in polygon && polygon[t] in polygon;
      NoMutualImprovement(c1, c2, pivot, polygon[t - 1], polygon[t]);
    }
  }

  /** A move to the right half keeps the invariant and strictly narrows the
      window. */
  lemma StepRight(pivot: Point, begin: int, end: int, polygon: seq<Point>, c1: Comparator, c2: Comparator, fuel: nat)
    requires WalkInvariant(pivot, begin, end, polygon, c1, c2, fuel)
    requires var t := begin + (end - begin) / 2;
             && polygon[t].x != pivot.x
             && !(t >= 1 && ChordTest(c1, pivot, polygon[t], polygon[t - 1]))
             && t + 1 < |polygon| && ChordTest(c2, pivot, polygon[t], polygon[t + 1])
    ensures fuel > 0
    ensures var t := begin + (end - begin) / 2;
            && end - (t + 1) < end - begin
            && WalkInvariant(pivot, t + 1, end, polygon, c1, c2, fuel - 1)
            && FindTangentPoint(pivot, begin, end, polygon, c1, c2, fuel)
               == FindTangentPoint(pivot, t + 1, end, polygon, c1, c2, fuel - 1)
  {
    var t := begin + (end - begin) / 2;
    if t + 1 == end {
      assert polygon[t] in polygon && polygon[t + 1] in polygon;
      NoMutualImprovement(c1, c2, pivot, polygon[t], polygon[t + 1]);
    }
  }

  /** A walk that keeps `WalkInvariant` never runs out of fuel. */
  lemma {:induction false} WalkFinishes(pivot: Point, begin: int, end: int, polygon: seq<Point>,
                                        c1: Comparator, c2: Comparator, fuel: nat)
    requires WalkInvariant(pivot, begin, end, polygon, c1, c2, fuel)
    ensures FindTangentPoint(pivot, begin, end, polygon, c1, c2, fuel) != Err(OutOfFuel)
    decreases end - begin
  {
    var t := begin + (end - begin) / 2;
    if polygon[t].x != pivot.x {
      if t >= 1 && ChordTest(c1, pivot, polygon[t], polygon[t - 1]) {
        StepLeft(pivot, begin, end, polygon, c1, c2, fuel);
        WalkFinishes(pivot, begin, t, polygon, c1, c2, fuel - 1);
      } else if t + 1 < |polygon| && ChordTest(c2, pivot, polygon[t], polygon[t + 1]) {
        StepRight(pivot, begin, end, polygon, c1, c2, fuel);
        WalkFinishes(pivot, t + 1, end, polygon, c1, c2, fuel - 1);
      }
    }
  }

  /** Started as the source starts it, with the pivot weakly on one side,
      the walk stops within `|polygon|` steps. */
  lemma WalkFromStartFinishes(pivot: Point, polygon: seq<Point>, c1: Comparator, c2: Comparator, fuel: nat)
    requires Complementary(c1, c2) && WeaklyOneSide(pivot, polygon)
    requires 0 < |polygon| <= fuel
    ensures FindTangentPoint(pivot, 0, |polygon|, polygon, c1, c2, fuel) != Err(OutOfFuel)
  {
    WalkFinishes(pivot, 0, |polygon|, polygon, c1, c2, fuel);
  }

  // ---------------------------------------------------------------------
  // Common tangents and hulls

  /** `upper_common_tangent` / `lower_common_tangent`: an index into each
      hull. An empty first hull fails on `hull_1[len(hull_1) // 2]`; an empty
      second hull makes the first walk fail on `polygon[t_point]`. */
  function CommonTangent(chain: Chain, hull1: seq<Point>, hull2: seq<Point>, fuel: nat): (r: Result<(nat, nat), HullError>)
    ensures r.Ok? ==> r.value.0 < |hull1| && r.value.1 < |hull2|
  {
    if |hull1| == 0 then Err(IndexOutOfRange)
    else
      var first, second := FirstWalk(chain), SecondWalk(chain);
      var t2 :- FindTangentPoint(hull1[|hull1| / 2], 0, |hull2|, hull2, first.0, first.1, fuel);
      var t1 :- FindTangentPoint(hull2[t2], 0, |hull1|, hull1, second.0, second.1, fuel);
      Ok((t1, t2))
  }

  /** The tangent raises `IndexError` exactly when a hull is empty (for an
      empty second hull, once the first walk is entered at all: with no fuel
      left the model reports `OutOfFuel` first). */
  lemma CommonTangentIndexError(chain: Chain, hull1: seq<Point>, hull2: seq<Point>, fuel: nat)
    ensures CommonTangent(chain, hull1, hull2, fuel) == Err(IndexOutOfRange)
            <==> |hull1| == 0 || (|hull2| == 0 && fuel > 0)
  {
    if |hull1| > 0 && |hull2| == 0 && fuel > 0 {
      var first := FirstWalk(chain);
      assert FindTangentPoint(hull1[|hull1| / 2], 0, 0, hull2, first.0, first.1, fuel)
          == TangentStep(hull1[|hull1| / 2], 0, 0, hull2, first.0, first.1, fuel - 1);
    } else if |hull1| > 0 && |hull2| > 0 {
      var first, second := FirstWalk(chain), SecondWalk(chain);
      WalkStaysInRange(hull1[|hull1| / 2], 0, |hull2|, hull2, first.0, first.1, fuel);
      var w2 := FindTangentPoint(hull1[|hull1| / 2], 0, |hull2|, hull2, first.0, first.1, fuel);
      if w2.Ok? {
        WalkStaysInRange(hull2[w2.value], 0, |hull1|, hull1, second.0, second.1, fuel);
      }
    }
  }

  /** Lines 18-21 and 38-41: the second walk pivots on the point the first
      one found, and both stop where neither neighbour passes its test. */
  lemma CommonTangentIsSettled(chain: Chain, hull1: seq<Point>, hull2: seq<Point>, fuel: nat)
    requires CommonTangent(chain, hull1, hull2, fuel).Ok?
    ensures var q := CommonTangent(chain, hull1, hull2, fuel).value;
            var pivot2 := hull1[|hull1| / 2];
            var pivot1 := hull2[q.1];
            && hull2[q.1].x != pivot2.x && hull1[q.0].x != pivot1.x
            && Settled(pivot2, hull2, q.1, FirstWalk(chain).0, FirstWalk(chain).1)
            && Settled(pivot1, hull1, q.0, SecondWalk(chain).0, SecondWalk(chain).1)
  {
    var first, second := FirstWalk(chain), SecondWalk(chain);
    var pivot2 := hull1[|hull1| / 2];
    WalkStopsSettled(pivot2, 0, |hull2|, hull2, first.0, first.1, fuel);
    var t2 := FindTangentPoint(pivot2, 0, |hull2|, hull2, first.0, first.1, fuel).value;
    WalkStopsSettled(hull2[t2], 0, |hull1|, hull1, second.0, second.1, fuel);
  }

  lemma CommonTangentFuelIsEnough(chain: Chain, hull1: seq<Point>, hull2: seq<Point>, fuel: nat, more: nat)
    requires CommonTangent(chain, hull1, hull2, fuel) != Err(OutOfFuel)
    requires more >= fuel
    ensures CommonTangent(chain, hull1, hull2, more) == CommonTangent(chain, hull1, hull2, fuel)
  {
    if |hull1| > 0 {
      var first, second := FirstWalk(chain), SecondWalk(chain);
      var w2 := FindTangentPoint(hull1[|hull1| / 2], 0, |hull2|, hull2, first.0, first.1, fuel);
      FindTangentPointFuelIsEnough(hull1[|hull1| / 2], 0, |hull2|, hull2, first.0, first.1, fuel, more);
      if w2.Ok? {
        FindTangentPointFuelIsEnough(hull2[w2.value], 0, |hull1|, hull1, second.0, second.1, fuel, more);
      }
    }
  }

  /** Hulls side by side in x never make the tangent walks run out of fuel;
      strictly apart, they cannot fail at all. */
  lemma CommonTangentFinishes(chain: Chain, hull1: seq<Point>, hull2: seq<Point>, fuel: nat)
    requires 0 < |hull1| <= fuel && 0 < |hull2| <= fuel
    requires forall i, j :: 0 <= i < |hull1| && 0 <= j < |hull2| ==> hull1[i].x <= hull2[j].x
    ensures CommonTangent(chain, hull1, hull2, fuel).Err? ==> CommonTangent(chain, hull1, hull2, fuel).error == ZeroDivision
    ensures (forall i, j :: 0 <= i < |hull1| && 0 <= j < |hull2| ==> hull1[i].x < hull2[j].x) ==>
              CommonTangent(chain, hull1, hull2, fuel).Ok?
  {
    var first, second := FirstWalk(chain), SecondWalk(chain);
    WalksAreComplementary(chain);
    var pivot2 := hull1[|hull1| / 2];
    var strict := forall i, j :: 0 <= i < |hull1| && 0 <= j < |hull2| ==> hull1[i].x < hull2[j].x;
    WalkFromStartFinishes(pivot2, hull2, first.0, first.1, fuel);
    WalkStaysInRange(pivot2, 0, |hull2|, hull2, first.0, first.1, fuel);
    if strict {
      WalkAvoidsZeroDivision(pivot2, 0, |hull2|, hull2, first.0, first.1, fuel);
    }
    var w2 := FindTangentPoint(pivot2, 0, |hull2|, hull2, first.0, first.1, fuel);
    if w2.Ok? {
      var pivot1 := hull2[w2.value];
      WalkFromStartFinishes(pivot1, hull1, second.0, second.1, fuel);
      WalkStaysInRange(pivot1, 0, |hull1|, hull1, second.0, second.1, fuel);
      if strict {
        WalkAvoidsZeroDivision(pivot1, 0, |hull1|, hull1, second.0, second.1, fuel);
      }
    }
  }

  function DropLast<T>(s: seq<T>): seq<T> {
    if |s| == 0 then [] else s[..|s| - 1]
  }

  function Last<T>(s: seq<T>): T
    requires |s| > 0
  {
    s[|s| - 1]
  }

  /** Lines 55-56 and 69-70: joins the hulls of the two halves at their
      common tangent. An error in either half propagates, the left one's
      first, as the exception raised first would. */
  function Merge(chain: Chain, left: Result<seq<Point>, HullError>, right: Result<seq<Point>, HullError>,
                 fuel: nat): Result<seq<Point>, HullError>
  {
    var l :- left;
    var r :- right;
    var q :- CommonTangent(chain, l, r, fuel);
    Ok(l[..q.0 + 1] + r[q.1..])
  }

  /** `upper_hull` / `lower_hull` of a list the caller has sorted by x. */
  function Hull(chain: Chain, points: seq<Point>, fuel: nat): Result<seq<Point>, HullError>
    decreases |points|, 1
  {
    if |points| <= 2 then Ok(points) else MergeHalves(chain, points, fuel)
  }

  /** Lines 52-56 and 66-70: the hulls of the two halves, joined. */
  function MergeHalves(chain: Chain, points: seq<Point>, fuel: nat): Result<seq<Point>, HullError>
    requires |points| > 2
    decreases |points|, 0
  {
    var n := |points|;
    Merge(chain, Hull(chain, points[..n / 2], fuel), Hull(chain, points[n / 2..], fuel), fuel)
  }

  /** Above two points the hull is the join of the hulls of the halves. */
  lemma HullOfHalves(chain: Chain, points: seq<Point>, fuel: nat)
    requires |points| > 2
    ensures Hull(chain, points, fuel)
         == Merge(chain, Hull(chain, points[..|points| / 2], fuel), Hull(chain, points[|points| / 2..], fuel), fuel)
  {
  }

  /** The hull keeps the first and the last point, keeps at least two of two
      or more, never grows, and never raises `IndexError`. */
  lemma {:induction false} HullShape(chain: Chain, points: seq<Point>, fuel: nat)
    ensures var r := Hull(chain, points, fuel);
            && (r.Ok? ==> |r.value| <= |points|)
            && (r.Ok? && |points| > 0 ==> |r.value| > 0 && r.value[0] == points[0] && Last(r.value) == Last(points))
            && (r.Ok? && |points| >= 2 ==> |r.value| >= 2)
            && r != Err(IndexOutOfRange)
    decreases |points|
  {
    var n := |points|;
    if n > 2 {
      var lower, upper := points[..n / 2], points[n / 2..];
      HullOfHalves(chain, points, fuel);
      HullShape(chain, lower, fuel);
      HullShape(chain, upper, fuel);
      var left, right := Hull(chain, lower, fuel), Hull(chain, upper, fuel);
      if left.Ok? && right.Ok? {
        MergeShape(chain, left.value, right.value, fuel);
        assert lower[0] == points[0] && Last(upper) == Last(points);
      }
    }
  }

  /** Joining two non-empty hulls keeps the first point of the left one and
      the last of the right one, and cannot raise `IndexError`. */
  lemma MergeShape(chain: Chain, left: seq<Point>, right: seq<Point>, fuel: nat)
    requires |left| > 0 && |right| > 0
    ensures var r := Merge(chain, Ok(left), Ok(right), fuel);
            && r != Err(IndexOutOfRange)
            && (r.Ok? ==> 2 <= |r.value| <= |left| + |right| && r.value[0] == left[0] && Last(r.value) == Last(right))
  {
    CommonTangentIndexError(chain, left, right, fuel);
    var q := CommonTangent(chain, left, right, fuel);
    if q.Ok? {
      SpliceEnds(left, right, q.value.0, q.value.1);
    }
  }

  /** The hull keeps a selection of the input points in their input order. */
  lemma {:induction false} HullIsSubsequence(chain: Chain, points: seq<Point>, fuel: nat)
    requires Hull(chain, points, fuel).Ok?
    ensures IsSubsequence(Hull(chain, points, fuel).value, points)
    decreases |points|
  {
    var n := |points|;
    if n <= 2 {
      SubsequenceOfItself(points);
    } else {
      var lower, upper := points[..n / 2], points[n / 2..];
      HullOfHalves(chain, points, fuel);
      var left, right := Hull(chain, lower, fuel).value, Hull(chain, upper, fuel).value;
      HullIsSubsequence(chain, lower, fuel);
      HullIsSubsequence(chain, upper, fuel);
      var q := CommonTangent(chain, left, right, fuel).value;
      SpliceIsSubsequence(points, n / 2, left, right, q.0, q.1);
      assert Hull(chain, points, fuel).value == left[..q.0 + 1] + right[q.1..];
    }
  }

  /** Lines 56 and 70: a prefix of the left hull joined to a suffix of the
      right hull keeps the order of the list the two were built from. */
  lemma SpliceIsSubsequence(points: seq<Point>, k: nat, left: seq<Point>, right: seq<Point>, i: nat, j: nat)
    requires k <= |points|
    requires IsSubsequence(left, points[..k]) && IsSubsequence(right, points[k..])
    requires i < |left| && j < |right|
    ensures IsSubsequence(left[..i + 1] + right[j..], points)
  {
    var a, b := left[..i + 1], right[j..];
    SubsequenceOfPrefix(left, points[..k], i + 1);
    SubsequenceOfSuffix(right, points[k..], j);
    SubsequenceOfConcat(a, points[..k], b, points[k..]);
    assert points[..k] + points[k..] == points;
  }

  /** The joined hull starts where the left one does and ends where the
      right one does. */
  lemma SpliceEnds(left: seq<Point>, right: seq<Point>, i: nat, j: nat)
    requires i < |left| && j < |right|
    ensures 2 <= |left[..i + 1] + right[j..]| <= |left| + |right|
    ensures (left[..i + 1] + right[j..])[0] == left[0]
    ensures Last(left[..i + 1] + right[j..]) == Last(right)
  {
    var a, b := left[..i + 1], right[j..];
    assert (a + b)[0] == a[0] == left[0];
    assert Last(a + b) == (a + b)[|a| + |b| - 1] == b[|b| - 1] == Last(right);
  }

  lemma HullOfFewPointsIsIdentity(chain: Chain, points: seq<Point>, fuel: nat)
    requires |points| <= 2
    ensures Hull(chain, points, fuel) == Ok(points)
  {
  }

  /** An x-sorted input gives an x-sorted hull. */
  lemma HullKeepsSortedness(chain: Chain, points: seq<Point>, fuel: nat)
    requires SortedByX(points) && Hull(chain, points, fuel).Ok?
    ensures SortedByX(Hull(chain, points, fuel).value)
  {
    HullIsSubsequence(chain, points, fuel);
    SubsequenceKeepsSortedness(Hull(chain, points, fuel).value, points);
  }

  lemma {:induction false} HullFuelIsEnough(chain: Chain, points: seq<Point>, fuel: nat, more: nat)
    requires Hull(chain, points, fuel) != Err(OutOfFuel)
    requires more >= fuel
    ensures Hull(chain, points, more) == Hull(chain, points, fuel)
    decreases |points|
  {
    var n := |points|;
    if n > 2 {
      var lower, upper := points[..n / 2], points[n / 2..];
      var left, right := Hull(chain, lower, fuel), Hull(chain, upper, fuel);
      HullOfHalves(chain, points, fuel);
      HullOfHalves(chain, points, more);
      HullFuelIsEnough(chain, lower, fuel, more);
      if left.Ok? {
        HullFuelIsEnough(chain, upper, fuel, more);
      }
      MergeFuelIsEnough(chain, left, right, fuel, more);
    }
  }

  lemma MergeFuelIsEnough(chain: Chain, left: Result<seq<Point>, HullError>, right: Result<seq<Point>, HullError>,
                          fuel: nat, more: nat)
    requires Merge(chain, left, right, fuel) != Err(OutOfFuel)
    requires more >= fuel
    ensures Merge(chain, left, right, more) == Merge(chain, left, right, fuel)
  {
    if left.Ok? && right.Ok? {
      CommonTangentFuelIsEnough(chain, left.value, right.value, fuel, more);
    }
  }

  /** On an x-sorted list, `|points|` units of fuel always suffice, and
      division by zero is the only failure left. */
  lemma {:induction false} HullFinishes(chain: Chain, points: seq<Point>, fuel: nat)
    requires SortedByX(points) && |points| <= fuel
    ensures Hull(chain, points, fuel).Err? ==> Hull(chain, points, fuel).error == ZeroDivision
    ensures StrictlySortedByX(points) ==> Hull(chain, points, fuel).Ok?
    decreases |points|
  {
    var n := |points|;
    if n > 2 {
      var lower, upper := points[..n / 2], points[n / 2..];
      HullOfHalves(chain, points, fuel);
      HalvesKeepSortedness(points, n / 2);
      HullFinishes(chain, lower, fuel);
      HullFinishes(chain, upper, fuel);
      var left, right := Hull(chain, lower, fuel), Hull(chain, upper, fuel);
      if left.Ok? && right.Ok? {
        HullShape(chain, lower, fuel);
        HullShape(chain, upper, fuel);
        HullIsSubsequence(chain, lower, fuel);
        HullIsSubsequence(chain, upper, fuel);
        HalvesAreApart(points, n / 2, left.value, right.value);
        MergeFinishes(chain, left.value, right.value, fuel);
      }
    }
  }

  /** Joining hulls that lie side by side in x fails only by division by
      zero, and not at all when they are strictly apart. */
  lemma MergeFinishes(chain: Chain, left: seq<Point>, right: seq<Point>, fuel: nat)
    requires 0 < |left| <= fuel && 0 < |right| <= fuel
    requires forall i, j :: 0 <= i < |left| && 0 <= j < |right| ==> left[i].x <= right[j].x
    ensures Merge(chain, Ok(left), Ok(right), fuel).Err? ==> Merge(chain, Ok(left), Ok(right), fuel).error == ZeroDivision
    ensures (forall i, j :: 0 <= i < |left| && 0 <= j < |right| ==> left[i].x < right[j].x) ==>
              Merge(chain, Ok(left), Ok(right), fuel).Ok?
  {
    CommonTangentFinishes(chain, left, right, fuel);
  }

  lemma HalvesKeepSortedness(points: seq<Point>, k: nat)
    requires k <= |points|
    ensures SortedByX(points) ==> SortedByX(points[..k]) && SortedByX(points[k..])
    ensures StrictlySortedByX(points) ==> StrictlySortedByX(points[..k]) && StrictlySortedByX(points[k..])
  {
    if SortedByX(points) {
      forall i, j | 0 <= i < j < |points[k..]| ensures points[k..][i].x <= points[k..][j].x {
        assert points[k..][i] == points[k + i] && points[k..][j] == points[k + j];
      }
    }
    if StrictlySortedByX(points) {
      forall i, j | 0 <= i < j < |points[k..]| ensures points[k..][i].x < points[k..][j].x {
        assert points[k..][i] == points[k + i] && points[k..][j] == points[k + j];
      }
    }
  }

  /** Hulls of the two halves of an x-sorted list lie side by side in x. */
  lemma HalvesAreApart(points: seq<Point>, k: nat, left: seq<Point>, right: seq<Point>)
    requires k <= |points| && SortedByX(points)
    requires IsSubsequence(left, points[..k]) && IsSubsequence(right, points[k..])
    ensures forall i, j :: 0 <= i < |left| && 0 <= j < |right| ==> left[i].x <= right[j].x
    ensures StrictlySortedByX(points) ==>
              forall i, j :: 0 <= i < |left| && 0 <= j < |right| ==> left[i].x < right[j].x
  {
    var lower, upper := points[..k], points[k..];
    SubsequenceMembers(left, lower);
    SubsequenceMembers(right, upper);
    forall i, j | 0 <= i < |left| && 0 <= j < |right|
      ensures left[i].x <= right[j].x
      ensures StrictlySortedByX(points) ==> left[i].x < right[j].x
    {
      var a :| 0 <= a < |lower| && lower[a] == left[i];
      var b :| 0 <= b < |upper| && upper[b] == right[j];
      assert lower[a] == points[a] && upper[b] == points[k + b];
    }
  }

  // ---------------------------------------------------------------------
  // Sorting by x, as `list.sort(key=lambda p: p.x)` does: stably

  /** Inserts `e` after every element whose x is at most its own. */
  function InsertByX(s: seq<Point>, e: Point): seq<Point>
    decreases |s|
  {
    if |s| == 0 || Last(s).x <= e.x then s + [e]
    else InsertByX(s[..|s| - 1], e) + [Last(s)]
  }

  /** Insertion sort by x, stable as `list.sort` is (`SortByXIsStable`). */
  function SortByX(s: seq<Point>): seq<Point>
    decreases |s|
  {
    if |s| == 0 then [] else InsertByX(SortByX(s[..|s| - 1]), Last(s))
  }

  lemma {:induction false} InsertByXPermutes(s: seq<Point>, e: Point)
    ensures multiset(InsertByX(s, e)) == multiset(s) + multiset{e}
    decreases |s|
  {
    if |s| > 0 && Last(s).x > e.x {
      InsertByXPermutes(s[..|s| - 1], e);
      assert s == s[..|s| - 1] + [Last(s)];
    }
  }

  lemma {:induction false} InsertByXKeepsSortedness(s: seq<Point>, e: Point)
    requires SortedByX(s)
    ensures SortedByX(InsertByX(s, e))
    decreases |s|
  {
    if |s| > 0 && Last(s).x > e.x {
      var init := s[..|s| - 1];
      InsertByXKeepsSortedness(init, e);
      InsertByXPermutes(init, e);
      var r := InsertByX(init, e);
      forall i | 0 <= i < |r| ensures r[i].x <= Last(s).x {
        assert r[i] in multiset(r);
        assert r[i] in multiset(init) || r[i] == e;
      }
    }
  }

  lemma {:induction false} SortByXSortsAndPermutes(s: seq<Point>)
    ensures SortedByX(SortByX(s))
    ensures multiset(SortByX(s)) == multiset(s)
    decreases |s|
  {
    if |s| > 0 {
      var init := s[..|s| - 1];
      SortByXSortsAndPermutes(init);
      InsertByXKeepsSortedness(SortByX(init), Last(s));
      InsertByXPermutes(SortByX(init), Last(s));
      assert s == init + [Last(s)];
    }
  }

  /** A list already sorted by x is left as it is. */
  lemma {:induction false} SortByXOfSortedIsIdentity(s: seq<Point>)
    requires SortedByX(s)
    ensures SortByX(s) == s
    decreases |s|
  {
    if |s| > 0 {
      var init := s[..|s| - 1];
      assert SortByX(s) == InsertByX(SortByX(init), Last(s));
      HalvesKeepSortedness(s, |s| - 1);
      SortByXOfSortedIsIdentity(init);
      if |init| > 0 {
        assert Last(init) == s[|s| - 2];
        assert s[|s| - 2].x <= s[|s| - 1].x;
      }
      InsertByXAtEnd(init, Last(s));
      assert s == init + [Last(s)];
    }
  }

  /** The points of `s` whose x is `k`, in their order in `s`. */
  function Column(s: seq<Point>, k: real): seq<Point>
    decreases |s|
  {
    if |s| == 0 then []
    else Column(s[..|s| - 1], k) + (if Last(s).x == k then [Last(s)] else [])
  }

  /** Insertion appends `e` to its column and leaves every other column as
      it was: `e` only passes points with a larger x. */
  lemma {:induction false} InsertByXKeepsColumns(s: seq<Point>, e: Point, k: real)
    ensures Column(InsertByX(s, e), k) == Column(s, k) + (if e.x == k then [e] else [])
    decreases |s|
  {
    if |s| == 0 || Last(s).x <= e.x {
      assert (s + [e])[..|s|] == s;
    } else {
      var init := s[..|s| - 1];
      var r := InsertByX(init, e);
      InsertByXKeepsColumns(init, e, k);
      assert (r + [Last(s)])[..|r|] == r;
    }
  }

  /** The sort is stable: points with equal x keep their input order. */
  lemma {:induction false} SortByXIsStable(s: seq<Point>, k: real)
    ensures Column(SortByX(s), k) == Column(s, k)
    decreases |s|
  {
    if |s| > 0 {
      var init := s[..|s| - 1];
      SortByXIsStable(init, k);
      InsertByXKeepsColumns(SortByX(init), Last(s), k);
    }
  }

  lemma InsertByXAtEnd(s: seq<Point>, e: Point)
    requires |s| == 0 || Last(s).x <= e.x
    ensures InsertByX(s, e) == s + [e]
  {
  }

  /** Sorts the caller's array in place, as `points.sort` does. */
  method SortInPlaceByX(a: array<Point>)
    modifies a
    ensures a[..] == SortByX(old(a[..]))
  {
    ghost var s := a[..];
    var i := 0;
    while i < a.Length
      invariant 0 <= i <= a.Length
      invariant a[..i] == SortByX(s[..i])
      invariant a[i..] == s[i..]
    {
      assert a[i] == s[i];
      InsertIntoSortedPrefix(a, i);
      assert s[..i + 1][..i] == s[..i];
      assert Last(s[..i + 1]) == s[i];
      i := i + 1;
    }
    assert s[..a.Length] == s;
  }

  /** Moves `a[i]` left past every earlier element with a larger x. */
  method InsertIntoSortedPrefix(a: array<Point>, i: nat)
    requires i < a.Length
    modifies a
    ensures a[..i + 1] == InsertByX(old(a[..i]), old(a[i]))
    ensures a[i + 1..] == old(a[i + 1..])
  {
    var key := a[i];
    ghost var sorted := a[..i];
    ghost var rest := a[i + 1..];
    var j := i;
    while j > 0 && a[j - 1].x > key.x
      invariant 0 <= j <= i
      invariant a[..j] == sorted[..j]
      invariant a[j + 1..i + 1] == sorted[j..]
      invariant a[i + 1..] == rest
      invariant forall k :: j <= k < i ==> sorted[k].x > key.x
    {
      ghost var before := a[..];
      a[j] := a[j - 1];
      ShiftRightStep(before, a[..], sorted, rest, i, j);
      j := j - 1;
    }
    ghost var before := a[..];
    a[j] := key;
    PlaceKey(before, a[..], sorted, rest, key, i, j);
    InsertByXSplits(sorted, key, j);
  }

  /** One step of the inner loop: copying `b[j - 1]` into slot `j` moves the
      gap one place left. */
  lemma ShiftRightStep(b: seq<Point>, c: seq<Point>, sorted: seq<Point>, rest: seq<Point>, i: nat, j: nat)
    requires 0 < j <= i < |b| && |sorted| == i
    requires c == b[j := b[j - 1]]
    requires b[..j] == sorted[..j] && b[j + 1..i + 1] == sorted[j..] && b[i + 1..] == rest
    ensures c[..j - 1] == sorted[..j - 1] && c[j..i + 1] == sorted[j - 1..] && c[i + 1..] == rest
  {
    assert c[..j - 1] == b[..j][..j - 1];
    assert b[j - 1] == sorted[j - 1];
    assert c[j..i + 1] == [b[j - 1]] + b[j + 1..i + 1];
  }

  /** The key dropped into the gap. */
  lemma PlaceKey(b: seq<Point>, c: seq<Point>, sorted: seq<Point>, rest: seq<Point>, key: Point, i: nat, j: nat)
    requires j <= i < |b| && |sorted| == i
    requires c == b[j := key]
    requires b[..j] == sorted[..j] && b[j + 1..i + 1] == sorted[j..] && b[i + 1..] == rest
    ensures c[..i + 1] == sorted[..j] + [key] + sorted[j..] && c[i + 1..] == rest
  {
    assert c[..i + 1] == c[..j] + [c[j]] + c[j + 1..i + 1];
  }

  /** `InsertByX` puts `e` right after the last element whose x is at most
      its own. */
  lemma {:induction false} InsertByXSplits(s: seq<Point>, e: Point, j: nat)
    requires j <= |s| && (j == 0 || s[j - 1].x <= e.x)
    requires forall k :: j <= k < |s| ==> s[k].x > e.x
    ensures InsertByX(s, e) == s[..j] + [e] + s[j..]
    decreases |s|
  {
    if j < |s| {
      var init := s[..|s| - 1];
      InsertByXSplits(init, e, j);
      assert init[..j] == s[..j];
      assert s[j..] == init[j..] + [Last(s)];
    } else {
      assert s[..j] == s;
    }
  }

  // ---------------------------------------------------------------------
  // The convex hull

  /** Reverses a list, as `[::-1]` does. */
  function Reverse<T>(s: seq<T>): seq<T> {
    seq(|s|, i requires 0 <= i < |s| => s[|s| - 1 - i])
  }

  /** Reversing twice gives the list back. */
  lemma ReverseIsInvolution<T>(s: seq<T>)
    ensures Reverse(Reverse(s)) == s
  {
  }

  /** Reversing keeps every element with its multiplicity. */
  lemma {:induction false} ReversePermutes<T>(s: seq<T>)
    ensures multiset(Reverse(s)) == multiset(s)
    decreases |s|
  {
    if |s| > 0 {
      var init := s[..|s| - 1];
      ReversePermutes(init);
      assert Reverse(s) == [Last(s)] + Reverse(init);
      assert s == init + [Last(s)];
    }
  }

  /** Lines 75-76 of `convex_hull`, on the list after it has been sorted:
      the upper hull without its last point, then the lower hull reversed,
      again without its last point. */
  function HullOfSorted(points: seq<Point>, fuel: nat): Result<seq<Point>, HullError> {
    var uh :- Hull(Upper, points, fuel);
    var lh :- Hull(Lower, points, fuel);
    Ok(DropLast(uh) + DropLast(Reverse(lh)))
  }

  /** The hull starts at the leftmost point, passes through the rightmost
      one, has at most `2n - 2` vertices, and never raises `IndexError`. */
  lemma HullOfSortedShape(points: seq<Point>, fuel: nat)
    ensures var r := HullOfSorted(points, fuel);
            && (r.Ok? && |points| >= 2 ==> |r.value| >= 2 && r.value[0] == points[0] && Last(points) in r.value)
            && (r.Ok? && |points| >= 1 ==> |r.value| <= 2 * |points| - 2)
            && r != Err(IndexOutOfRange)
  {
    HullShape(Upper, points, fuel);
    HullShape(Lower, points, fuel);
    var uh, lh := Hull(Upper, points, fuel), Hull(Lower, points, fuel);
    if uh.Ok? && lh.Ok? {
      assert HullOfSorted(points, fuel) == Ok(DropLast(uh.value) + DropLast(Reverse(lh.value)));
      if |points| >= 1 {
        JoinShape(points, uh.value, lh.value);
      }
    }
  }

  /** Line 76 on hulls that keep the end points of a list of `n` points. */
  lemma JoinShape(points: seq<Point>, uh: seq<Point>, lh: seq<Point>)
    requires 0 < |uh| <= |points| && 0 < |lh| <= |points|
    requires uh[0] == points[0] && lh[0] == points[0] && Last(lh) == Last(points)
    requires |points| >= 2 ==> |uh| >= 2 && |lh| >= 2
    ensures var r := DropLast(uh) + DropLast(Reverse(lh));
            && |r| <= 2 * |points| - 2
            && (|points| >= 2 ==> |r| >= 2 && r[0] == points[0] && Last(points) in r)
  {
    var r := DropLast(uh) + DropLast(Reverse(lh));
    if |points| >= 2 {
      assert r[0] == uh[0];
      assert r[|uh| - 1] == Reverse(lh)[0] == Last(lh);
    }
  }

  /** Every vertex of an upper or lower hull is one of the input points. */
  lemma HullKeepsInputPoints(chain: Chain, points: seq<Point>, fuel: nat)
    requires Hull(chain, points, fuel).Ok?
    ensures forall i :: 0 <= i < |Hull(chain, points, fuel).value| ==> Hull(chain, points, fuel).value[i] in points
  {
    HullIsSubsequence(chain, points, fuel);
    SubsequenceMembers(Hull(chain, points, fuel).value, points);
  }

  /** Every vertex of the hull is one of the input points. */
  lemma HullOfSortedKeepsInputPoints(points: seq<Point>, fuel: nat)
    requires HullOfSorted(points, fuel).Ok?
    ensures forall i :: 0 <= i < |HullOfSorted(points, fuel).value| ==> HullOfSorted(points, fuel).value[i] in points
  {
    var uh, lh := Hull(Upper, points, fuel).value, Hull(Lower, points, fuel).value;
    HullKeepsInputPoints(Upper, points, fuel);
    HullKeepsInputPoints(Lower, points, fuel);
    JoinKeepsMembers(points, uh, lh);
    assert HullOfSorted(points, fuel).value == DropLast(uh) + DropLast(Reverse(lh));
  }

  lemma JoinKeepsMembers(points: seq<Point>, uh: seq<Point>, lh: seq<Point>)
    requires forall i :: 0 <= i < |uh| ==> uh[i] in points
    requires forall i :: 0 <= i < |lh| ==> lh[i] in points
    ensures var r := DropLast(uh) + DropLast(Reverse(lh));
            forall i :: 0 <= i < |r| ==> r[i] in points
  {
    var a, b := DropLast(uh), DropLast(Reverse(lh));
    assert |a| <= |uh| && |b| <= |lh|;
    forall i | 0 <= i < |a + b| ensures (a + b)[i] in points {
      if i < |a| {
        assert (a + b)[i] == a[i] == uh[i];
      } else {
        var j := i - |a|;
        assert (a + b)[i] == b[j] == Reverse(lh)[j] == lh[|lh| - 1 - j];
      }
    }
  }

  lemma HullOfFewPoints(points: seq<Point>, fuel: nat)
    ensures |points| <= 1 ==> HullOfSorted(points, fuel) == Ok([])
    ensures |points| == 2 ==> HullOfSorted(points, fuel) == Ok([points[0], points[1]])
  {
    if |points| <= 2 {
      HullOfFewPointsIsIdentity(Upper, points, fuel);
      HullOfFewPointsIsIdentity(Lower, points, fuel);
      JoinOfFewPoints(points);
    }
  }

  lemma JoinOfFewPoints(points: seq<Point>)
    requires |points| <= 2
    ensures |points| <= 1 ==> DropLast(points) + DropLast(Reverse(points)) == []
    ensures |points| == 2 ==> DropLast(points) + DropLast(Reverse(points)) == [points[0], points[1]]
  {
    var r := Reverse(points);
    if |points| == 2 {
      assert r[0] == points[1];
      assert DropLast(r) == [points[1]];
      assert DropLast(points) == [points[0]];
    } else {
      assert DropLast(points) == [] && DropLast(r) == [];
    }
  }

  /** Points of the two halves that share an x-coordinate make the tangent
      walk divide by zero: the convex hull of the distinct, x-sorted points
      `(0, 0), (1, 0), (1, 1), (2, 0)` raises `ZeroDivisionError`. */
  lemma SharedAbscissaDividesByZero(fuel: nat)
    requires fuel >= 2
    ensures HullOfSorted([Point(0.0, 0.0, None), Point(1.0, 0.0, None), Point(1.0, 1.0, None), Point(2.0, 0.0, None)], fuel)
         == Err(ZeroDivision)
  {
    var points := [Point(0.0, 0.0, None), Point(1.0, 0.0, None), Point(1.0, 1.0, None), Point(2.0, 0.0, None)];
    var left, right := points[..2], points[2..];
    assert left == [Point(0.0, 0.0, None), Point(1.0, 0.0, None)];
    assert right == [Point(1.0, 1.0, None), Point(2.0, 0.0, None)];
    HullOfHalves(Upper, points, fuel);
    HullOfFewPointsIsIdentity(Upper, left, fuel);
    HullOfFewPointsIsIdentity(Upper, right, fuel);
    UpperWalkDividesByZero(fuel);
    assert CommonTangent(Upper, left, right, fuel) == Err(ZeroDivision);
    assert Hull(Upper, points, fuel) == Err(ZeroDivision);
  }

  /** The first walk of that upper tangent: from `(2, 0)` it steps left onto
      `(1, 1)`, which lies straight above the pivot `(1, 0)`. */
  lemma UpperWalkDividesByZero(fuel: nat)
    requires fuel >= 2
    ensures FindTangentPoint(Point(1.0, 0.0, None), 0, 2, [Point(1.0, 1.0, None), Point(2.0, 0.0, None)],
                             Greater, AtLeast, fuel) == Err(ZeroDivision)
  {
    var pivot, polygon := Point(1.0, 0.0, None), [Point(1.0, 1.0, None), Point(2.0, 0.0, None)];
    assert ChordTest(Greater, pivot, polygon[1], polygon[0]);
    assert FindTangentPoint(pivot, 0, 2, polygon, Greater, AtLeast, fuel)
        == FindTangentPoint(pivot, 0, 1, polygon, Greater, AtLeast, fuel - 1);
    assert FindTangentPoint(pivot, 0, 1, polygon, Greater, AtLeast, fuel - 1)
        == TangentStep(pivot, 0, 1, polygon, Greater, AtLeast, fuel - 2);
  }

  /** `convex_hull`: sorts the caller's list by x in place, then builds the
      hull. Sorted, the list never exhausts the fuel `|points|` (so the
      result is the one unbounded recursion would give) and fails only on
      division by zero; with distinct x-coordinates it never fails. */
  method ConvexHull(points: array<Point>) returns (r: Result<seq<Point>, HullError>)
    modifies points
    ensures points[..] == SortByX(old(points[..]))
    ensures SortedByX(points[..]) && multiset(points[..]) == multiset(old(points[..]))
    ensures r == HullOfSorted(points[..], points.Length)
    ensures forall more :: more >= points.Length ==> HullOfSorted(points[..], more) == r
    ensures r.Err? ==> r.error == ZeroDivision
    ensures StrictlySortedByX(points[..]) ==> r.Ok?
  {
    SortInPlaceByX(points);
    var sorted := points[..];
    SortByXSortsAndPermutes(old(points[..]));
    HullFinishes(Upper, sorted, points.Length);
    HullFinishes(Lower, sorted, points.Length);
    forall more | more >= points.Length
      ensures HullOfSorted(sorted, more) == HullOfSorted(sorted, points.Length)
    {
      HullFuelIsEnough(Upper, sorted, points.Length, more);
      HullFuelIsEnough(Lower, sorted, points.Length, more);
    }
    r := HullOfSorted(sorted, points.Length);
  }
}
